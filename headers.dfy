/**
 * The `wp_headers` filter of the plugin. A PHP array of headers is an
 * ordered list of (name, value) entries with distinct names; assigning
 * `$headers[k] = v` overwrites the entry named `k` where it stands, or
 * appends one at the end when there is none.
 */
module Headers {

  type HeaderList = seq<(string, string)>

  const PolicyHeader: string := "Content-Security-Policy"
  const PolicyValue: string := "upgrade-insecure-requests"

  /** The header names, in array order. */
  function Names(h: HeaderList): (ks: seq<string>)
    ensures |ks| == |h|
    ensures forall i :: 0 <= i < |h| ==> ks[i] == h[i].0
  {
    if h == [] then [] else [h[0].0] + Names(h[1..])
  }

  /** A PHP array never holds two entries with the same key. */
  predicate DistinctNames(h: HeaderList) {
    forall i, j :: 0 <= i < j < |h| ==> h[i].0 != h[j].0
  }

  /** The array read as a dictionary (the first entry of a name wins). */
  function ToMap(h: HeaderList): map<string, string>
    decreases |h|
  {
    if h == [] then map[] else ToMap(h[1..])[h[0].0 := h[0].1]
  }

  /** `$h[k] = v`. */
  function Assign(h: HeaderList, k: string, v: string): (r: HeaderList)
    decreases |h|
  {
    if h == [] then [(k, v)]
    else if h[0].0 == k then [(k, v)] + h[1..]
    else [h[0]] + Assign(h[1..], k, v)
  }

  /** The names keep their order; a new name goes to the end. */
  lemma {:induction false} AssignNames(h: HeaderList, k: string, v: string)
    ensures Names(Assign(h, k, v)) == if k in Names(h) then Names(h) else Names(h) + [k]
    decreases |h|
  {
    if h != [] && h[0].0 != k {
      AssignNames(h[1..], k, v);
      assert Names(h) == [h[0].0] + Names(h[1..]);
      assert k in Names(h) <==> k in Names(h[1..]);
    }
  }

  /** As a dictionary, the assignment is exactly a single-key map update. */
  lemma {:induction false} AssignIsMapUpdate(h: HeaderList, k: string, v: string)
    ensures ToMap(Assign(h, k, v)) == ToMap(h)[k := v]
    decreases |h|
  {
    if h == [] {
    } else if h[0].0 == k {
      assert ([(k, v)] + h[1..])[1..] == h[1..];
    } else {
      AssignIsMapUpdate(h[1..], k, v);
      assert ([h[0]] + Assign(h[1..], k, v))[1..] == Assign(h[1..], k, v);
    }
  }

  /** On a real PHP array, every entry but the one named `k` is kept in place. */
  lemma {:induction false} AssignInPlace(h: HeaderList, k: string, v: string)
    requires DistinctNames(h)
    ensures DistinctNames(Assign(h, k, v))
    ensures |Assign(h, k, v)| == if k in Names(h) then |h| else |h| + 1
    ensures forall i :: 0 <= i < |h| ==> Assign(h, k, v)[i] == if h[i].0 == k then (k, v) else h[i]
    ensures k !in Names(h) ==> Assign(h, k, v)[|h|] == (k, v)
    decreases |h|
  {
    AssignNames(h, k, v);
    if h != [] && h[0].0 != k {
      AssignInPlace(h[1..], k, v);
      assert k in Names(h) <==> k in Names(h[1..]);
    }
    var r := Assign(h, k, v);
    assert DistinctNames(r) by {
      var ns := Names(r);
      forall i, j | 0 <= i < j < |r| ensures r[i].0 != r[j].0 {
        assert ns[i] == r[i].0 && ns[j] == r[j].0;
        if k !in Names(h) && j == |h| {
          assert ns[i] == Names(h)[i];
        } else {
          assert ns[i] == Names(h)[i] && ns[j] == Names(h)[j];
        }
      }
    }
  }

  /** Assigning the same value twice is the same as assigning it once. */
  lemma {:induction false} AssignIdempotent(h: HeaderList, k: string, v: string)
    ensures Assign(Assign(h, k, v), k, v) == Assign(h, k, v)
    decreases |h|
  {
    if h != [] && h[0].0 != k {
      AssignIdempotent(h[1..], k, v);
      assert ([h[0]] + Assign(h[1..], k, v))[1..] == Assign(h[1..], k, v);
    }
  }

  /** `add_headers`: sets the policy header to `upgrade-insecure-requests`. */
  function AddHeaders(headers: HeaderList): (r: HeaderList)
    ensures ToMap(r) == ToMap(headers)[PolicyHeader := PolicyValue]
    ensures Names(r) == if PolicyHeader in Names(headers) then Names(headers) else Names(headers) + [PolicyHeader]
  {
    AssignIsMapUpdate(headers, PolicyHeader, PolicyValue);
    AssignNames(headers, PolicyHeader, PolicyValue);
    Assign(headers, PolicyHeader, PolicyValue)
  }

  /**
   * After the filter the policy header is present with exactly the value
   * `upgrade-insecure-requests`, and every other header is present, and
   * has the same value, exactly when it was so before.
   */
  lemma AddHeadersSetsOnlyPolicy(headers: HeaderList)
    ensures PolicyHeader in ToMap(AddHeaders(headers))
    ensures ToMap(AddHeaders(headers))[PolicyHeader] == PolicyValue
    ensures forall k :: k != PolicyHeader ==>
      && (k in ToMap(AddHeaders(headers)) <==> k in ToMap(headers))
      && (k in ToMap(headers) ==> ToMap(AddHeaders(headers))[k] == ToMap(headers)[k])
  {
  }

  /** Running the filter twice gives the same headers as running it once. */
  lemma AddHeadersIdempotent(headers: HeaderList)
    ensures AddHeaders(AddHeaders(headers)) == AddHeaders(headers)
  {
    AssignIdempotent(headers, PolicyHeader, PolicyValue);
  }
}
