/**
 * PHP's `str_replace(search, replace, subject)` for one string search and
 * one string replacement: the subject is scanned left to right, every
 * occurrence of `search` that starts at or after the end of the previous
 * one is replaced, and the inserted text is never scanned again. An empty
 * search leaves the subject as it is.
 *
 * The scan is specified by the split it induces: cutting the subject at the
 * leftmost non-overlapping occurrences of `search` (PHP's `explode`) and
 * gluing the pieces back with `replace` (PHP's `implode`) gives the result.
 */
module StrReplace {

  predicate OccursAt(s: string, u: string, j: int) {
    0 <= j && j + |u| <= |s| && s[j..j + |u|] == u
  }

  /** `u` is a substring of `s`. */
  ghost predicate Occurs(u: string, s: string) {
    exists j :: OccursAt(s, u, j)
  }

  /** `str_replace(search, replace, subject)`. */
  function ReplaceAll(subject: string, search: string, replace: string): string {
    if |search| == 0 then subject else ReplaceFrom(subject, search, replace)
  }

  function ReplaceFrom(s: string, u: string, r: string): string
    requires |u| > 0
    decreases |s|
  {
    if |s| < |u| then s
    else if s[..|u|] == u then r + ReplaceFrom(s[|u|..], u, r)
    else [s[0]] + ReplaceFrom(s[1..], u, r)
  }

  /** `implode(glue, pieces)`. */
  function Join(pieces: seq<string>, glue: string): string
    decreases |pieces|
  {
    if |pieces| == 0 then ""
    else if |pieces| == 1 then pieces[0]
    else pieces[0] + glue + Join(pieces[1..], glue)
  }

  /** `strpos(s, u, from)`: the first occurrence of `u` at or after `from`, or -1. */
  function IndexOf(s: string, u: string, from: nat): (k: int)
    requires |u| > 0 && from <= |s|
    decreases |s| - from
    ensures k == -1 || (from <= k && OccursAt(s, u, k))
    ensures forall j :: from <= j && (k == -1 || j < k) ==> !OccursAt(s, u, j)
  {
    if from + |u| > |s| then -1
    else if s[from..from + |u|] == u then from
    else IndexOf(s, u, from + 1)
  }

  /** No occurrence of `u` in `p + u` starts inside `p`: the first one is the appended `u`. */
  ghost predicate ClearBefore(p: string, u: string) {
    forall j :: 0 <= j < |p| ==> !OccursAt(p + u, u, j)
  }

  /**
   * `pieces` are the texts between the leftmost non-overlapping occurrences
   * of `u`: the search stops at the end of each piece but the last, and
   * finds nothing in the last.
   */
  ghost predicate IsLeftmostSplit(pieces: seq<string>, u: string)
    decreases |pieces|
  {
    && |pieces| > 0
    && if |pieces| == 1 then !Occurs(u, pieces[0])
       else ClearBefore(pieces[0], u) && IsLeftmostSplit(pieces[1..], u)
  }

  lemma OccursAtPrefix(a: string, b: string, u: string, j: int)
    requires 0 <= j && j + |u| <= |a|
    ensures OccursAt(a + b, u, j) == OccursAt(a, u, j)
  {
    assert (a + b)[j..j + |u|] == a[j..j + |u|];
  }

  /** `explode(u, s)`. */
  function Explode(s: string, u: string): (pieces: seq<string>)
    requires |u| > 0
    decreases |s|
    ensures Join(pieces, u) == s
    ensures IsLeftmostSplit(pieces, u)
  {
    var k := IndexOf(s, u, 0);
    if k < 0 then
      assert !Occurs(u, s);
      [s]
    else
      var p, rest := s[..k], Explode(s[k + |u|..], u);
      assert s[..k + |u|] == p + u;
      assert s == p + u + s[k + |u|..];
      assert ClearBefore(p, u) by {
        forall j | 0 <= j < |p| ensures !OccursAt(p + u, u, j) {
          OccursAtPrefix(p + u, s[k + |u|..], u, j);
        }
      }
      assert ([p] + rest)[1..] == rest;
      [p] + rest
  }

  /** Scanning past a prefix in which no occurrence starts copies that prefix. */
  lemma {:induction false} SkipClear(p: string, t: string, u: string, r: string)
    requires |u| > 0
    requires forall j :: 0 <= j < |p| ==> !OccursAt(p + t, u, j)
    ensures ReplaceFrom(p + t, u, r) == p + ReplaceFrom(t, u, r)
    decreases |p|
  {
    if p == [] {
      assert p + t == t;
    } else if |p + t| < |u| {
    } else {
      assert !OccursAt(p + t, u, 0);
      assert (p + t)[1..] == p[1..] + t;
      forall j | 0 <= j < |p| - 1 ensures !OccursAt(p[1..] + t, u, j) {
        assert !OccursAt(p + t, u, j + 1);
        if j + 1 + |u| <= |p + t| {
          assert (p + t)[j + 1..j + 1 + |u|] == (p[1..] + t)[j..j + |u|];
        }
      }
      SkipClear(p[1..], t, u, r);
    }
  }

  /** With an empty search, or without an occurrence, the subject is returned unchanged. */
  lemma ReplaceAllAbsent(s: string, u: string, r: string)
    requires |u| == 0 || !Occurs(u, s)
    ensures ReplaceAll(s, u, r) == s
  {
    if |u| > 0 {
      assert s + [] == s;
      SkipClear(s, [], u, r);
    }
  }

  /**
   * The specification of `str_replace`: for any cutting of the subject at the
   * leftmost non-overlapping occurrences of the search string, the result is
   * the same pieces, verbatim and in order, glued with the replacement.
   */
  lemma {:induction false} ReplaceAllIsImplode(s: string, u: string, r: string, pieces: seq<string>)
    requires |u| > 0
    requires IsLeftmostSplit(pieces, u) && Join(pieces, u) == s
    ensures ReplaceAll(s, u, r) == Join(pieces, r)
    decreases |pieces|
  {
    if |pieces| == 1 {
      ReplaceAllAbsent(s, u, r);
    } else {
      var p, t := pieces[0], Join(pieces[1..], u);
      assert s == p + (u + t);
      forall j | 0 <= j < |p| ensures !OccursAt(p + (u + t), u, j) {
        assert p + (u + t) == (p + u) + t;
        OccursAtPrefix(p + u, t, u, j);
      }
      SkipClear(p, u + t, u, r);
      assert (u + t)[..|u|] == u && (u + t)[|u|..] == t;
      ReplaceAllIsImplode(t, u, r, pieces[1..]);
    }
  }

  /** `str_replace(u, r, s) == implode(r, explode(u, s))`. */
  lemma ReplaceAllExplode(s: string, u: string, r: string)
    requires |u| > 0
    ensures ReplaceAll(s, u, r) == Join(Explode(s, u), r)
    ensures s == Join(Explode(s, u), u)
  {
    ReplaceAllIsImplode(s, u, r, Explode(s, u));
  }

  /** The leftmost split is unique: it is the one `Explode` computes. */
  lemma {:induction false} ExplodeUnique(s: string, u: string, pieces: seq<string>)
    requires |u| > 0
    requires IsLeftmostSplit(pieces, u) && Join(pieces, u) == s
    ensures pieces == Explode(s, u)
    decreases |pieces|
  {
    var k := IndexOf(s, u, 0);
    if |pieces| == 1 {
      assert s == pieces[0];
      assert !OccursAt(s, u, k);
    } else {
      var p, t := pieces[0], Join(pieces[1..], u);
      assert s == (p + u) + t;
      OccursAtPrefix(p + u, t, u, |p|);
      assert OccursAt(p + u, u, |p|);
      forall j | 0 <= j < |p| ensures !OccursAt(s, u, j) {
        OccursAtPrefix(p + u, t, u, j);
      }
      assert k == |p|;
      assert s[..k] == p;
      assert s[k + |u|..] == t;
      ExplodeUnique(t, u, pieces[1..]);
    }
  }

  // ---------------------------------------------------------------------
  // When does an occurrence survive the replacement?

  /** Some proper suffix of `u` begins `r`. */
  ghost predicate SuffixBegins(u: string, r: string) {
    exists k :: 0 < k < |u| && |u| - k <= |r| && r[..|u| - k] == u[k..]
  }

  /** Some proper prefix of `u` ends `r`. */
  ghost predicate PrefixEnds(u: string, r: string) {
    exists k :: 0 < k < |u| && k <= |r| && r[|r| - k..] == u[..k]
  }

  /**
   * `u` cannot occur in any text that overlaps an inserted copy of `r`:
   * `u` is not inside `r`, `r` is not inside `u`, no proper suffix of `u`
   * begins `r` and no proper prefix of `u` ends `r`.
   */
  ghost predicate CannotReform(u: string, r: string) {
    !Occurs(u, r) && !Occurs(r, u) && !SuffixBegins(u, r) && !PrefixEnds(u, r)
  }

  /**
   * An occurrence of `u` in `x + r + y` lies within `x`, lies within `y`,
   * or reforms across `r` in one of the four ways `CannotReform` rules out.
   */
  lemma Straddle(x: string, r: string, y: string, u: string, j: int)
    requires |u| > 0
    ensures OccursAt(x + r + y, u, j) ==>
      || OccursAt(x, u, j)
      || OccursAt(y, u, j - |x| - |r|)
      || !CannotReform(u, r)
  {
    var s := x + r + y;
    var n, m := |x|, |r|;
    if OccursAt(s, u, j) {
      assert s[j..j + |u|] == u;
      if j + |u| <= n {
        assert s[j..j + |u|] == x[j..j + |u|];
      } else if j >= n + m {
        var w, v := s[j..j + |u|], y[j - n - m..j - n - m + |u|];
        forall i | 0 <= i < |u| ensures w[i] == v[i] {
          assert s[j + i] == y[j - n - m + i];
        }
        assert w == v;
      } else if j < n {
        var k := n - j;
        if j + |u| <= n + m {
          forall i | 0 <= i < |u| - k ensures u[k..][i] == r[i] {
            assert u[k + i] == s[n + i] == r[i];
          }
          assert u[k..] == r[..|u| - k];
          assert SuffixBegins(u, r);
        } else {
          assert u[k..k + m] == s[n..n + m] == r;
          assert OccursAt(u, r, k);
        }
      } else if j + |u| <= n + m {
        forall i | 0 <= i < |u| ensures r[j - n..j - n + |u|][i] == u[i] {
          assert u[i] == s[j + i] == r[j - n + i];
        }
        assert r[j - n..j - n + |u|] == u;
        assert OccursAt(r, u, j - n);
      } else if j == n {
        assert u[..m] == s[n..n + m] == r;
        assert OccursAt(u, r, 0);
      } else {
        var k := n + m - j;
        assert u[..k] == s[j..n + m] == r[m - k..];
        assert PrefixEnds(u, r);
      }
    }
  }

  lemma ClearBeforeAbsent(p: string, u: string)
    requires |u| > 0 && ClearBefore(p, u)
    ensures !Occurs(u, p)
  {
    forall j | 0 <= j && j + |u| <= |p| ensures !OccursAt(p, u, j) {
      OccursAtPrefix(p, u, u, j);
    }
  }

  lemma {:induction false} JoinAvoids(pieces: seq<string>, u: string, r: string)
    requires |u| > 0 && CannotReform(u, r)
    requires IsLeftmostSplit(pieces, u)
    ensures !Occurs(u, Join(pieces, r))
    decreases |pieces|
  {
    if |pieces| > 1 {
      var p, rest := pieces[0], Join(pieces[1..], r);
      JoinAvoids(pieces[1..], u, r);
      ClearBeforeAbsent(p, u);
      assert Join(pieces, r) == p + r + rest;
      forall j ensures !OccursAt(p + r + rest, u, j) {
        Straddle(p, r, rest, u, j);
      }
    }
  }

  /** A replacement that cannot reform the search string leaves no occurrence of it. */
  lemma NoOccurrenceRemains(s: string, u: string, r: string)
    requires |u| > 0 && CannotReform(u, r)
    ensures !Occurs(u, ReplaceAll(s, u, r))
  {
    ReplaceAllExplode(s, u, r);
    JoinAvoids(Explode(s, u), u, r);
  }

  /**
   * It is not enough that the replacement does not contain the search
   * string: replacing `http://a` by `http://` in `http://aa` yields `http://a`.
   */
  lemma OccurrenceCanReform()
    ensures !Occurs("http://a", "http://")
    ensures ReplaceAll("http://aa", "http://a", "http://") == "http://a"
    ensures Occurs("http://a", ReplaceAll("http://aa", "http://a", "http://"))
  {
    var s, u, r := "http://aa", "http://a", "http://";
    assert s[..|u|] == u;
    assert s[|u|..] == "a";
    assert ReplaceFrom("a", u, r) == "a";
    assert ReplaceAll(s, u, r) == r + "a";
    assert r + "a" == u;
    assert OccursAt(u, u, 0);
  }
}
