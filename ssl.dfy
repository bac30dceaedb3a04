/**
 * The insecure-image rewrite of the `SSL` plugin class: `the_content` is
 * passed through `proxy_insecure_images`, which replaces every URL that the
 * image pattern captured by its Camo proxy URL, one match at a time, in the
 * order the matcher returned the matches.
 */
module Ssl {
  import opened Wrappers
  import opened CapturedUrl
  import opened StrReplace

  const CamoKey: string := "YOUR_CAMO_KEY_HERE"
  const CamoDomain: string := "sample-camo-domain.herokuapp.com"

  /**
   * The Camo client's signing function, from (domain, key, original URL) to
   * the proxy URL. It is deterministic and otherwise unknown.
   */
  type CamoSigner = (string, string, string) -> string

  /** `$camo->proxy(url)` for the client configured with the plugin's domain and key. */
  function Proxy(camo: CamoSigner, url: string): string {
    camo(CamoDomain, CamoKey, url)
  }

  /** A string in the language of capture group 1's sub-pattern, which holds every string the group captures. */
  type Url = s: string | IsCapturedUrl(s) witness Scheme + "a"

  /**
   * One match set as `preg_match_all` returns it under `PREG_SET_ORDER`:
   * the whole match, and group 1 when the first alternative matched.
   * Groups 2 to 4 are never read and are not represented.
   */
  datatype MatchSet = MatchSet(whole: string, url: Option<Url>)

  /** The entries of `$u` that are modelled: `$u[0]`, and `$u[1]` when it is set. */
  function Groups(m: MatchSet): seq<string> {
    [m.whole] + (match m.url case Some(u) => [u] case None => [])
  }

  /** `$u[1]` as `str_replace` receives it: an unset group is null, which it reads as "". */
  function Search(m: MatchSet): string {
    match m.url
    case Some(u) => u
    case None => ""
  }

  /** One iteration: `$content = str_replace($u[1], $camo->proxy($u[1]), $content)`. */
  function ProxyStep(content: string, m: MatchSet, camo: CamoSigner): string {
    ReplaceAll(content, Search(m), Proxy(camo, Search(m)))
  }

  /** The content after the loop has run over `matches`, in order: the left fold of `ProxyStep`. */
  function ProxyAll(content: string, matches: seq<MatchSet>, camo: CamoSigner): string
    decreases |matches|
  {
    if |matches| == 0 then content
    else ProxyStep(ProxyAll(content, matches[..|matches| - 1], camo), matches[|matches| - 1], camo)
  }

  /**
   * `has_insecure_images`: whether the search found a match, read through
   * `count($urls[0])` only when there is a first match set to count.
   */
  function HasInsecureImages(matches: seq<MatchSet>): (r: bool)
    ensures r <==> |matches| > 0
  {
    |matches| > 0 && |Groups(matches[0])| != 0
  }

  /**
   * `proxy_insecure_images`, given the matches of the image pattern in
   * `content` and the Camo signing function.
   */
  method ProxyInsecureImages(content: string, matches: seq<MatchSet>, camo: CamoSigner)
    returns (result: string)
    ensures result == ProxyAll(content, matches, camo)
    ensures !HasInsecureImages(matches) ==> result == content
  {
    result := content;
    var i := 0;
    while i < |matches|
      invariant 0 <= i <= |matches|
      invariant result == ProxyAll(content, matches[..i], camo)
    {
      var u := matches[i];
      var search := Search(u);
      result := ReplaceAll(result, search, Proxy(camo, search));
      assert matches[..i + 1][..i] == matches[..i];
      i := i + 1;
    }
    assert matches[..|matches|] == matches;
  }

  // ---------------------------------------------------------------------
  // What one step does.

  /**
   * A step for a captured URL cuts the content at the URL's leftmost
   * non-overlapping occurrences and glues the very same pieces back with the
   * proxy URL in between; a match without group 1 changes nothing.
   */
  lemma ProxyStepReplacesEveryOccurrence(content: string, m: MatchSet, camo: CamoSigner)
    ensures m.url.None? ==> ProxyStep(content, m, camo) == content
    ensures m.url.Some? ==>
      var u := m.url.value;
      && content == Join(Explode(content, u), u)
      && ProxyStep(content, m, camo) == Join(Explode(content, u), Proxy(camo, u))
  {
    if m.url.Some? {
      var u := m.url.value;
      CapturedUrlIsPlainHttp(u);
      ReplaceAllExplode(content, u, Proxy(camo, u));
    }
  }

  /**
   * When the proxy URL cannot reform the captured URL, no occurrence of the
   * captured URL is left after its step.
   */
  lemma ProxyStepRemovesUrl(content: string, m: MatchSet, camo: CamoSigner)
    requires m.url.Some?
    requires CannotReform(m.url.value, Proxy(camo, m.url.value))
    ensures !Occurs(m.url.value, ProxyStep(content, m, camo))
  {
    CapturedUrlIsPlainHttp(m.url.value);
    NoOccurrenceRemains(content, m.url.value, Proxy(camo, m.url.value));
  }

  // ---------------------------------------------------------------------
  // What the loop does.

  /** Running the loop over `a + b` is running it over `a`, then over `b` on the result. */
  lemma {:induction false} ProxyAllAppend(content: string, a: seq<MatchSet>, b: seq<MatchSet>, camo: CamoSigner)
    ensures ProxyAll(content, a + b, camo) == ProxyAll(ProxyAll(content, a, camo), b, camo)
    decreases |b|
  {
    if |b| == 0 {
      assert a + b == a;
    } else {
      var b' := b[..|b| - 1];
      assert (a + b)[..|a + b| - 1] == a + b';
      assert (a + b)[|a + b| - 1] == b[|b| - 1];
      ProxyAllAppend(content, a, b', camo);
    }
  }

  /** The match sets that have a group 1. */
  function Captured(matches: seq<MatchSet>): (r: seq<MatchSet>)
    ensures |r| <= |matches|
    ensures forall i :: 0 <= i < |r| ==> r[i].url.Some?
    decreases |matches|
  {
    if |matches| == 0 then []
    else
      var rest := Captured(matches[..|matches| - 1]);
      if matches[|matches| - 1].url.Some? then rest + [matches[|matches| - 1]] else rest
  }

  /** Match sets without group 1 do not affect the result. */
  lemma {:induction false} ProxyAllIgnoresUncaptured(content: string, matches: seq<MatchSet>, camo: CamoSigner)
    ensures ProxyAll(content, matches, camo) == ProxyAll(content, Captured(matches), camo)
    decreases |matches|
  {
    if |matches| > 0 {
      var init, last := matches[..|matches| - 1], matches[|matches| - 1];
      ProxyAllIgnoresUncaptured(content, init, camo);
      if last.url.Some? {
        var r := Captured(init) + [last];
        assert r[..|r| - 1] == Captured(init);
      } else {
        ProxyStepReplacesEveryOccurrence(ProxyAll(content, init, camo), last, camo);
      }
    }
  }

  /** Content without any captured match comes back unchanged. */
  lemma ProxyAllWithoutCaptures(content: string, matches: seq<MatchSet>, camo: CamoSigner)
    requires forall i :: 0 <= i < |matches| ==> matches[i].url.None?
    ensures ProxyAll(content, matches, camo) == content
  {
    ProxyAllIgnoresUncaptured(content, matches, camo);
    if |Captured(matches)| > 0 {
      CapturedOnlyKeepsCaptured(matches, 0);
    }
  }

  /** Every entry of `Captured(matches)` is one of the match sets. */
  lemma {:induction false} CapturedOnlyKeepsCaptured(matches: seq<MatchSet>, i: nat)
    requires i < |Captured(matches)|
    ensures Captured(matches)[i] in matches
    decreases |matches|
  {
    var init, last := matches[..|matches| - 1], matches[|matches| - 1];
    var rest := Captured(init);
    if i < |rest| {
      CapturedOnlyKeepsCaptured(init, i);
      assert init[..] <= matches;
    }
    if last.url.Some? && i == |rest| {
      assert Captured(matches)[i] == last;
    }
  }

  // ---------------------------------------------------------------------
  // `has_insecure_images` as written.

  /** What evaluating an expression gives under PHP 8: a value, or a thrown `TypeError`. */
  datatype Evaluation<T> = Value(v: T) | TypeError

  /**
   * `0 !== count($urls[0])` as written: with no match, `$urls[0]` is an
   * undefined offset that reads as null, and `count(null)` throws.
   */
  function HasInsecureImagesAsWritten(matches: seq<MatchSet>): (r: Evaluation<bool>)
    ensures r.TypeError? <==> |matches| == 0
  {
    if |matches| == 0 then TypeError else Value(|Groups(matches[0])| != 0)
  }

  /** Content without a match: the expression as written throws instead of giving false. */
  lemma HasInsecureImagesAsWrittenThrows()
    ensures HasInsecureImagesAsWritten([]) == TypeError
    ensures !HasInsecureImages([])
  {
  }

  /** Wherever the expression as written gives a value, it is the intended one. */
  lemma HasInsecureImagesAgrees(matches: seq<MatchSet>)
    requires |matches| > 0
    ensures HasInsecureImagesAsWritten(matches) == Value(HasInsecureImages(matches))
  {
  }
}
