/**
 * The language of capture group 1 of the insecure-image pattern,
 *
 *     http:\/\/(-\.)?([^\s/?\.#-]+\.?)+(/[^\s]*)?      with the `i` flag,
 *
 * that is: the scheme `http://` in any letter case, an optional `-.`, a host
 * made of runs of label characters each followed by at most one dot, and an
 * optional path that starts with `/` and contains no white space.
 *
 * `IsCapturedUrl` is a decision procedure that splits a candidate at its
 * first `/` after the scheme; `MatchesGroup1` states the pattern as written,
 * group by group, and `CapturedUrlIsGroup1Language` proves the two agree.
 */
module CapturedUrl {

  /** PCRE `\s` without the UTF flag: space, tab, line feed, vertical tab, form feed, carriage return. */
  predicate IsSpace(c: char) {
    c == ' ' || c == '\t' || c == '\n' || c == '\U{0B}' || c == '\U{0C}' || c == '\r'
  }

  /** A character of the class `[^\s/?\.#-]`. */
  predicate IsLabelChar(c: char) {
    !IsSpace(c) && c != '/' && c != '?' && c != '.' && c != '#' && c != '-'
  }

  /** Case folding as PCRE does it for the `i` flag outside UTF mode: ASCII letters only. */
  function LowerAscii(c: char): char {
    if 'A' <= c <= 'Z' then (c as int + 32) as char else c
  }

  predicate EqualsIgnoreCase(a: string, b: string) {
    |a| == |b| && forall i :: 0 <= i < |a| ==> LowerAscii(a[i]) == LowerAscii(b[i])
  }

  const Scheme: string := "http://"

  /** A host: a label character first, then label characters and dots, never two dots in a row. */
  predicate IsHost(h: string) {
    && |h| > 0
    && IsLabelChar(h[0])
    && (forall i :: 0 <= i < |h| ==> IsLabelChar(h[i]) || h[i] == '.')
    && (forall i :: 0 < i < |h| && h[i] == '.' ==> h[i - 1] != '.')
  }

  /** A path: empty, or a `/` followed by characters that are not white space. */
  predicate IsPath(p: string) {
    p == [] || (p[0] == '/' && forall i :: 0 <= i < |p| ==> !IsSpace(p[i]))
  }

  /** Index of the first `/` in `t`, or `|t|` when there is none. */
  function FirstSlash(t: string): (k: nat)
    ensures k <= |t|
    ensures forall j :: 0 <= j < k ==> t[j] != '/'
    ensures k < |t| ==> t[k] == '/'
  {
    if t == [] || t[0] == '/' then 0 else 1 + FirstSlash(t[1..])
  }

  /** The four pieces of a captured URL, in the order the pattern reads them. */
  datatype UrlParts = UrlParts(scheme: string, dashDot: bool, host: string, path: string)

  predicate ValidParts(p: UrlParts) {
    EqualsIgnoreCase(p.scheme, Scheme) && IsHost(p.host) && IsPath(p.path)
  }

  function Render(p: UrlParts): string {
    p.scheme + (if p.dashDot then "-." else "") + p.host + p.path
  }

  /**
   * Cuts a candidate into scheme, optional `-.`, host and path: the host ends
   * at the first `/` after the scheme (and the `-.`, when present).
   */
  function Split(s: string): (p: UrlParts)
    requires |s| >= |Scheme|
    ensures Render(p) == s
    ensures |p.scheme| == |Scheme|
    ensures forall j :: 0 <= j < |p.host| ==> p.host[j] != '/'
    ensures p.path != [] ==> p.path[0] == '/'
  {
    var dash := |s| >= 9 && s[7] == '-' && s[8] == '.';
    var rest := if dash then s[9..] else s[7..];
    var k := FirstSlash(rest);
    assert s == s[..7] + (if dash then "-." else "") + rest;
    assert rest == rest[..k] + rest[k..];
    UrlParts(s[..7], dash, rest[..k], rest[k..])
  }

  /**
   * The validator: `s` is in the language of capture group 1's sub-pattern.
   * Every string group 1 captures is accepted; the greedy prefix of the whole
   * pattern may still move a capture to a later `http://` inside such a string.
   */
  predicate IsCapturedUrl(s: string) {
    |s| >= |Scheme| && ValidParts(Split(s))
  }

  /** Rendering well-formed parts gives a captured URL, and splitting it gives the parts back. */
  lemma RenderSplit(p: UrlParts)
    requires ValidParts(p)
    ensures IsCapturedUrl(Render(p))
    ensures Split(Render(p)) == p
  {
    var s := Render(p);
    var dashPart := if p.dashDot then "-." else "";
    assert s == p.scheme + dashPart + p.host + p.path;
    assert s[..7] == p.scheme;
    var rest := p.host + p.path;
    // A host never starts with `-`, so `-.` is found exactly when it was rendered.
    if p.dashDot {
      assert s[7] == '-' && s[8] == '.';
      assert s[9..] == rest;
    } else {
      assert s[7..] == rest;
      assert s[7] == p.host[0];
    }
    FirstSlashOfHost(p.host, p.path);
    assert rest[..|p.host|] == p.host;
    assert rest[|p.host|..] == p.path;
  }

  /** The first `/` of host-then-path is where the path starts. */
  lemma {:induction false} FirstSlashOfHost(h: string, path: string)
    requires forall j :: 0 <= j < |h| ==> h[j] != '/'
    requires IsPath(path)
    ensures FirstSlash(h + path) == |h|
  {
    if h == [] {
      assert h + path == path;
    } else {
      assert (h + path)[1..] == h[1..] + path;
      FirstSlashOfHost(h[1..], path);
    }
  }

  // ---------------------------------------------------------------------
  // Properties of captured URLs.

  /** Every captured URL starts with `http://` in some letter case, and so never with `https://`. */
  lemma CapturedUrlIsPlainHttp(s: string)
    requires IsCapturedUrl(s)
    ensures |s| > |Scheme|
    ensures EqualsIgnoreCase(s[..7], "http://")
    ensures !(|s| >= 8 && EqualsIgnoreCase(s[..8], "https://"))
  {
    var p := Split(s);
    assert s[..7] == p.scheme;
    assert s[4] == ':' by {
      assert LowerAscii(p.scheme[4]) == LowerAscii(Scheme[4]);
    }
    assert |s| >= 8 ==> LowerAscii(s[..8][4]) != LowerAscii("https://"[4]);
  }

  /** A captured URL contains no white space at all. */
  lemma CapturedUrlHasNoSpace(s: string)
    requires IsCapturedUrl(s)
    ensures forall i :: 0 <= i < |s| ==> !IsSpace(s[i])
  {
    var p := Split(s);
    var d := if p.dashDot then 2 else 0;
    forall i | 0 <= i < |s| ensures !IsSpace(s[i]) {
      if i < 7 {
        assert s[i] == p.scheme[i];
        assert LowerAscii(p.scheme[i]) == LowerAscii(Scheme[i]);
      } else if i < 7 + d {
      } else if i < 7 + d + |p.host| {
        assert s[i] == p.host[i - 7 - d];
      } else {
        assert s[i] == p.path[i - 7 - d - |p.host|];
      }
    }
  }

  /** Where the host of a captured URL starts: after the scheme and the optional `-.`. */
  function HostStart(s: string): (k: nat)
    requires IsCapturedUrl(s)
    ensures k == |s| - |Split(s).host| - |Split(s).path|
    ensures k == 7 || (k == 9 && s[7] == '-' && s[8] == '.')
  {
    if Split(s).dashDot then 9 else 7
  }

  /** Where the path of a captured URL starts (`|s|` when it has none). */
  function PathStart(s: string): (k: nat)
    requires IsCapturedUrl(s)
    ensures k == |s| - |Split(s).path|
  {
    HostStart(s) + |Split(s).host|
  }

  /**
   * The host of a captured URL: it starts with a label character, holds no
   * `/`, `?`, `#`, `-` or white space, and never two dots in a row.
   */
  lemma CapturedUrlHost(s: string)
    requires IsCapturedUrl(s)
    ensures HostStart(s) < PathStart(s) <= |s|
    ensures IsLabelChar(s[HostStart(s)])
    ensures forall j :: HostStart(s) <= j < PathStart(s) ==>
              s[j] != '/' && s[j] != '?' && s[j] != '#' && s[j] != '-' && !IsSpace(s[j])
    ensures forall j :: HostStart(s) < j < PathStart(s) && s[j] == '.' ==> s[j - 1] != '.'
  {
    var p := Split(s);
    var h0 := HostStart(s);
    assert s[h0..PathStart(s)] == p.host;
    forall j | h0 <= j < PathStart(s)
      ensures s[j] == p.host[j - h0]
    {
    }
  }

  /** The path of a captured URL, when there is one, begins at the first `/` after the scheme. */
  lemma CapturedUrlPathAtFirstSlash(s: string)
    requires IsCapturedUrl(s)
    ensures forall j :: 7 <= j < PathStart(s) ==> s[j] != '/'
    ensures PathStart(s) < |s| ==> s[PathStart(s)] == '/'
  {
    var p := Split(s);
    var h0 := HostStart(s);
    assert s[h0..PathStart(s)] == p.host;
    assert s[PathStart(s)..] == p.path;
    forall j | 7 <= j < PathStart(s)
      ensures s[j] != '/'
    {
      if j >= h0 {
        assert s[j] == p.host[j - h0];
      }
    }
  }

  // ---------------------------------------------------------------------
  // The pattern as written, group by group.

  predicate AllLabel(g: string) {
    forall i :: 0 <= i < |g| ==> IsLabelChar(g[i])
  }

  /** One repetition of `([^\s/?\.#-]+\.?)`. */
  ghost predicate HostGroup(g: string) {
    || (|g| >= 1 && AllLabel(g))
    || (|g| >= 2 && g[|g| - 1] == '.' && AllLabel(g[..|g| - 1]))
  }

  /** One or more repetitions of `([^\s/?\.#-]+\.?)`, i.e. `(...)+`. */
  ghost predicate HostGroups(h: string)
    decreases |h|
  {
    exists k :: 0 < k <= |h| && HostGroup(h[..k]) && (k == |h| || HostGroups(h[k..]))
  }

  /** `(/[^\s]*)?` */
  ghost predicate OptionalPath(p: string) {
    p == [] || (p[0] == '/' && forall i :: 1 <= i < |p| ==> !IsSpace(p[i]))
  }

  /** The whole group: `http:\/\/`, then `(-\.)?`, then the host groups, then the optional path. */
  ghost predicate MatchesGroup1(s: string) {
    exists a, b ::
      && 7 <= a <= b <= |s|
      && EqualsIgnoreCase(s[..7], Scheme)
      && (s[7..a] == "" || s[7..a] == "-.")
      && HostGroups(s[a..b])
      && OptionalPath(s[b..])
  }

  lemma {:induction false} HostHasGroups(h: string)
    requires IsHost(h)
    ensures HostGroups(h)
    decreases |h|
  {
    var k := if |h| >= 2 && h[1] == '.' then 2 else 1;
    assert AllLabel(h[..1]);
    assert HostGroup(h[..k]);
    if k < |h| {
      var t := h[k..];
      assert t[0] == h[k];
      forall i | 0 <= i < |t| ensures IsLabelChar(t[i]) || t[i] == '.' {
        assert t[i] == h[k + i];
      }
      forall i | 0 < i < |t| && t[i] == '.' ensures t[i - 1] != '.' {
        assert t[i] == h[k + i] && t[i - 1] == h[k + i - 1];
      }
      HostHasGroups(t);
    }
  }

  lemma {:induction false} GroupsAreHost(h: string)
    requires HostGroups(h)
    ensures IsHost(h)
    decreases |h|
  {
    var k :| 0 < k <= |h| && HostGroup(h[..k]) && (k == |h| || HostGroups(h[k..]));
    var g := h[..k];
    // Within the first group: label characters, then perhaps one final dot.
    assert forall i :: 0 <= i < k - 1 ==> IsLabelChar(h[i]) by {
      forall i | 0 <= i < k - 1 ensures IsLabelChar(h[i]) {
        assert g[i] == h[i];
        if !AllLabel(g) {
          assert g[..|g| - 1][i] == g[i];
        }
      }
    }
    assert IsLabelChar(h[k - 1]) || h[k - 1] == '.' by {
      assert g[k - 1] == h[k - 1];
    }
    assert k == 1 ==> IsLabelChar(h[0]) by {
      assert g[0] == h[0];
    }
    if k < |h| {
      var t := h[k..];
      GroupsAreHost(t);
      assert t[0] == h[k];
      forall i | 0 <= i < |h| ensures IsLabelChar(h[i]) || h[i] == '.' {
        if i >= k {
          assert h[i] == t[i - k];
        }
      }
      forall i | 0 < i < |h| && h[i] == '.' ensures h[i - 1] != '.' {
        if i > k {
          assert h[i] == t[i - k] && h[i - 1] == t[i - k - 1];
        }
      }
    }
  }

  lemma CapturedUrlMatchesGroup1(s: string)
    requires IsCapturedUrl(s)
    ensures MatchesGroup1(s)
  {
    var p := Split(s);
    var a := if p.dashDot then 9 else 7;
    var b := a + |p.host|;
    assert s[..7] == p.scheme;
    assert s[a..b] == p.host;
    assert s[b..] == p.path;
    HostHasGroups(p.host);
    assert s[7..a] == "" || s[7..a] == "-.";
  }

  lemma Group1IsCapturedUrl(s: string)
    requires MatchesGroup1(s)
    ensures IsCapturedUrl(s)
  {
    var a, b :| && 7 <= a <= b <= |s|
                && EqualsIgnoreCase(s[..7], Scheme)
                && (s[7..a] == "" || s[7..a] == "-.")
                && HostGroups(s[a..b])
                && OptionalPath(s[b..]);
    var h := s[a..b];
    GroupsAreHost(h);
    var path := s[b..];
    assert IsPath(path);
    var p := UrlParts(s[..7], a == 9, h, path);
    assert ValidParts(p);
    assert Render(p) == s by {
      assert s == s[..7] + s[7..a] + s[a..b] + s[b..];
    }
    RenderSplit(p);
  }

  /** The validator accepts exactly the language of capture group 1's sub-pattern. */
  lemma CapturedUrlIsGroup1Language(s: string)
    ensures IsCapturedUrl(s) <==> MatchesGroup1(s)
  {
    if IsCapturedUrl(s) {
      CapturedUrlMatchesGroup1(s);
    }
    if MatchesGroup1(s) {
      Group1IsCapturedUrl(s);
    }
  }

  // ---------------------------------------------------------------------
  // The two image URLs of the plugin's search test.

  /** The insecure image of the search test, and its secure twin. */
  const TestImage: string := "http://" + "media.giphy.com" + "/media/oXWwl0eUy2mNW/giphy.gif"
  const SecureTestImage: string := "https://" + "media.giphy.com" + "/media/oXWwl0eUy2mNW/giphy.gif"

  lemma InsecureTestImageIsCaptured()
    ensures IsCapturedUrl(TestImage)
  {
    assert IsHost("media.giphy.com");
    assert IsPath("/media/oXWwl0eUy2mNW/giphy.gif");
    var p := UrlParts(Scheme, false, "media.giphy.com", "/media/oXWwl0eUy2mNW/giphy.gif");
    assert Render(p) == TestImage;
    RenderSplit(p);
  }

  lemma SecureTestImageIsNotCaptured()
    ensures !IsCapturedUrl(SecureTestImage)
  {
    assert SecureTestImage[..8] == "https://";
    if IsCapturedUrl(SecureTestImage) {
      CapturedUrlIsPlainHttp(SecureTestImage);
    }
  }
}
