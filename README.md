# BU SSL: the insecure-image proxy rewrite, in Dafny

The BU SSL WordPress plugin helps a site move to HTTPS. Its one piece of real
logic is in the `SSL` class of `bu-ssl.php`. A regular expression is meant to find
`<img>` tags whose source is a plain `http://` URL. The `the_content` filter
`proxy_insecure_images` then rewrites each captured URL into a URL on a Camo
image proxy, one match at a time, with `str_replace`. The `wp_headers` filter
`add_headers` sets `Content-Security-Policy: upgrade-insecure-requests`.

This project models those three parts and proves properties of them:

- `CapturedUrl` (captured_url.dfy): the language of capture group 1 of the
  pattern at bu-ssl.php:49,
  `http:\/\/(-\.)?([^\s/?\.#-]+\.?)+(/[^\s]*)?` with the `i` flag.
  `IsCapturedUrl` is a validator. It splits a candidate into scheme, an
  optional `-.`, a host and a path. `MatchesGroup1` states the pattern group by
  group. A lemma proves that the two accept the same strings. Other lemmas
  give the shape of every captured URL: it starts with `http://` in any letter
  case, so never with `https://`; it contains no white space; the host
  contains no `/ ? # -` and never two dots in a row; and the path starts at
  the first `/`.
- `StrReplace` (str_replace.dfy): PHP's `str_replace` for a single string
  search and replacement, as `ReplaceAll`. The scan goes left to right,
  replaces non-overlapping occurrences and never rescans inserted text. An
  empty search changes nothing. The specification is PHP's own identity
  `str_replace(u, r, s) == implode(r, explode(u, s))`. Cutting the subject at
  the leftmost non-overlapping occurrences of `u` gives unique pieces. The
  result is those pieces, verbatim and in order, joined by `r`.
- `Headers` (headers.dfy): `add_headers` on a PHP array. The array is modelled
  as an ordered list of entries with distinct keys, because PHP arrays keep
  insertion order.
- `Ssl` (ssl.dfy): the Camo constants, the proxy function, the match sets
  returned by `preg_match_all` with `PREG_SET_ORDER`, `has_insecure_images`,
  and `proxy_insecure_images`. `proxy_insecure_images` is a method with a
  loop. It is proved equal to `ProxyAll`, the left fold of one replace-all
  step per match, in the matcher's order.
- `Wrappers` (wrappers.dfy): `Option`, used for group 1, which a match of the
  pattern's second alternative does not set.

Collaborators that are not part of the model:

- The regular-expression matcher is not modelled. Its output, the list of
  match sets, is an input. Each captured URL has type `Url`, the strings that
  satisfy `IsCapturedUrl`.
- The Camo client (`vendor/willwashburn/phpamo`) is not part of this model. It
  is a parameter `camo: (domain, key, url) -> string`. `Proxy` applies it to
  the plugin's constants `BU_SSL_CAMO_DOMAIN` and `BU_SSL_CAMO_KEY`. Being a
  function, it is deterministic.
- PHP strings are byte strings. The model uses `seq<char>`. Without the UTF
  flag, PCRE treats every byte of a multi-byte character as a non-space
  character that is not in `/?.#-`. The model treats a non-ASCII character
  the same way, as a single character. `str_replace` on valid UTF-8 matches
  whole characters, so the two readings agree.

## Model

| member | source | states |
|---|---|---|
| `CapturedUrl.CapturedUrlIsGroup1Language` | bu-ssl.php:49 | The validator accepts exactly the strings in the language of capture group 1, read group by group: case-insensitive `http://`, optional `-.`, one or more host groups `[^\s/?\.#-]+\.?`, optional path `/[^\s]*`. |
| `CapturedUrl.Split` | bu-ssl.php:49 | Cutting a candidate into scheme, optional `-.`, host and path loses nothing (rendering the parts gives the input back). The host holds no `/`. The path is empty or starts with `/`. |
| `CapturedUrl.RenderSplit` | bu-ssl.php:49 | Well-formed parts always render to a captured URL, and splitting that URL gives the same parts back, so the split is unambiguous. |
| `CapturedUrl.CapturedUrlIsPlainHttp` | bu-ssl.php:49 | A captured URL is longer than the scheme, starts with `http://` in some letter case (`i` flag), and never starts with `https://` in any letter case. |
| `CapturedUrl.CapturedUrlHasNoSpace` | bu-ssl.php:49 | A captured URL contains no PCRE `\s` character anywhere. |
| `CapturedUrl.CapturedUrlHost` | bu-ssl.php:49 | After the optional `-.`, the host is non-empty and starts with a label character. It contains no `/`, `?`, `#`, `-` or white space, and no dot directly follows another dot. |
| `CapturedUrl.CapturedUrlPathAtFirstSlash` | bu-ssl.php:49 | No `/` appears between the scheme and the path. When there is a path, it starts at that first `/`. |
| `CapturedUrl.InsecureTestImageIsCaptured` | tests/test-bu-ssl.php:25-39 | The test's `http://media.giphy.com/...` image URL is in the language of group 1. |
| `CapturedUrl.SecureTestImageIsNotCaptured` | tests/test-bu-ssl.php:26-44 | The test's `https://` twin of that URL is not in the language. |
| `StrReplace.Explode` | bu-ssl.php:106 | The pieces between the leftmost non-overlapping occurrences of the search string, rejoined with the search string, give the subject back. They form a leftmost split: no occurrence starts inside any piece. |
| `StrReplace.ExplodeUnique` | bu-ssl.php:106 | Any leftmost split of the subject is the one `Explode` computes, so the split is unique. |
| `StrReplace.ReplaceAllIsImplode` | bu-ssl.php:106 | For any leftmost split of the subject, `str_replace` returns exactly those pieces, unchanged and in order, joined by the replacement. Every other character is copied verbatim, and inserted text is never rescanned. |
| `StrReplace.ReplaceAllExplode` | bu-ssl.php:106 | `str_replace(u, r, s) == implode(r, explode(u, s))` and `s == implode(u, explode(u, s))`. |
| `StrReplace.ReplaceAllAbsent` | bu-ssl.php:106 | When the search string is empty or does not occur in the subject, the subject is returned unchanged. |
| `StrReplace.NoOccurrenceRemains` | bu-ssl.php:106 | If the replacement cannot reform the search string (see `CannotReform`), no occurrence of the search string is left in the result. |
| `StrReplace.OccurrenceCanReform` | bu-ssl.php:106 | The weaker premise "the replacement does not contain the search string" is not enough. Replacing `http://a` with `http://` in `http://aa` gives `http://a`. |
| `Headers.AddHeaders` | bu-ssl.php:77-80 | As a dictionary, the result is the input updated at `Content-Security-Policy` to `upgrade-insecure-requests`. The header names keep their order. The policy header is appended only when it was absent. |
| `Headers.AddHeadersSetsOnlyPolicy` | bu-ssl.php:77-80 | After the filter, the policy header has exactly the value `upgrade-insecure-requests`. Every other header is present, with the same value, exactly when it was before. |
| `Headers.AddHeadersIdempotent` | bu-ssl.php:77-80 | Applying the filter twice gives the same array as applying it once. |
| `Headers.AssignIsMapUpdate` | bu-ssl.php:78 | The PHP assignment `$headers[k] = v`, read as a dictionary, is the single-key map update `m[k := v]`. |
| `Headers.AssignNames` | bu-ssl.php:78 | The assignment keeps the order of the keys and appends `k` only if it was absent. |
| `Headers.AssignInPlace` | bu-ssl.php:78 | On an array with distinct keys, the result still has distinct keys. Every entry not named `k` stays at its position. The entry named `k` becomes `(k, v)`, or `(k, v)` is appended. |
| `Headers.AssignIdempotent` | bu-ssl.php:78 | Assigning the same key and value twice equals assigning it once. |
| `Ssl.ProxyInsecureImages` | bu-ssl.php:98-110 | The loop returns the left fold of replace-all steps over the match sets, in the order `preg_match_all` returned them. With no match, the content comes back unchanged. |
| `Ssl.HasInsecureImages` | bu-ssl.php:93-96 | True exactly when the search produced at least one match set. |
| `Ssl.ProxyStepReplacesEveryOccurrence` | bu-ssl.php:105-107 | One step with a captured URL `u` cuts the content at the leftmost non-overlapping occurrences of `u` and joins the same pieces with `proxy(u)`. A match set without group 1 (null search) changes nothing. |
| `Ssl.ProxyStepRemovesUrl` | bu-ssl.php:106 | If `proxy(u)` cannot reform `u`, no occurrence of `u` remains after the step for `u`. |
| `Ssl.ProxyAllAppend` | bu-ssl.php:89 | The fold over `a + b` is the fold over `b` applied to the fold over `a`, so the matches are processed strictly in order. |
| `Ssl.ProxyAllIgnoresUncaptured` | bu-ssl.php:105-106 | Match sets from the second alternative, which have no group 1, do not affect the result. Folding over all match sets equals folding over those that captured a URL. |
| `Ssl.ProxyAllWithoutCaptures` | bu-ssl.php:103-109 | When no match set captured a URL, the content is returned unchanged. |
| `Ssl.HasInsecureImagesAsWritten` | bu-ssl.php:95 | The expression `0 !== count($urls[0])` as written throws on PHP 8 exactly when there is no match. |
| `Ssl.HasInsecureImagesAsWrittenThrows` | bu-ssl.php:93-96 | For content with no match, the code as written throws where the intended answer is false. |
| `Ssl.HasInsecureImagesAgrees` | bu-ssl.php:93-96 | When there is at least one match, the code as written gives the intended answer. |

## Left out

- `search_for_insecure_images` (bu-ssl.php:88-91). PCRE's semantics for the whole pattern are not modelled: the greedy `<img.*src.*` prefix with backtracking, `.` not matching newlines, the trailing `"`, and the `|'.+>` alternative. The match list is an input. Only what it can hold is modelled: group 1, in the language above, or unset. That language is the language of the group's sub-pattern, a superset of what the whole pattern captures: in `http://a/http://b` the greedy prefix moves the capture to `http://b`. Because `.` stops at a newline and the greedy prefix backtracks from the end of the line, a line gives at most one captured URL: the rightmost `http://` URL followed by `"`. Matches of the second alternative `'.+>` capture nothing. A `'` earlier on the line than `<img` starts such a match, which runs to the line's last `>` and hides every image after it, as in `<p class='x'><img src="http://a.com/1.jpg"></p>`. After a captured URL the same line can still give an uncaptured match, as `'y'>` does in `<img src="http://a.com/x" alt='y'>`. In `<img src="http://a.com/1.jpg"><img src="http://b.com/2.jpg">` only `http://b.com/2.jpg` is captured, so the first image is not proxied. In `<img src="a.jpg"><a href="http://x.com/">` group 1 is the link `http://x.com/`, which the rewrite then replaces everywhere by a proxy URL.
- Groups 2 to 4 of each match set are never read by the code, so they are not represented.
- The Camo client's HMAC signing and URL encoding (bu-ssl.php:39, 99-101) are vendor code that is not part of this model. `Proxy` stays an abstract deterministic function.
- `NoOccurrenceRemains` and `ProxyStepRemovesUrl` assume that `proxy(u)` cannot reform `u`, not merely that `proxy(u)` does not contain `u`. The weaker premise alone is false, as `OccurrenceCanReform` shows.
- The rewrite applies no condition on the connection or on whether the proxy is configured. The code rewrites on every `the_content` call, so the model does too.
- Hook wiring in the constructor (bu-ssl.php:52-61), the empty `init`, and `is_debug` (63-69): WordPress glue.
- `add_meta` (bu-ssl.php:71-75) only echoes a fixed meta tag. `do_redirect` (82-86) depends on `is_ssl`, `wp_redirect` and `$_SERVER`. `maybe_editor_warning` (112-120) reads the global `$post` and prints HTML. These are output and request side effects.
- inc/settings.php (settings page registration and form rendering) and inc/wpcli.php (a command-line loop over posts) are glue. inc/wpcli.php calls `has_insecure_images` with a post id and a `do_update_postmeta` that `bu-ssl.php` does not define.
- tests/test-bu-ssl.php calls a `search_for_insecure_content` that `bu-ssl.php` does not define. Only its two image URLs are used here. The skipped `test_headers` expects a `Content-Security-Policy-Report-Only` header, which contradicts `add_headers`, so that expectation is not modelled.

## Findings

| source | as written | input that shows it | evidently intended | confidence | as-written member | corrected member |
|---|---|---|---|---|---|---|
| bu-ssl.php:95 | `count( $urls[0] )` reads offset 0 of the match list even when the list is empty; the undefined offset reads as null and `count(null)` throws a `TypeError` on PHP 8 (a warning and 0 on PHP 7.2 to 7.4) | any content without a match, e.g. the empty string | `has_insecure_images` returns false | medium (depends on the PHP version); not executed | `Ssl.HasInsecureImagesAsWritten` | `Ssl.HasInsecureImages` |
