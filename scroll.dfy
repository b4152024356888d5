/** The hash-to-id step of `scrollToHash` (site/script.js:51-55). */
module Scroll {
  import opened Wrappers
  import opened Text

  /** `s.replace(c, "")` with a one-character string pattern: only the
      first occurrence of `c` is removed. */
  function RemoveFirst(s: string, c: char): (r: string)
    ensures c !in s ==> r == s
    ensures c in s ==> exists k | 0 <= k < |s| :: s[k] == c && c !in s[..k] && r == s[..k] + s[k + 1..]
  {
    var k := IndexOf(s, c);
    assert k == |s| ==> s[..k] == s;
    if k == |s| then s else s[..k] + s[k + 1..]
  }

  /** The element id a link's hash names: none for an empty hash or a bare
      `#`, otherwise the hash with its first `#` removed. */
  function HashToId(hash: string): (r: Option<string>)
    ensures r.None? <==> hash == "" || hash == "#"
    ensures r.Some? ==> r.value == RemoveFirst(hash, '#')
    ensures r.Some? && hash[0] == '#' ==> r.value == hash[1..]
    ensures r.Some? && '#' !in hash ==> r.value == hash
  {
    if hash == "" || hash == "#" then None
    else Some(RemoveFirst(hash, '#'))
  }
}
