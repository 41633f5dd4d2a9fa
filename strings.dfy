/** The two functions of Go's `strings` package the resolver and the query
    parser rely on, for a one-character separator: `strings.Cut` and
    `strings.Replace(s, old, new, -1)`. */
module Strings {

  /** strings.Cut(s, string(sep)): the text before the first `sep`, the text
      after it, and whether `sep` occurs at all. */
  function Cut(s: string, sep: char): (r: (string, string, bool))
    ensures r.2 <==> sep in s
    ensures r.2 ==> s == r.0 + [sep] + r.1 && sep !in r.0
    ensures !r.2 ==> r.0 == s && r.1 == []
  {
    if s == [] then ([], [], false)
    else if s[0] == sep then ([], s[1..], true)
    else
      var (before, after, found) := Cut(s[1..], sep);
      ([s[0]] + before, after, found)
  }

  /** strings.Replace(s, string(from), string(to), -1): every occurrence of
      `from` becomes `to`; every other character is kept where it was. */
  function Replace(s: string, from: char, to: char): (r: string)
    ensures |r| == |s|
    ensures forall i :: 0 <= i < |s| ==> r[i] == (if s[i] == from then to else s[i])
  {
    if s == [] then []
    else [if s[0] == from then to else s[0]] + Replace(s[1..], from, to)
  }

  /** After the replacement no `from` is left (unless it is its own replacement). */
  lemma ReplaceLeavesNone(s: string, from: char, to: char)
    requires from != to
    ensures from !in Replace(s, from, to)
  {
  }

  /** Replacing twice is replacing once. */
  lemma {:induction false} ReplaceIdempotent(s: string, from: char, to: char)
    ensures Replace(Replace(s, from, to), from, to) == Replace(s, from, to)
  {
    var once := Replace(s, from, to);
    var twice := Replace(once, from, to);
    assert |twice| == |once|;
    forall i | 0 <= i < |once| ensures twice[i] == once[i] { }
  }

  /** A string that has no `from` is left unchanged. */
  lemma ReplaceAbsent(s: string, from: char, to: char)
    requires from !in s
    ensures Replace(s, from, to) == s
  {
  }

  /** Replacing `from` by `to` is undone by replacing `to` by `from`, provided
      `to` did not occur in the original string. */
  lemma {:induction false} ReplaceUndone(s: string, from: char, to: char)
    requires to !in s
    ensures Replace(Replace(s, from, to), to, from) == s
  {
    var there := Replace(s, from, to);
    var back := Replace(there, to, from);
    forall i | 0 <= i < |s| ensures back[i] == s[i] {
      assert s[i] != to;
    }
  }
}
