/** The JavaScript string operations the reader relies on, over `seq<char>`. */
module JsString {

  /** The carriage-return/line-feed pair appended after every delivered line. */
  const CRLF: string := "\r\n"

  /** `i` is the position of the first occurrence of `c` in `s`. */
  ghost predicate FirstAt(s: string, c: char, i: int) {
    && 0 <= i < |s|
    && s[i] == c
    && c !in s[..i]
  }

  /** `String.prototype.indexOf` for a one-character needle: the first
      position of `c` in `s`, or -1 when `c` does not occur. */
  function IndexOf(s: string, c: char): (i: int)
    ensures -1 <= i < |s|
    ensures i >= 0 <==> c in s
    ensures i >= 0 ==> FirstAt(s, c, i)
    decreases |s|
  {
    if |s| == 0 then -1
    else if s[0] == c then 0
    else
      var j := IndexOf(s[1..], c);
      assert c in s <==> c in s[1..] by { assert s == [s[0]] + s[1..]; }
      if j < 0 then -1
      else
        assert s[..j + 1] == [s[0]] + s[1..][..j];
        j + 1
  }

  /** Two first positions of the same character coincide. */
  lemma FirstAtUnique(s: string, c: char, i: int, j: int)
    requires FirstAt(s, c, i) && FirstAt(s, c, j)
    ensures i == j
  {
  }

  /** `t` is what remains of `s` after dropping a prefix. */
  predicate IsSuffix(t: string, s: string) {
    |t| <= |s| && t == s[|s| - |t|..]
  }

  /** Dropping two prefixes in turn drops a prefix. */
  lemma SuffixTransitive(u: string, t: string, s: string)
    requires IsSuffix(u, t) && IsSuffix(t, s)
    ensures IsSuffix(u, s)
  {
    assert s[|s| - |t|..][|t| - |u|..] == s[|s| - |u|..];
  }

  /** Appending the same text to both sides keeps the suffix relation. */
  lemma SuffixAppend(t: string, s: string, x: string)
    requires IsSuffix(t, s)
    ensures IsSuffix(t + x, s + x)
  {
    assert (s + x)[|s + x| - |t + x|..] == s[|s| - |t|..] + x;
  }
}
