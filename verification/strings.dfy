/** Small generic helpers over strings, shared by the word and sentence splitters. */
module Strings {

  /** The characters of s that do not satisfy p, in their original order. */
  function Without(s: string, p: char -> bool): (r: string)
    ensures |r| <= |s|
    ensures forall i :: 0 <= i < |r| ==> !p(r[i])
  {
    if s == [] then []
    else (if p(s[0]) then [] else [s[0]]) + Without(s[1..], p)
  }

  /** Filtering distributes over concatenation. */
  lemma {:induction false} WithoutAppend(a: string, b: string, p: char -> bool)
    ensures Without(a + b, p) == Without(a, p) + Without(b, p)
    decreases |a|
  {
    if a == [] {
      assert a + b == b;
    } else {
      assert (a + b)[0] == a[0];
      assert (a + b)[1..] == a[1..] + b;
      WithoutAppend(a[1..], b, p);
    }
  }

  /** A string with no character satisfying p is left as it is. */
  lemma {:induction false} WithoutKeepsAll(s: string, p: char -> bool)
    requires forall i :: 0 <= i < |s| ==> !p(s[i])
    ensures Without(s, p) == s
    decreases |s|
  {
    if s != [] {
      WithoutKeepsAll(s[1..], p);
    }
  }

  /** A string whose every character satisfies p is removed entirely. */
  lemma {:induction false} WithoutDropsAll(s: string, p: char -> bool)
    requires forall i :: 0 <= i < |s| ==> p(s[i])
    ensures Without(s, p) == []
    decreases |s|
  {
    if s != [] {
      WithoutDropsAll(s[1..], p);
    }
  }

  /** The concatenation of a list of strings, Python's "".join(ws). */
  function Concat(ws: seq<string>): (s: string)
  {
    if ws == [] then [] else ws[0] + Concat(ws[1..])
  }
}
