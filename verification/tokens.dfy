/**
 * Whitespace handling as Python's argument-less str.split() and str.strip()
 * perform it: the scorer counts words with text.split() and trims sentence
 * fragments with s.strip().
 */
module Tokens {
  import opened Strings

  /** The characters for which Python's str.isspace() holds; both
      str.split() and str.strip() without arguments separate on exactly these. */
  predicate IsSpace(c: char)
  {
    var k := c as int;
    || k == 0x20
    || 0x09 <= k <= 0x0D
    || 0x1C <= k <= 0x1F
    || k == 0x85
    || k == 0xA0
    || k == 0x1680
    || 0x2000 <= k <= 0x200A
    || k == 0x2028
    || k == 0x2029
    || k == 0x202F
    || k == 0x205F
    || k == 0x3000
  }

  predicate AllSpace(s: string)
  {
    forall i :: 0 <= i < |s| ==> IsSpace(s[i])
  }

  predicate NoSpace(s: string)
  {
    forall i :: 0 <= i < |s| ==> !IsSpace(s[i])
  }

  /** Length of the longest prefix of s that holds no whitespace. */
  function TokenLength(s: string): (n: nat)
    ensures n <= |s|
    ensures forall i :: 0 <= i < n ==> !IsSpace(s[i])
    ensures n < |s| ==> IsSpace(s[n])
  {
    if s == [] || IsSpace(s[0]) then 0
    else
      var m := TokenLength(s[1..]);
      assert forall i :: 0 <= i < m ==> s[1..][i] == s[i + 1];
      1 + m
  }

  /** The space-free prefix that ends at whitespace or at the end is unique. */
  lemma TokenLengthUnique(s: string, n: nat)
    requires n <= |s|
    requires forall i :: 0 <= i < n ==> !IsSpace(s[i])
    requires n < |s| ==> IsSpace(s[n])
    ensures TokenLength(s) == n
  {
  }

  /** Python's s.split() with no argument: the maximal runs of non-whitespace
      characters, in order; leading, trailing and repeated whitespace yields
      no empty token. */
  function Words(s: string): (ws: seq<string>)
    ensures forall k :: 0 <= k < |ws| ==> ws[k] != [] && NoSpace(ws[k])
    decreases |s|
  {
    if s == [] then []
    else if IsSpace(s[0]) then Words(s[1..])
    else
      var n := TokenLength(s);
      [s[..n]] + Words(s[n..])
  }

  /** There are never more tokens than characters. */
  lemma {:induction false} WordsAtMostLength(s: string)
    ensures |Words(s)| <= |s|
    decreases |s|
  {
    if s != [] {
      if IsSpace(s[0]) {
        WordsAtMostLength(s[1..]);
      } else {
        WordsAtMostLength(s[TokenLength(s)..]);
      }
    }
  }

  /** Splitting loses no non-whitespace character and adds none: joining the
      tokens gives back the text with its whitespace deleted. */
  lemma {:induction false} WordsKeepEveryNonSpace(s: string)
    ensures Concat(Words(s)) == Without(s, IsSpace)
    decreases |s|
  {
    if s == [] {
    } else if IsSpace(s[0]) {
      WordsKeepEveryNonSpace(s[1..]);
    } else {
      var n := TokenLength(s);
      var ws := Words(s);
      assert ws == [s[..n]] + Words(s[n..]);
      assert ws[1..] == Words(s[n..]);
      WordsKeepEveryNonSpace(s[n..]);
      assert s == s[..n] + s[n..];
      WithoutAppend(s[..n], s[n..], IsSpace);
      WithoutKeepsAll(s[..n], IsSpace);
    }
  }

  /** A single whitespace character is a hard token boundary: the tokens of
      a + [c] + b are the tokens of a followed by those of b. */
  lemma {:induction false} WordsSplitAtSpace(a: string, c: char, b: string)
    requires IsSpace(c)
    ensures Words(a + [c] + b) == Words(a) + Words(b)
    decreases |a|
  {
    var s := a + [c] + b;
    if a == [] {
      assert s[1..] == b;
    } else if IsSpace(a[0]) {
      assert s[0] == a[0];
      assert s[1..] == a[1..] + [c] + b;
      WordsSplitAtSpace(a[1..], c, b);
    } else {
      var n := TokenLength(a);
      assert TokenLength(s) == n by {
        assert forall i :: 0 <= i < n ==> s[i] == a[i];
        assert s[n] == if n < |a| then a[n] else c;
        TokenLengthUnique(s, n);
      }
      assert s[0] == a[0];
      assert s[..n] == a[..n];
      assert s[n..] == a[n..] + [c] + b;
      WordsSplitAtSpace(a[n..], c, b);
    }
  }

  /** A non-empty string without whitespace is a single token. */
  lemma WordsOfToken(s: string)
    requires s != [] && NoSpace(s)
    ensures Words(s) == [s]
  {
    assert s[..|s|] == s;
    TokenLengthUnique(s, |s|);
    assert s[|s|..] == [];
  }

  /** Leading whitespace contributes no token. */
  lemma {:induction false} WordsSkipLeadingSpace(sp: string, s: string)
    requires AllSpace(sp)
    ensures Words(sp + s) == Words(s)
    decreases |sp|
  {
    if sp != [] {
      assert sp + s == [] + [sp[0]] + (sp[1..] + s);
      WordsSplitAtSpace([], sp[0], sp[1..] + s);
      WordsSkipLeadingSpace(sp[1..], s);
    } else {
      assert sp + s == s;
    }
  }

  /** Trailing whitespace contributes no token. */
  lemma WordsSkipTrailingSpace(s: string, sp: string)
    requires AllSpace(sp)
    ensures Words(s + sp) == Words(s)
  {
    if sp != [] {
      assert s + sp == s + [sp[0]] + sp[1..];
      WordsSplitAtSpace(s, sp[0], sp[1..]);
      WordsSkipLeadingSpace(sp[1..], []);
      assert sp[1..] + [] == sp[1..];
    } else {
      assert s + sp == s;
    }
  }

  /** Length of the longest whitespace-only prefix of s. */
  function LeadingSpace(s: string): (n: nat)
    ensures n <= |s|
    ensures forall i :: 0 <= i < n ==> IsSpace(s[i])
    ensures n < |s| ==> !IsSpace(s[n])
  {
    if s != [] && IsSpace(s[0]) then
      var m := LeadingSpace(s[1..]);
      assert forall i :: 0 <= i < m ==> s[1..][i] == s[i + 1];
      1 + m
    else 0
  }

  /** The end of the content of s[lo..e]: the smallest c >= lo such that
      s[c..e] is all whitespace. */
  function ContentEnd(s: string, lo: nat, e: nat): (c: nat)
    requires lo <= e <= |s|
    ensures lo <= c <= e
    ensures forall k :: c <= k < e ==> IsSpace(s[k])
    ensures c > lo ==> !IsSpace(s[c - 1])
    decreases e
  {
    if e > lo && IsSpace(s[e - 1]) then ContentEnd(s, lo, e - 1) else e
  }

  /** r is s with a whitespace-only prefix of length lead and a
      whitespace-only suffix removed. */
  ghost predicate Trims(s: string, lead: nat, r: string)
  {
    && lead + |r| <= |s|
    && s[lead..lead + |r|] == r
    && (forall i :: 0 <= i < lead ==> IsSpace(s[i]))
    && (forall i :: lead + |r| <= i < |s| ==> IsSpace(s[i]))
  }

  /** r neither starts nor ends with whitespace. */
  predicate Stripped(r: string)
  {
    r == [] || (!IsSpace(r[0]) && !IsSpace(r[|r| - 1]))
  }

  /** Python's s.strip() with no argument. */
  function Strip(s: string): (r: string)
    ensures Stripped(r)
    ensures exists lead: nat :: Trims(s, lead, r)
  {
    var i := LeadingSpace(s);
    var e := ContentEnd(s, i, |s|);
    var r := s[i..e];
    assert Trims(s, i, r);
    r
  }

  /** Strip is the only way to cut whitespace off both ends so that none is
      left at either end. */
  lemma StripUnique(s: string, lead: nat, r: string)
    requires Trims(s, lead, r) && Stripped(r)
    ensures r == Strip(s)
  {
    if r != [] {
      var e := lead + |r|;
      assert s[lead] == r[0];
      assert s[e - 1] == r[|r| - 1];
      assert LeadingSpace(s) == lead;
      assert ContentEnd(s, lead, |s|) == e;
    }
  }

  /** Stripping never changes the tokens: s.strip().split() == s.split(). */
  lemma WordsIgnoreEdgeSpace(s: string)
    ensures Words(Strip(s)) == Words(s)
  {
    var r := Strip(s);
    var lead: nat :| Trims(s, lead, r);
    var e := lead + |r|;
    var front, back := s[..lead], s[e..];
    assert AllSpace(front);
    assert AllSpace(back);
    assert s == front + (r + back);
    WordsSkipLeadingSpace(front, r + back);
    WordsSkipTrailingSpace(r, back);
  }
}
