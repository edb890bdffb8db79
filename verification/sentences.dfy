/**
 * Sentence segmentation of the scorer: re.split(r'[.!?]+', text) followed by
 * the comprehension that strips each fragment and keeps it only when its
 * untrimmed length exceeds one character.
 */
module Sentences {
  import opened Strings
  import opened Tokens

  /** The character class [.!?] of the splitting pattern. */
  predicate IsTerminator(c: char)
  {
    c == '.' || c == '!' || c == '?'
  }

  predicate NoTerminator(s: string)
  {
    forall i :: 0 <= i < |s| ==> !IsTerminator(s[i])
  }

  /** Length of the longest terminator-free prefix of s. */
  function ClauseLength(s: string): (n: nat)
    ensures n <= |s|
    ensures forall i :: 0 <= i < n ==> !IsTerminator(s[i])
    ensures n < |s| ==> IsTerminator(s[n])
  {
    if s == [] || IsTerminator(s[0]) then 0
    else
      var m := ClauseLength(s[1..]);
      assert forall i :: 0 <= i < m ==> s[1..][i] == s[i + 1];
      1 + m
  }

  /** Length of the run of terminators at the start of s; the greedy `+`
      of the pattern consumes all of it. */
  function RunLength(s: string): (n: nat)
    ensures n <= |s|
    ensures forall i :: 0 <= i < n ==> IsTerminator(s[i])
    ensures n < |s| ==> !IsTerminator(s[n])
  {
    if s == [] || !IsTerminator(s[0]) then 0
    else
      var m := RunLength(s[1..]);
      assert forall i :: 0 <= i < m ==> s[1..][i] == s[i + 1];
      1 + m
  }

  /** Python's re.split(r'[.!?]+', s): the pieces between maximal runs of
      terminators, in order. */
  function Fragments(s: string): (fs: seq<string>)
    decreases |s|
  {
    var i := ClauseLength(s);
    if i == |s| then [s]
    else
      var j := i + RunLength(s[i..]);
      [s[..i]] + Fragments(s[j..])
  }

  /** A text without terminators is not split. */
  lemma FragmentsWhole(s: string)
    requires ClauseLength(s) == |s|
    ensures Fragments(s) == [s]
  {
  }

  /** One step of the split: the clause up to the first terminator, then the
      split of what follows that terminator's run. */
  lemma FragmentsStep(s: string, i: nat, j: nat)
    requires i == ClauseLength(s) < |s|
    requires j == i + RunLength(s[i..])
    ensures Fragments(s) == [s[..i]] + Fragments(s[j..])
  {
  }

  predicate AllTerminators(s: string)
  {
    forall i :: 0 <= i < |s| ==> IsTerminator(s[i])
  }

  /** Cutting a string at i and j and joining the parts gives it back. */
  lemma Reassemble(s: string, i: nat, j: nat)
    requires i <= j <= |s|
    ensures s == s[..i] + s[i..j] + s[j..]
  {
  }

  /** The run that ends a clause is non-empty and maximal. */
  lemma RunBounds(s: string, i: nat, j: nat)
    requires i == ClauseLength(s) < |s|
    requires j == i + RunLength(s[i..])
    ensures i < j <= |s|
    ensures NoTerminator(s[..i]) && AllTerminators(s[i..j]) && s[i..j] != []
    ensures s[j..] != [] ==> !IsTerminator(s[j..][0])
  {
    var u := s[i..];
    assert u[0] == s[i];
    assert forall k :: 0 <= k < i ==> s[..i][k] == s[k];
    assert forall k :: 0 <= k < j - i ==> s[i..j][k] == u[k];
    assert j < |s| ==> s[j..][0] == u[j - i];
  }

  /** The clause length is the unique terminator-free prefix that ends at a
      terminator or at the end. */
  lemma ClauseLengthUnique(s: string, n: nat)
    requires n <= |s| && NoTerminator(s[..n])
    requires n < |s| ==> IsTerminator(s[n])
    ensures ClauseLength(s) == n
  {
    assert forall i :: 0 <= i < n ==> s[..n][i] == s[i];
  }

  /** The run length is the unique all-terminator prefix that ends at a
      non-terminator or at the end. */
  lemma RunLengthUnique(s: string, n: nat)
    requires n <= |s| && AllTerminators(s[..n])
    requires n < |s| ==> !IsTerminator(s[n])
    ensures RunLength(s) == n
  {
    assert forall i :: 0 <= i < n ==> s[..n][i] == s[i];
  }

  /** How re.split(r'[.!?]+') cuts: a terminator-free clause c followed by a
      maximal run r of terminators gives the piece c, then the pieces of what
      follows the run. */
  lemma SplitAtRun(c: string, r: string, b: string)
    requires NoTerminator(c) && AllTerminators(r) && r != []
    requires b == [] || !IsTerminator(b[0])
    ensures Fragments(c + r + b) == [c] + Fragments(b)
  {
    var s := c + r + b;
    var i, j := |c|, |c| + |r|;
    assert s[..i] == c;
    ClauseLengthUnique(s, i);
    assert s[i..][..|r|] == r;
    assert s[i..][|r|..] == b;
    RunLengthUnique(s[i..], |r|);
    FragmentsStep(s, i, j);
    assert s[j..] == b;
  }

  /** The shape re.split guarantees: at least one piece, no piece holding a
      terminator, and, because every run is maximal, no empty piece except
      possibly the first (text starting with a terminator) and the last (text
      ending with one). */
  lemma {:induction false} FragmentsShape(s: string)
    ensures |Fragments(s)| >= 1
    ensures forall k :: 0 <= k < |Fragments(s)| ==> NoTerminator(Fragments(s)[k])
    ensures forall k :: 0 < k < |Fragments(s)| - 1 ==> Fragments(s)[k] != []
    ensures s != [] && !IsTerminator(s[0]) ==> Fragments(s)[0] != []
    decreases |s|
  {
    var i := ClauseLength(s);
    if i == |s| {
      FragmentsWhole(s);
      assert s[..i] == s;
    } else {
      var j := i + RunLength(s[i..]);
      var rest := s[j..];
      FragmentsStep(s, i, j);
      RunBounds(s, i, j);
      FragmentsShape(rest);
      var fs := Fragments(s);
      assert forall k :: 0 < k < |fs| ==> fs[k] == Fragments(rest)[k - 1];
      assert forall k :: 0 <= k < i ==> s[..i][k] == s[k];
      assert NoTerminator(fs[0]);
      assert rest != [] ==> rest[0] == s[j];
      assert |Fragments(rest)| > 1 ==> rest != [] by {
        if rest == [] {
          FragmentsWhole(rest);
        }
      }
    }
  }

  /** A text is left in one piece exactly when it has no terminator. */
  lemma SingleFragmentIffNoTerminator(s: string)
    ensures Fragments(s) == [s] <==> NoTerminator(s)
  {
    var i := ClauseLength(s);
    if i == |s| {
      FragmentsWhole(s);
    } else {
      FragmentsShape(s);
    }
  }

  /** Deleting terminators from a clause, a run and whatever follows. */
  lemma WithoutTerminatorsStep(clause: string, run: string, rest: string)
    requires NoTerminator(clause) && AllTerminators(run)
    ensures Without(clause + run + rest, IsTerminator) == clause + Without(rest, IsTerminator)
  {
    var tail := Without(rest, IsTerminator);
    assert Without(run + rest, IsTerminator) == tail by {
      WithoutAppend(run, rest, IsTerminator);
      WithoutDropsAll(run, IsTerminator);
      assert [] + tail == tail;
    }
    assert clause + run + rest == clause + (run + rest);
    WithoutAppend(clause, run + rest, IsTerminator);
    WithoutKeepsAll(clause, IsTerminator);
  }

  /** Splitting drops exactly the terminators: the fragments, joined, are the
      text with every '.', '!' and '?' deleted. */
  lemma {:induction false} FragmentsKeepEveryOtherChar(s: string)
    ensures Concat(Fragments(s)) == Without(s, IsTerminator)
    decreases |s|
  {
    var i := ClauseLength(s);
    if i == |s| {
      FragmentsWhole(s);
      assert Concat([s]) == s + Concat([]);
      WithoutKeepsAll(s, IsTerminator);
    } else {
      var j := i + RunLength(s[i..]);
      RunBounds(s, i, j);
      FragmentsStep(s, i, j);
      var fs := Fragments(s);
      assert fs[1..] == Fragments(s[j..]);
      Reassemble(s, i, j);
      WithoutTerminatorsStep(s[..i], s[i..j], s[j..]);
      FragmentsKeepEveryOtherChar(s[j..]);
    }
  }

  /** The number of maximal terminator runs in s, counted by a left-to-right
      scan that remembers whether the previous character was a terminator. */
  function RunsFrom(s: string, afterTerminator: bool): (n: nat)
  {
    if s == [] then 0
    else
      (if IsTerminator(s[0]) && !afterTerminator then 1 else 0)
      + RunsFrom(s[1..], IsTerminator(s[0]))
  }

  function Runs(s: string): (n: nat)
  {
    RunsFrom(s, false)
  }

  lemma {:induction false} RunsSkipClause(c: string, t: string, after: bool)
    requires c != [] && NoTerminator(c)
    ensures RunsFrom(c + t, after) == RunsFrom(t, false)
    decreases |c|
  {
    assert (c + t)[0] == c[0];
    assert (c + t)[1..] == c[1..] + t;
    if |c| == 1 {
      assert c[1..] + t == t;
    } else {
      RunsSkipClause(c[1..], t, false);
    }
  }

  lemma {:induction false} RunsSkipRun(r: string, t: string, after: bool)
    requires r != [] && AllTerminators(r)
    ensures RunsFrom(r + t, after) == (if after then 0 else 1) + RunsFrom(t, true)
    decreases |r|
  {
    assert (r + t)[0] == r[0];
    assert (r + t)[1..] == r[1..] + t;
    if |r| == 1 {
      assert r[1..] + t == t;
    } else {
      RunsSkipRun(r[1..], t, true);
    }
  }

  /** A clause followed by a maximal run adds one run to the count. */
  lemma RunsStep(clause: string, run: string, rest: string)
    requires NoTerminator(clause) && AllTerminators(run) && run != []
    requires rest != [] ==> !IsTerminator(rest[0])
    ensures Runs(clause + run + rest) == 1 + Runs(rest)
  {
    if clause != [] {
      assert clause + run + rest == clause + (run + rest);
      RunsSkipClause(clause, run + rest, false);
    } else {
      assert clause + run + rest == run + rest;
    }
    RunsSkipRun(run, rest, false);
    assert RunsFrom(rest, true) == RunsFrom(rest, false);
  }

  /** re.split yields one piece more than there are terminator runs. */
  lemma {:induction false} FragmentCount(s: string)
    ensures |Fragments(s)| == Runs(s) + 1
    decreases |s|
  {
    var i := ClauseLength(s);
    if i == |s| {
      FragmentsWhole(s);
      if s != [] {
        assert s + [] == s;
        RunsSkipClause(s, [], false);
      }
    } else {
      var j := i + RunLength(s[i..]);
      RunBounds(s, i, j);
      FragmentsStep(s, i, j);
      Reassemble(s, i, j);
      RunsStep(s[..i], s[i..j], s[j..]);
      FragmentCount(s[j..]);
    }
  }

  /** A fragment with no terminator keeps none after stripping. */
  lemma StripKeepsNoTerminator(f: string)
    ensures NoTerminator(f) ==> NoTerminator(Strip(f))
  {
    var r := Strip(f);
    var lead: nat :| Trims(f, lead, r);
    assert forall i :: 0 <= i < |r| ==> r[i] == f[lead + i];
  }

  /** The comprehension [s.strip() for s in fs if len(s) > 1]: the length
      test is on the fragment before stripping. */
  function KeepSentences(fs: seq<string>): (ss: seq<string>)
    ensures |ss| <= |fs|
    ensures ss == [] <==> forall k :: 0 <= k < |fs| ==> |fs[k]| <= 1
  {
    if fs == [] then []
    else
      var rest := KeepSentences(fs[1..]);
      assert forall k :: 0 < k < |fs| ==> fs[k] == fs[1..][k - 1];
      if |fs[0]| > 1 then [Strip(fs[0])] + rest else rest
  }

  /** A single fragment is kept, stripped, exactly when its untrimmed
      length exceeds one. */
  lemma KeepSingle(f: string)
    ensures KeepSentences([f]) == if |f| > 1 then [Strip(f)] else []
  {
    assert [f][1..] == [];
  }

  /** The filter works fragment by fragment, keeping order and multiplicity:
      the sentences of a + b are those of a followed by those of b. */
  lemma {:induction false} KeepAppend(a: seq<string>, b: seq<string>)
    ensures KeepSentences(a + b) == KeepSentences(a) + KeepSentences(b)
    decreases |a|
  {
    if a == [] {
      assert a + b == b;
    } else {
      assert (a + b)[0] == a[0];
      assert (a + b)[1..] == a[1..] + b;
      KeepAppend(a[1..], b);
    }
  }

  /** A fragment is kept exactly when its untrimmed length exceeds one, and
      what is kept is the fragment stripped of surrounding whitespace. */
  lemma {:induction false} KeptAreLongFragmentsStripped(fs: seq<string>)
    ensures forall k :: 0 <= k < |fs| && |fs[k]| > 1 ==> Strip(fs[k]) in KeepSentences(fs)
    ensures forall x :: x in KeepSentences(fs) ==>
              exists k :: 0 <= k < |fs| && |fs[k]| > 1 && x == Strip(fs[k])
    decreases |fs|
  {
    if fs != [] {
      var ss := KeepSentences(fs);
      var rest := KeepSentences(fs[1..]);
      assert ss == if |fs[0]| > 1 then [Strip(fs[0])] + rest else rest;
      KeptAreLongFragmentsStripped(fs[1..]);
      forall k | 0 < k < |fs| && |fs[k]| > 1
        ensures Strip(fs[k]) in ss
      {
        assert fs[1..][k - 1] == fs[k];
      }
      forall x | x in ss
        ensures exists k :: 0 <= k < |fs| && |fs[k]| > 1 && x == Strip(fs[k])
      {
        if x in rest {
          var k' :| 0 <= k' < |fs[1..]| && |fs[1..][k']| > 1 && x == Strip(fs[1..][k']);
          assert fs[k' + 1] == fs[1..][k'];
        } else {
          assert |fs[0]| > 1 && x == Strip(fs[0]);
        }
      }
    }
  }

  /** Kept sentences carry no terminator and no edge whitespace. */
  lemma {:induction false} KeptAreClean(fs: seq<string>)
    requires forall k :: 0 <= k < |fs| ==> NoTerminator(fs[k])
    ensures forall k :: 0 <= k < |KeepSentences(fs)| ==>
              NoTerminator(KeepSentences(fs)[k]) && Stripped(KeepSentences(fs)[k])
    decreases |fs|
  {
    if fs != [] {
      var ss := KeepSentences(fs);
      var rest := KeepSentences(fs[1..]);
      assert ss == if |fs[0]| > 1 then [Strip(fs[0])] + rest else rest;
      assert forall k :: 0 <= k < |fs[1..]| ==> fs[1..][k] == fs[k + 1];
      KeptAreClean(fs[1..]);
      StripKeepsNoTerminator(fs[0]);
    }
  }

  /** The length test runs before stripping, so a fragment of two or more
      whitespace characters is kept and becomes an empty sentence. */
  lemma BlankFragmentKeptEmpty(f: string)
    requires |f| > 1 && AllSpace(f)
    ensures KeepSentences([f]) == [[]]
  {
    StripUnique(f, |f|, []);
  }

  /** The sentences the scorer measures: lines 105-106 applied to text. */
  function SentencesOf(text: string): (ss: seq<string>)
    ensures forall k :: 0 <= k < |ss| ==> NoTerminator(ss[k]) && Stripped(ss[k])
    ensures ss == [] <==> forall k :: 0 <= k < |Fragments(text)| ==> |Fragments(text)[k]| <= 1
  {
    FragmentsShape(text);
    KeptAreClean(Fragments(text));
    KeepSentences(Fragments(text))
  }
}
