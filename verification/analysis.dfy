/**
 * advanced_analysis: the statistics of a text and the score computed from
 * them. The grade level comes from the textstat library, whose formula is not
 * part of this model; it is a parameter standing for that library's value on
 * the same text.
 */
module Analysis {
  import opened Tokens
  import opened Sentences
  import opened Stats
  import opened Scoring

  datatype Option<T> = None | Some(value: T)

  /** The dictionary advanced_analysis returns, with exact values in place of
      the source's one-decimal rounding; lengthVariance is the square of the
      standard deviation the source reports as "sentence_variance". */
  datatype Report = Report(
    score: int,
    fleschGrade: real,
    lengthVariance: real,
    complexPercent: real,
    wordCount: nat)

  /** Texts with fewer whitespace-separated tokens are rejected. */
  const MinWords := 30
  /** A word is complex when it has more characters than this. */
  const LongWord := 6

  predicate IsComplex(w: string)
  {
    |w| > LongWord
  }

  /** The number of complex words. */
  function ComplexCount(ws: seq<string>): (c: nat)
    ensures c <= |ws|
    ensures c == 0 <==> forall k :: 0 <= k < |ws| ==> !IsComplex(ws[k])
    ensures c == |ws| <==> forall k :: 0 <= k < |ws| ==> IsComplex(ws[k])
  {
    if ws == [] then 0
    else
      var rest := ComplexCount(ws[1..]);
      assert forall k :: 0 < k < |ws| ==> ws[k] == ws[1..][k - 1];
      (if IsComplex(ws[0]) then 1 else 0) + rest
  }

  /** The word count of every sentence, in order. */
  function SentenceLengths(ss: seq<string>): (xs: seq<nat>)
  {
    seq(|ss|, k requires 0 <= k < |ss| => |Words(ss[k])|)
  }

  /** No fragment of the split is longer than one character, so no sentence
      survives the length filter. */
  predicate NoSentence(text: string)
  {
    forall k :: 0 <= k < |Fragments(text)| ==> |Fragments(text)[k]| <= 1
  }

  /** The share of complex words among n words, as a fraction. */
  function ComplexRatio(c: nat, n: nat): (q: real)
    requires c <= n && n > 0
    ensures 0.0 <= q <= 1.0
    ensures q == 0.0 <==> c == 0
    ensures q == 1.0 <==> c == n
  {
    DivBelow(c, n, 1);
    DivAbove(c, n, 0);
    DivAbove(c, n, 1);
    c as real / n as real
  }

  /** The report built from the sentence word counts, the grade and the
      long-word count c among n words. */
  function Measure(xs: seq<nat>, grade: real, c: nat, n: nat): (r: Report)
    requires |xs| > 0 && c <= n && n > 0
    ensures r.wordCount == n && r.fleschGrade == grade
    ensures 0.0 <= r.complexPercent <= 100.0
    ensures r.lengthVariance >= 0.0
    ensures r.score in ReachableScores
  {
    var variance := Variance(xs);
    var ratio := ComplexRatio(c, n);
    Report(Score(variance, grade, ratio), grade, variance, 100.0 * ratio, n)
  }

  /** advanced_analysis(text): None for fewer than 30 tokens or when no
      sentence survives the filter, otherwise the report. */
  function Analyze(text: string, grade: real): (r: Option<Report>)
    ensures r.None? <==> |Words(text)| < MinWords || NoSentence(text)
    ensures r.Some? ==>
              && r.value.wordCount == |Words(text)| >= MinWords
              && 0.0 <= r.value.complexPercent <= 100.0
              && r.value.lengthVariance >= 0.0
              && r.value.score in ReachableScores
              && r.value.fleschGrade == grade
  {
    var words := Words(text);
    if |words| < MinWords then None
    else
      var sentences := SentencesOf(text);
      if sentences == [] then None
      else
        Some(Measure(SentenceLengths(sentences), grade, ComplexCount(words), |words|))
  }

  /** An independent reference for the report, in integer counts only: with
      N sentences whose word counts have sum S and sum of squares Q, and c
      long words among n words, the score is 40, plus 30 or 15 or 0 as
      N Q - S^2 is below 16 N^2, below 49 N^2 or neither, plus 10 for a grade
      in [8, 12], plus 10 when 20 c < 3 n; the variance is (N Q - S^2) / N^2
      and the percentage 100 c / n. */
  function CountsReport(xs: seq<nat>, grade: real, c: nat, n: nat): (r: Report)
    requires |xs| > 0 && n > 0
  {
    var N, S, Q := |xs|, Sum(xs), SumOfSquares(xs);
    Report(
      40 + (if N * Q - S * S < 16 * (N * N) then 30
            else if N * Q - S * S < 49 * (N * N) then 15 else 0)
         + (if 8.0 <= grade <= 12.0 then 10 else 0)
         + (if 20 * c < 3 * n then 10 else 0),
      grade,
      (N * Q - S * S) as real / N as real / N as real,
      100.0 * (c as real / n as real),
      n)
  }

  /** The report of a text that passes both guards is the reference report
      of its sentence word counts, grade and long-word count. */
  lemma AnalyzeReport(text: string, grade: real)
    requires |Words(text)| >= MinWords && !NoSentence(text)
    ensures SentenceLengths(SentencesOf(text)) != []
    ensures Analyze(text, grade)
         == Some(CountsReport(SentenceLengths(SentencesOf(text)), grade,
                              ComplexCount(Words(text)), |Words(text)|))
  {
    var xs := SentenceLengths(SentencesOf(text));
    var ws := Words(text);
    assert SentencesOf(text) != [];
    ReportByCounts(xs, grade, ComplexCount(ws), |ws|);
  }

  /** The model's report agrees with the reference report. */
  lemma ReportByCounts(xs: seq<nat>, grade: real, c: nat, n: nat)
    requires |xs| > 0 && c <= n && n > 0
    ensures Measure(xs, grade, c, n) == CountsReport(xs, grade, c, n)
  {
    VarianceBelow(xs, 16);
    VarianceBelow(xs, 49);
    RatioThreshold(c, n);
    ClampIsInert(Variance(xs), grade, ComplexRatio(c, n));
    VarianceByIntegers(xs);
    var N := |xs|;
    DivideTwice(N * SumOfSquares(xs) - Sum(xs) * Sum(xs), N);
  }

  /** As sets: every sentence the report measures is a fragment of the split
      that was longer than one character, stripped, and every such fragment is
      measured. Order and multiplicity follow from KeepAppend and KeepSingle. */
  lemma MeasuredSentences(text: string)
    ensures forall k :: 0 <= k < |Fragments(text)| && |Fragments(text)[k]| > 1 ==>
              Strip(Fragments(text)[k]) in SentencesOf(text)
    ensures forall x :: x in SentencesOf(text) ==>
              exists k :: 0 <= k < |Fragments(text)| && |Fragments(text)[k]| > 1
                           && x == Strip(Fragments(text)[k])
  {
    var fs := Fragments(text);
    assert SentencesOf(text) == KeepSentences(fs);
    KeptAreLongFragmentsStripped(fs);
  }

  /** The vocabulary bonus is decided by the integer test 20 c < 3 n on the
      complex count c and the word count n. */
  lemma VocabularyByCounts(ws: seq<string>)
    requires |ws| > 0
    ensures VocabularyBonus(ComplexRatio(ComplexCount(ws), |ws|)) == PlainBonus
        <==> 20 * ComplexCount(ws) < 3 * |ws|
  {
    RatioThreshold(ComplexCount(ws), |ws|);
  }

  /** " ." repeated n times: n one-character tokens, and no sentence. */
  function Dots(n: nat): string
  {
    if n == 0 then [] else " ." + Dots(n - 1)
  }

  /** One step of Dots for the tokeniser: " ." contributes the token ".". */
  lemma DotsWordsStep(rest: string)
    requires rest == [] || rest[0] == ' '
    ensures Words(" ." + rest) == ["."] + Words(rest)
  {
    var s := " ." + rest;
    assert s[1..] == "." + rest;
    TokenLengthUnique("." + rest, 1);
    assert ("." + rest)[..1] == ".";
    assert ("." + rest)[1..] == rest;
  }

  /** One step of Dots for the sentence splitter: " ." contributes the
      fragment " ". */
  lemma DotsFragmentsStep(rest: string)
    requires rest == [] || rest[0] == ' '
    ensures Fragments(" ." + rest) == [" "] + Fragments(rest)
  {
    assert " ." + rest == " " + "." + rest;
    SplitAtRun(" ", ".", rest);
  }

  lemma {:induction false} DotsWords(n: nat)
    ensures |Words(Dots(n))| == n
  {
    if n > 0 {
      DotsWordsStep(Dots(n - 1));
      DotsWords(n - 1);
    }
  }

  lemma {:induction false} DotsFragments(n: nat)
    ensures NoSentence(Dots(n))
  {
    if n == 0 {
      FragmentsWhole(Dots(n));
    } else {
      var rest := Dots(n - 1);
      assert Dots(n) == " ." + rest;
      if rest != [] {
        assert rest == " ." + Dots(n - 2);
      }
      DotsFragments(n - 1);
      NoSentenceStep(rest);
    }
  }

  /** Prefixing " ." to a text that has no sentence adds none. */
  lemma NoSentenceStep(rest: string)
    requires rest == [] || rest[0] == ' '
    requires NoSentence(rest)
    ensures NoSentence(" ." + rest)
  {
    DotsFragmentsStep(rest);
    var fs, tail := Fragments(" ." + rest), Fragments(rest);
    forall k | 0 <= k < |fs|
      ensures |fs[k]| <= 1
    {
      if k > 0 {
        assert fs[k] == tail[k - 1];
      }
    }
  }

  /** A text of exactly 30 words can still be rejected: " ." repeated 30
      times has 30 tokens but every fragment of the split has at most one
      character, so advanced_analysis returns None and the page says the
      text is too short. */
  lemma ThirtyWordsWithoutSentences(grade: real)
    ensures |Words(Dots(MinWords))| == MinWords
    ensures Analyze(Dots(MinWords), grade) == None
  {
    DotsWords(MinWords);
    DotsFragments(MinWords);
  }

  /** A long enough text without any of . ! ? is one sentence: its stripped
      self. Its lengths are uniform, so the variance is 0 and the burstiness
      bonus of 30 applies. */
  lemma RunOnText(text: string, grade: real)
    requires |Words(text)| >= MinWords && NoTerminator(text)
    ensures SentencesOf(text) == [Strip(text)]
    ensures Analyze(text, grade).Some?
    ensures Analyze(text, grade).value.lengthVariance == 0.0
    ensures Analyze(text, grade).value.score >= Base + SteadyBonus
  {
    SingleFragmentIffNoTerminator(text);
    WordsAtMostLength(text);
    assert Fragments(text) == [text];
    assert KeepSentences([text]) == [Strip(text)];
    var lengths := SentenceLengths([Strip(text)]);
    VarianceZeroIffUniform(lengths);
  }

  /** When every sentence has the same number of words the score is at
      least 70. */
  lemma UniformSentencesScoreHigh(text: string, grade: real)
    requires |Words(text)| >= MinWords && !NoSentence(text)
    requires Uniform(SentenceLengths(SentencesOf(text)))
    ensures Analyze(text, grade).Some?
    ensures Analyze(text, grade).value.lengthVariance == 0.0
    ensures Analyze(text, grade).value.score >= Base + SteadyBonus
  {
    VarianceZeroIffUniform(SentenceLengths(SentencesOf(text)));
  }

  /** The burstiness tests are integer comparisons on the sentence word
      counts: with N sentences, S words in them and Q the sum of the squared
      counts, the standard deviation is below 4 exactly when N Q - S^2 < 16 N^2
      and below 7 exactly when N Q - S^2 < 49 N^2. */
  lemma BurstinessByCounts(xs: seq<nat>)
    requires |xs| > 0
    ensures BurstinessBonus(Variance(xs)) == SteadyBonus
        <==> |xs| * SumOfSquares(xs) - Sum(xs) * Sum(xs) < 16 * (|xs| * |xs|)
    ensures BurstinessBonus(Variance(xs)) == 0
        <==> |xs| * SumOfSquares(xs) - Sum(xs) * Sum(xs) >= 49 * (|xs| * |xs|)
  {
    VarianceBelow(xs, 16);
    VarianceBelow(xs, 49);
  }
}
