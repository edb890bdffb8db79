/**
 * What the results panel makes of a score: the verdict tier shown under the
 * gauge and the recommendation card below the metrics.
 */
module Display {
  import opened Tokens
  import opened Scoring
  import opened Analysis

  /** The verdict label; the colour and emoji that go with it are cosmetic. */
  datatype Tier = LikelyAiGenerated | SuspiciousMixed | LikelyHuman

  /** The recommendation card: the "humanize" offer or the "verify" offer. */
  datatype Advice = Humanize | Verify

  /** The verdict for a score: the first of score > 70, score > 40 that holds. */
  function TierOf(score: int): (t: Tier)
    ensures t == LikelyAiGenerated <==> score > 70
    ensures t == SuspiciousMixed <==> 40 < score <= 70
    ensures t == LikelyHuman <==> score <= 40
  {
    if score > 70 then LikelyAiGenerated
    else if score > 40 then SuspiciousMixed
    else LikelyHuman
  }

  /** How strongly a tier points at machine authorship. */
  function Rank(t: Tier): nat
  {
    match t
    case LikelyHuman => 0
    case SuspiciousMixed => 1
    case LikelyAiGenerated => 2
  }

  /** A higher score never yields a less suspicious verdict. */
  lemma TierMonotone(s1: int, s2: int)
    requires s1 <= s2
    ensures Rank(TierOf(s1)) <= Rank(TierOf(s2))
  {
  }

  /** The card: humanize above 50, verify otherwise. */
  function AdviceOf(score: int): (a: Advice)
    ensures a == Humanize <==> score > 50
  {
    if score > 50 then Humanize else Verify
  }

  /** The card agrees with the verdict at both ends; only the middle tier is
      split between the two cards, at 50. */
  lemma AdviceAgreesWithTier(score: int)
    ensures TierOf(score) == LikelyAiGenerated ==> AdviceOf(score) == Humanize
    ensures TierOf(score) == LikelyHuman ==> AdviceOf(score) == Verify
    ensures TierOf(score) == SuspiciousMixed ==>
              (AdviceOf(score) == Verify <==> score <= 50)
  {
  }

  /** Among the scores the heuristic produces, the middle tier gets the verify
      card only at 50. */
  lemma MiddleTierVerifiesOnlyAt50(variance: real, grade: real, ratio: real)
    ensures var s := Score(variance, grade, ratio);
            TierOf(s) == SuspiciousMixed && AdviceOf(s) == Verify <==> s == 50
  {
  }

  /** The human verdict needs a score of exactly 40: no signal fired. */
  lemma HumanTierIffNoSignal(variance: real, grade: real, ratio: real)
    ensures TierOf(Score(variance, grade, ratio)) == LikelyHuman
        <==> variance >= FairlySteadyVariance && !MidGrade(grade) && ratio >= ComplexLimit
  {
    ScoreBaseIffNoSignal(variance, grade, ratio);
  }

  /** The AI verdict, in terms of the signals: steady lengths with one more
      signal, or fairly steady lengths with both other signals. Steady lengths
      alone score 70, which is only "suspicious". */
  lemma AiTierIffSignals(variance: real, grade: real, ratio: real)
    ensures TierOf(Score(variance, grade, ratio)) == LikelyAiGenerated
        <==> || (variance < SteadyVariance && (MidGrade(grade) || ratio < ComplexLimit))
             || (SteadyVariance <= variance < FairlySteadyVariance
                 && MidGrade(grade) && ratio < ComplexLimit)
  {
  }

  /** What the results area shows after a run. */
  datatype Screen =
    | Idle
    | TooShort
    | Results(report: Report, tier: Tier, advice: Advice)

  /** The results section: nothing unless the button was pressed with a
      non-empty text; the "too short" error when the analysis returns None;
      otherwise the report with its verdict and card. */
  function Present(clicked: bool, text: string, grade: real): (sc: Screen)
    ensures sc.Idle? <==> !clicked || text == []
    ensures sc.TooShort? <==> clicked && text != [] && Analyze(text, grade).None?
    ensures sc.Results? ==>
              && Analyze(text, grade) == Some(sc.report)
              && sc.tier == TierOf(sc.report.score)
              && sc.advice == AdviceOf(sc.report.score)
  {
    if !clicked || text == [] then Idle
    else
      match Analyze(text, grade)
      case None => TooShort
      case Some(report) => Results(report, TierOf(report.score), AdviceOf(report.score))
  }

  /** The verdict shown is never "likely human" unless the score is exactly
      the base 40. */
  lemma ShownHumanOnlyAtBase(report: Report)
    requires report.score in ReachableScores
    ensures TierOf(report.score) == LikelyHuman <==> report.score == Base
  {
  }

  /** A non-empty text of 30 words can draw the "at least 30 words" error. */
  lemma TooShortDespiteThirtyWords(grade: real)
    ensures |Words(Dots(MinWords))| == MinWords
    ensures Present(true, Dots(MinWords), grade) == TooShort
  {
    ThirtyWordsWithoutSentences(grade);
    assert Dots(MinWords) != [];
  }
}
