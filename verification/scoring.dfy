/**
 * The additive heuristic that turns three text statistics into an
 * "AI probability" score: a base of 40, a burstiness bonus for steady
 * sentence lengths, a readability bonus for a mid-range grade level and a
 * vocabulary bonus for few long words, clamped to [5, 98].
 *
 * The source tests the standard deviation of the sentence lengths against 4
 * and 7. The standard deviation is the non-negative square root of the
 * variance, so those tests are the tests "variance < 16" and
 * "variance < 49", which is how they are stated here.
 */
module Scoring {
  import opened Stats

  const Base := 40
  /** Added when the standard deviation is below 4 (the variance below 16). */
  const SteadyBonus := 30
  /** Added when the standard deviation is in [4, 7) (the variance in [16, 49)). */
  const FairlySteadyBonus := 15
  /** Added when the grade level lies in [8, 12]. */
  const GradeBonus := 10
  /** Added when fewer than 15% of the words are long. */
  const PlainBonus := 10
  const Floor := 5
  const Ceiling := 98

  const SteadyVariance: real := 16.0
  const FairlySteadyVariance: real := 49.0
  const GradeLow: real := 8.0
  const GradeHigh: real := 12.0
  const ComplexLimit: real := 0.15

  /** Every score the heuristic can produce. */
  const ReachableScores: set<int> := {40, 50, 55, 60, 65, 70, 75, 80, 90}

  function BurstinessBonus(variance: real): (b: int)
  {
    if variance < SteadyVariance then SteadyBonus
    else if variance < FairlySteadyVariance then FairlySteadyBonus
    else 0
  }

  predicate MidGrade(grade: real)
  {
    GradeLow <= grade <= GradeHigh
  }

  function ReadabilityBonus(grade: real): (b: int)
  {
    if MidGrade(grade) then GradeBonus else 0
  }

  function VocabularyBonus(ratio: real): (b: int)
  {
    if ratio < ComplexLimit then PlainBonus else 0
  }

  /** The score before clamping. */
  function RawScore(variance: real, grade: real, ratio: real): (s: int)
  {
    Base + BurstinessBonus(variance) + ReadabilityBonus(grade) + VocabularyBonus(ratio)
  }

  /** min(max(x, lo), hi). */
  function Clamp(x: int, lo: int, hi: int): (c: int)
    requires lo <= hi
    ensures lo <= c <= hi
    ensures lo <= x <= hi ==> c == x
    ensures x < lo ==> c == lo
    ensures hi < x ==> c == hi
  {
    var atLeast := if x < lo then lo else x;
    if atLeast > hi then hi else atLeast
  }

  /** The score advanced_analysis reports. */
  function Score(variance: real, grade: real, ratio: real): (s: int)
    ensures s in ReachableScores
    ensures s % 5 == 0 && Base <= s <= Base + SteadyBonus + GradeBonus + PlainBonus
  {
    Clamp(RawScore(variance, grade, ratio), Floor, Ceiling)
  }

  /** The clamp to [5, 98] never changes the sum: it is at least 40 and at most 90. */
  lemma ClampIsInert(variance: real, grade: real, ratio: real)
    ensures Floor < RawScore(variance, grade, ratio) < Ceiling
    ensures Score(variance, grade, ratio) == RawScore(variance, grade, ratio)
  {
  }

  /** A smaller spread of sentence lengths never lowers the score. */
  lemma SteadierNeverScoresLower(v1: real, v2: real, grade: real, ratio: real)
    requires v1 <= v2
    ensures Score(v1, grade, ratio) >= Score(v2, grade, ratio)
  {
  }

  /** A smaller share of long words never lowers the score. */
  lemma PlainerNeverScoresLower(variance: real, grade: real, r1: real, r2: real)
    requires r1 <= r2
    ensures Score(variance, grade, r1) >= Score(variance, grade, r2)
  {
  }

  /** The score is the top value 90 exactly when all three signals fire. */
  lemma ScoreTopIffAllSignals(variance: real, grade: real, ratio: real)
    ensures Score(variance, grade, ratio) == 90
        <==> variance < SteadyVariance && MidGrade(grade) && ratio < ComplexLimit
  {
  }

  /** The score is the base value 40 exactly when no signal fires. */
  lemma ScoreBaseIffNoSignal(variance: real, grade: real, ratio: real)
    ensures Score(variance, grade, ratio) == Base
        <==> variance >= FairlySteadyVariance && !MidGrade(grade) && ratio >= ComplexLimit
  {
  }

  /** Perfectly steady sentence lengths alone lift the score to at least 70. */
  lemma SteadyScoresAtLeast70(variance: real, grade: real, ratio: real)
    requires variance < SteadyVariance
    ensures Score(variance, grade, ratio) >= Base + SteadyBonus
  {
  }

  /** The ratio test "c / n < 0.15" is the integer test 20 c < 3 n. */
  lemma RatioThreshold(c: nat, n: nat)
    requires n > 0
    ensures c as real / n as real < ComplexLimit <==> 20 * c < 3 * n
  {
    ScaleNumerator(20, c, n);
    DivBelow(20 * c, n, 3);
  }
}
