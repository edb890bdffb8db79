/**
 * Exact statistics over the per-sentence word counts: the population variance
 * that numpy's np.std takes the square root of (it divides by N, not N - 1).
 * The counts are natural numbers, so the variance is a rational number; it is
 * computed here over the common denominator N^3, which keeps every step of
 * the arithmetic in the integers until the one final division.
 */
module Stats {

  function Sum(xs: seq<nat>): (s: nat)
  {
    if xs == [] then 0 else xs[0] + Sum(xs[1..])
  }

  function SumOfSquares(xs: seq<nat>): (q: nat)
  {
    if xs == [] then 0 else xs[0] * xs[0] + SumOfSquares(xs[1..])
  }

  /** The sum over xs of (n * x - s)^2. With n = |xs| and s = Sum(xs) this is
      the sum of the squared deviations from the mean s / n, each scaled by n^2. */
  function ScaledDeviations(xs: seq<nat>, n: nat, s: nat): (r: nat)
  {
    if xs == [] then 0
    else
      var d := n * xs[0] - s;
      d * d + ScaledDeviations(xs[1..], n, s)
  }

  /** The population variance: (1 / N) * sum (x - S / N)^2, which is
      sum (N x - S)^2 / N^3. */
  function Variance(xs: seq<nat>): (v: real)
    requires |xs| > 0
    ensures v >= 0.0
  {
    var n := |xs|;
    ScaledDeviations(xs, n, Sum(xs)) as real / (n * n * n) as real
  }

  /** All counts are equal. */
  predicate Uniform(xs: seq<nat>)
  {
    forall i, j :: 0 <= i < |xs| && 0 <= j < |xs| ==> xs[i] == xs[j]
  }

  lemma {:induction false} SumOfConstant(xs: seq<nat>, c: nat)
    requires forall i :: 0 <= i < |xs| ==> xs[i] == c
    ensures Sum(xs) == |xs| * c
    decreases |xs|
  {
    if xs != [] {
      SumOfConstant(xs[1..], c);
    }
  }

  /** Every scaled deviation vanishes exactly when every n * x equals s. */
  lemma {:induction false} NoDeviationIffCentred(xs: seq<nat>, n: nat, s: nat)
    ensures ScaledDeviations(xs, n, s) == 0 <==> forall i :: 0 <= i < |xs| ==> n * xs[i] == s
    decreases |xs|
  {
    if xs != [] {
      NoDeviationIffCentred(xs[1..], n, s);
      assert forall i :: 0 <= i < |xs[1..]| ==> xs[1..][i] == xs[i + 1];
      var d := n * xs[0] - s;
      assert d * d == 0 <==> d == 0;
    }
  }

  /** n * a == n * b with n > 0 forces a == b. */
  lemma CancelFactor(n: nat, a: nat, b: nat)
    requires n > 0 && n * a == n * b
    ensures a == b
  {
  }

  /** For b > 0 the quotient a / b is below k exactly when a < k * b. */
  lemma DivBelow(a: int, b: int, k: int)
    requires b > 0
    ensures a as real / b as real < k as real <==> a < k * b
  {
    var q := a as real / b as real;
    assert q * b as real == a as real;
    assert (k * b) as real == k as real * b as real;
  }

  /** For b > 0 the quotient a / b is above k exactly when a > k * b. */
  lemma DivAbove(a: int, b: int, k: int)
    requires b > 0
    ensures a as real / b as real > k as real <==> a > k * b
  {
    var q := a as real / b as real;
    assert q * b as real == a as real;
    assert (k * b) as real == k as real * b as real;
  }

  /** A whole factor moves into the numerator of a quotient. */
  lemma ScaleNumerator(k: int, a: int, b: int)
    requires b > 0
    ensures k as real * (a as real / b as real) == (k * a) as real / b as real
  {
    var q := a as real / b as real;
    assert q * b as real == a as real;
    assert (k * a) as real == k as real * a as real;
  }

  /** The variance is zero exactly when every sentence has the same number of
      words; np.std is then 0. */
  lemma VarianceZeroIffUniform(xs: seq<nat>)
    requires |xs| > 0
    ensures Variance(xs) == 0.0 <==> Uniform(xs)
  {
    var n := |xs|;
    var s := Sum(xs);
    NoDeviationIffCentred(xs, n, s);
    DivBelow(ScaledDeviations(xs, n, s), n * n * n, 1);
    if Uniform(xs) {
      SumOfConstant(xs, xs[0]);
    }
    if ScaledDeviations(xs, n, s) == 0 {
      forall i, j | 0 <= i < |xs| && 0 <= j < |xs|
        ensures xs[i] == xs[j]
      {
        CancelFactor(n, xs[i], xs[j]);
      }
    }
  }

  /** Expanding the square: sum (n x - s)^2 == n^2 sum x^2 - 2 n s sum x + |xs| s^2. */
  lemma {:induction false} DeviationsExpand(xs: seq<nat>, n: nat, s: nat)
    ensures ScaledDeviations(xs, n, s)
         == n * n * SumOfSquares(xs) - 2 * n * s * Sum(xs) + |xs| * s * s
    decreases |xs|
  {
    if xs != [] {
      var x, rest := xs[0], xs[1..];
      assert ScaledDeviations(xs, n, s) == (n * x - s) * (n * x - s) + ScaledDeviations(rest, n, s);
      assert SumOfSquares(xs) == x * x + SumOfSquares(rest);
      assert Sum(xs) == x + Sum(rest);
      DeviationsExpand(rest, n, s);
      ExpandStep(n, s, x, SumOfSquares(rest), Sum(rest), |rest|);
    }
  }

  /** The algebra of one step of DeviationsExpand. */
  lemma ExpandStep(n: int, s: int, x: int, q: int, t: int, m: int)
    ensures (n * x - s) * (n * x - s) + (n * n * q - 2 * n * s * t + m * s * s)
         == n * n * (x * x + q) - 2 * n * s * (x + t) + (m + 1) * s * s
  {
  }

  /** The computational formula for the variance: N^2 * Var == N * sum x^2 - (sum x)^2.
      Every threshold on the variance is therefore a comparison of integers
      computed from the word counts. */
  lemma VarianceByIntegers(xs: seq<nat>)
    requires |xs| > 0
    ensures Variance(xs)
         == (|xs| * SumOfSquares(xs) - Sum(xs) * Sum(xs)) as real / (|xs| * |xs|) as real
  {
    var n := |xs|;
    var s := Sum(xs);
    var q := SumOfSquares(xs);
    var e := n * q - s * s;
    assert ScaledDeviations(xs, n, s) == n * e by {
      DeviationsExpand(xs, n, s);
      CollectTerms(n, q, s);
    }
    assert n * n * n == n * (n * n);
    ScaleFraction(n, e, n * n);
  }

  lemma CollectTerms(n: int, q: int, s: int)
    ensures n * n * q - 2 * n * s * s + n * s * s == n * (n * q - s * s)
  {
  }

  /** Dividing by n * n is dividing by n twice. */
  lemma DivideTwice(a: int, n: nat)
    requires n > 0
    ensures a as real / (n * n) as real == a as real / n as real / n as real
  {
    var m := n as real;
    assert (n * n) as real == m * m;
    var q := a as real / m / m;
    assert q * m == a as real / m;
    assert q * m * m == a as real;
  }

  /** A common positive factor cancels from a fraction. */
  lemma ScaleFraction(n: nat, a: int, b: int)
    requires n > 0 && b > 0
    ensures (n * a) as real / (n * b) as real == a as real / b as real
  {
    assert (n * a) as real == n as real * a as real;
    assert (n * b) as real == n as real * b as real;
  }

  /** The variance is below the whole number k exactly when an integer
      inequality between the counts holds. */
  lemma VarianceBelow(xs: seq<nat>, k: nat)
    requires |xs| > 0
    ensures Variance(xs) < k as real
        <==> |xs| * SumOfSquares(xs) - Sum(xs) * Sum(xs) < k * (|xs| * |xs|)
  {
    VarianceByIntegers(xs);
    DivBelow(|xs| * SumOfSquares(xs) - Sum(xs) * Sum(xs), |xs| * |xs|, k);
  }
}
