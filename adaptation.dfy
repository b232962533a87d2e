/**
 * The parameter adaptation of JADE with the PMCRADE patch (SubPopulation::Adaption
 * in scattnlay/examples/dipole_ml/jade.cpp): mu_CR moves towards the mean of the
 * successful crossover rates S_CR (the quadratic mean when PMCRADE is on and
 * S_CR is spread out), mu_F towards the Lehmer mean of the successful mutation
 * factors S_F, each by the fraction c.
 */
module Adaptation {

  /** Sum of a sequence, accumulated front to back. */
  function Sum(s: seq<real>): real
    decreases |s|
  {
    if s == [] then 0.0 else Sum(s[..|s| - 1]) + s[|s| - 1]
  }

  /** Sum of squares, accumulated front to back. */
  function SumSquares(s: seq<real>): real
    decreases |s|
  {
    if s == [] then 0.0 else SumSquares(s[..|s| - 1]) + s[|s| - 1] * s[|s| - 1]
  }

  /** Sum of squared deviations from a given mean, accumulated front to back. */
  function SumSquaredDeviations(s: seq<real>, mean: real): real
    decreases |s|
  {
    if s == [] then 0.0
    else
      var d := s[|s| - 1] - mean;
      SumSquaredDeviations(s[..|s| - 1], mean) + d * d
  }

  function Mean(s: seq<real>): real
    requires |s| > 0
  {
    Sum(s) / |s| as real
  }

  /** The Lehmer mean sum(F^2) / sum(F) used for mu_F. */
  function LehmerMean(s: seq<real>): real
    requires Sum(s) != 0.0
  {
    SumSquares(s) / Sum(s)
  }

  /** The update (1 - c) * prior + c * target. */
  function Convex(prior: real, c: real, target: real): real
  {
    (1.0 - c) * prior + c * target
  }

  /** Whether f is an exact square root on the non-negative reals. */
  ghost predicate IsSqrt(f: real -> real)
  {
    forall x :: 0.0 <= x ==> 0.0 <= f(x) && f(x) * f(x) == x
  }

  /** The population standard deviation of S_CR below which PMCRADE keeps the arithmetic mean. */
  const PmcradeThreshold: real := 0.07

  predicate AllUnit(s: seq<real>)
  {
    forall k :: 0 <= k < |s| ==> 0.0 <= s[k] <= 1.0
  }

  predicate AllPositiveUnit(s: seq<real>)
  {
    forall k :: 0 <= k < |s| ==> 0.0 < s[k] <= 1.0
  }

  /** The mean mu_CR moves towards: arithmetic, or quadratic under PMCRADE when the spread is at least 0.07. */
  function CrossoverTarget(scr: seq<real>, pmcrade: bool, sqrt: real -> real): (r: real)
    requires |scr| > 0
    ensures r == Mean(scr) || r == sqrt(SumSquares(scr) / |scr| as real)
    ensures !pmcrade ==> r == Mean(scr)
  {
    var n := |scr| as real;
    var mean := Mean(scr);
    if !pmcrade then mean
    else if sqrt(SumSquaredDeviations(scr, mean) / n) < PmcradeThreshold then mean
    else sqrt(SumSquares(scr) / n)
  }

  /** mu_CR after Adaption; unchanged when either success set is empty. */
  function AdaptedMuCR(muCR: real, c: real, scr: seq<real>, sf: seq<real>, pmcrade: bool, sqrt: real -> real): (r: real)
    ensures |scr| == 0 || |sf| == 0 || c == 0.0 ==> r == muCR
    ensures |scr| > 0 && |sf| > 0 && c == 1.0 ==> r == CrossoverTarget(scr, pmcrade, sqrt)
  {
    if |scr| == 0 || |sf| == 0 then muCR else Convex(muCR, c, CrossoverTarget(scr, pmcrade, sqrt))
  }

  /** mu_F after Adaption; unchanged when either success set is empty. */
  function AdaptedMuF(muF: real, c: real, scr: seq<real>, sf: seq<real>): (r: real)
    requires |scr| == 0 || |sf| == 0 || Sum(sf) != 0.0
    ensures |scr| == 0 || |sf| == 0 || c == 0.0 ==> r == muF
    ensures |scr| > 0 && |sf| > 0 && c == 1.0 ==> r == LehmerMean(sf)
  {
    if |scr| == 0 || |sf| == 0 then muF else Convex(muF, c, LehmerMean(sf))
  }

  // ---------------------------------------------------------------------------
  // Ranges

  /** A sum of unit values lies in [0, n]; of positive unit values, in (0, n] when non-empty. */
  lemma {:induction false} SumRange(s: seq<real>)
    requires AllUnit(s)
    ensures 0.0 <= Sum(s) <= |s| as real
    ensures AllPositiveUnit(s) && |s| > 0 ==> 0.0 < Sum(s)
    decreases |s|
  {
    if s != [] {
      SumRange(s[..|s| - 1]);
    }
  }

  /** For values in [0, 1] the sum of squares is non-negative and at most the sum. */
  lemma {:induction false} SumSquaresAtMostSum(s: seq<real>)
    requires AllUnit(s)
    ensures 0.0 <= SumSquares(s) <= Sum(s)
    decreases |s|
  {
    if s != [] {
      var x := s[|s| - 1];
      SumSquaresAtMostSum(s[..|s| - 1]);
      assert x * x <= x by {
        assert x * x == x * x;
        assert x - x * x == x * (1.0 - x);
        assert 0.0 <= x * (1.0 - x);
      }
    }
  }

  /** The Lehmer mean of factors in (0, 1] lies in (0, 1]. */
  lemma LehmerMeanRange(sf: seq<real>)
    requires |sf| > 0 && AllPositiveUnit(sf)
    ensures Sum(sf) > 0.0
    ensures 0.0 < LehmerMean(sf) <= 1.0
  {
    SumRange(sf);
    SumSquaresAtMostSum(sf);
    PositiveSquares(sf);
    RatioAtMostOne(SumSquares(sf), Sum(sf));
  }

  /** A ratio a / b of 0 < a <= b lies in (0, 1]. */
  lemma RatioAtMostOne(a: real, b: real)
    requires 0.0 < a <= b
    ensures 0.0 < a / b <= 1.0
  {
    var q := a / b;
    assert q * b == a;
    assert (1.0 - q) * b == b - a;
  }

  /** A ratio a / b of 0 <= a <= b lies in [0, 1]. */
  lemma UnitRatio(a: real, b: real)
    requires 0.0 <= a <= b && 0.0 < b
    ensures 0.0 <= a / b <= 1.0
  {
    var q := a / b;
    assert q * b == a;
    assert (1.0 - q) * b == b - a;
  }

  /** Squares of positive values have a positive sum. */
  lemma PositiveSquares(s: seq<real>)
    requires |s| > 0 && AllPositiveUnit(s)
    ensures 0.0 < SumSquares(s)
  {
    SumSquaresAtMostSum(s[..|s| - 1]);
    AddProduct(SumSquares(s[..|s| - 1]), s[|s| - 1], s[|s| - 1]);
  }

  lemma AddProduct(a: real, x: real, y: real)
    requires 0.0 <= a && 0.0 < x && 0.0 < y
    ensures 0.0 < a + x * y
  {
  }

  /** The arithmetic mean of unit values is a unit value. */
  lemma MeanRange(s: seq<real>)
    requires |s| > 0 && AllUnit(s)
    ensures 0.0 <= Mean(s) <= 1.0
  {
    SumRange(s);
    UnitRatio(Sum(s), |s| as real);
  }

  /** The quadratic mean of unit values is a unit value. */
  lemma QuadraticMeanRange(s: seq<real>, sqrt: real -> real)
    requires |s| > 0 && AllUnit(s) && IsSqrt(sqrt)
    ensures 0.0 <= sqrt(SumSquares(s) / |s| as real) <= 1.0
  {
    SumRange(s);
    SumSquaresAtMostSum(s);
    var v := SumSquares(s) / |s| as real;
    UnitRatio(SumSquares(s), |s| as real);
    var y := sqrt(v);
    assert 0.0 <= y && y * y == v;
    assert (1.0 - y) * (1.0 + y) == 1.0 - y * y;
  }

  /** The PMCRADE test sqrt(var) < 0.07 holds exactly when the variance is below 0.0049. */
  lemma ThresholdOnVariance(sqrt: real -> real, v: real)
    requires IsSqrt(sqrt) && 0.0 <= v
    ensures sqrt(v) < PmcradeThreshold <==> v < 0.0049
  {
    var y := sqrt(v);
    assert 0.0 <= y && y * y == v;
    if y < 0.07 {
      assert y * y <= y * 0.07;
      assert y * 0.07 < 0.07 * 0.07;
    } else {
      assert y * y >= y * 0.07 >= 0.07 * 0.07;
    }
  }

  /** A convex step between two points of [lo, hi] stays in [lo, hi]. */
  lemma ConvexRange(prior: real, c: real, target: real, lo: real, hi: real)
    requires 0.0 <= c <= 1.0 && lo <= prior <= hi && lo <= target <= hi
    ensures lo <= Convex(prior, c, target) <= hi
  {
    var w := target - prior;
    assert c * w == c * target - c * prior;
    assert (1.0 - c) * prior == prior - c * prior;
    assert Convex(prior, c, target) == prior + c * w;
    ScaleByFraction(c, w);
  }

  /** A fraction c of [0, 1] moves a width w towards zero without changing its sign. */
  lemma ScaleByFraction(c: real, w: real)
    requires 0.0 <= c <= 1.0
    ensures 0.0 <= w ==> 0.0 <= c * w <= w
    ensures w <= 0.0 ==> w <= c * w <= 0.0
  {
    assert w - c * w == (1.0 - c) * w;
    if 0.0 <= w {
      assert 0.0 <= (1.0 - c) * w;
    } else {
      assert (1.0 - c) * w <= 0.0;
    }
  }

  /** A convex step between two positive values is positive. */
  lemma ConvexPositive(prior: real, c: real, target: real)
    requires 0.0 <= c <= 1.0 && 0.0 < prior && 0.0 < target
    ensures 0.0 < Convex(prior, c, target)
  {
    if c < 1.0 {
      assert 0.0 < (1.0 - c) * prior;
    } else {
      assert Convex(prior, c, target) == target;
    }
    assert 0.0 <= c * target;
  }

  /** mu_CR stays a unit value when c and every successful CR_i are. */
  lemma AdaptedMuCRRange(muCR: real, c: real, scr: seq<real>, sf: seq<real>, pmcrade: bool, sqrt: real -> real)
    requires 0.0 <= c <= 1.0 && 0.0 <= muCR <= 1.0 && AllUnit(scr) && IsSqrt(sqrt)
    ensures 0.0 <= AdaptedMuCR(muCR, c, scr, sf, pmcrade, sqrt) <= 1.0
  {
    if |scr| > 0 && |sf| > 0 {
      MeanRange(scr);
      QuadraticMeanRange(scr, sqrt);
      ConvexRange(muCR, c, CrossoverTarget(scr, pmcrade, sqrt), 0.0, 1.0);
    }
  }

  /** mu_F stays in (0, 1] when c is a unit value and every successful F_i is in (0, 1]. */
  lemma AdaptedMuFRange(muF: real, c: real, scr: seq<real>, sf: seq<real>)
    requires 0.0 <= c <= 1.0 && 0.0 < muF <= 1.0 && AllPositiveUnit(sf)
    ensures |scr| == 0 || |sf| == 0 || Sum(sf) != 0.0
    ensures 0.0 < AdaptedMuF(muF, c, scr, sf) <= 1.0
  {
    if |scr| > 0 && |sf| > 0 {
      LehmerMeanRange(sf);
      ConvexRange(muF, c, LehmerMean(sf), 0.0, 1.0);
      ConvexPositive(muF, c, LehmerMean(sf));
    }
  }
}
