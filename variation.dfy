/**
 * The per-individual operators of JADE as functions of their inputs: the draw
 * of F_i and CR_i, the choice of donors, the DE/current-to-pbest/1 mutant with
 * midpoint bound control, binomial crossover and the acceptance test of
 * selection (scattnlay/examples/dipole_ml/jade.cpp). The methods of
 * Jade.SubPopulation compute the same values with the loops of the C++ code
 * and are proved equal to these functions.
 */
module Variation {
  import opened Outcomes
  import opened Draws

  /** Whether v is a point of the box [lb, ub], one bound pair per component. */
  predicate InBox(v: seq<real>, lb: seq<real>, ub: seq<real>)
  {
    |v| == |lb| == |ub| && forall c :: 0 <= c < |v| ==> lb[c] <= v[c] <= ub[c]
  }

  // ---------------------------------------------------------------------------
  // SetCRiFi: the per-individual parameters

  /** The Cauchy scale and the Gaussian standard deviation of the parameter draws. */
  const ParameterSpread: real := 0.1
  /** The F_i used once more than ten Cauchy draws in a row were non-positive. */
  const FallbackF: real := 0.001

  /**
   * The F_i that SetCRiFi stores when k non-positive Cauchy draws were already
   * rejected and t[k] is read next: a draw above 1 is cut to 1, a positive
   * draw is taken, and after the eleventh non-positive draw the fallback is used.
   */
  function SampleF(muF: real, t: seq<real>, k: nat): (f: real)
    requires k < MaxCauchyDraws <= |t|
    ensures 0.0 < f <= 1.0
    decreases MaxCauchyDraws - k
  {
    var draw := RandC(muF, ParameterSpread, t[k]);
    if draw > 1.0 then 1.0
    else if draw > 0.0 then draw
    else
      var rejected := k + 1;
      if rejected > 10 then FallbackF else SampleF(muF, t, rejected)
  }

  /** F_i is the first positive Cauchy draw, cut to 1. */
  lemma {:induction false} SampleFTakesFirstPositive(muF: real, t: seq<real>, k: nat, j: nat)
    requires k <= j < MaxCauchyDraws <= |t|
    requires forall m :: k <= m < j ==> RandC(muF, ParameterSpread, t[m]) <= 0.0
    requires RandC(muF, ParameterSpread, t[j]) > 0.0
    ensures SampleF(muF, t, k) == Min(RandC(muF, ParameterSpread, t[j]), 1.0)
    decreases j - k
  {
    if k < j {
      SampleFTakesFirstPositive(muF, t, k + 1, j);
    }
  }

  /** F_i falls back to 0.001 when all eleven Cauchy draws are non-positive. */
  lemma {:induction false} SampleFFallback(muF: real, t: seq<real>, k: nat)
    requires k < MaxCauchyDraws <= |t|
    requires forall m :: k <= m < MaxCauchyDraws ==> RandC(muF, ParameterSpread, t[m]) <= 0.0
    ensures SampleF(muF, t, k) == FallbackF
    decreases MaxCauchyDraws - k
  {
    if k + 1 < MaxCauchyDraws {
      SampleFFallback(muF, t, k + 1);
    }
  }

  function Min(a: real, b: real): real
  {
    if a <= b then a else b
  }

  function Distance(a: real, b: real): real
  {
    if a >= b then a - b else b - a
  }

  /** The CR_i that SetCRiFi stores for a Gaussian draw: the point of [0, 1] nearest to it. */
  function ClampCR(cr: real): (r: real)
    ensures 0.0 <= r <= 1.0
    ensures 0.0 <= cr <= 1.0 ==> r == cr
    ensures forall y :: 0.0 <= y <= 1.0 ==> Distance(r, cr) <= Distance(y, cr)
  {
    var capped := if cr > 1.0 then 1.0 else cr;
    if capped < 0.0 then 0.0 else capped
  }

  // ---------------------------------------------------------------------------
  // Donor choice

  /** floor(N * p): the last ranking position the pbest draw may pick. */
  function BestCount(n: nat, p: real): (r: int)
    ensures 0.0 <= p ==> 0 <= r
  {
    (n as real * p).Floor
  }

  /** With p in [0, 1] the pbest range 0..floor(N * p) lies within 0..N, and it reaches N only for p == 1. */
  lemma BestCountRange(n: nat, p: real)
    requires 1 <= n && 0.0 <= p <= 1.0
    ensures 0 <= BestCount(n, p) <= n
    ensures BestCount(n, p) == n <==> p == 1.0
  {
    var np := n as real * p;
    assert 0.0 <= np <= n as real;
    if p < 1.0 {
      assert n as real - np == n as real * (1.0 - p);
      assert 0.0 < n as real * (1.0 - p);
      assert BestCount(n, p) < n;
    } else {
      assert np == n as real;
    }
  }

  /**
   * The rejection loop shared by GetXRandomCurrent and GetXRandomArchiveAndCurrent:
   * the first supplied draw, reduced into [0, m), that is neither bad1 nor bad2.
   * None means that every supplied draw was rejected, so the loop would still be running.
   */
  function FirstAvoiding(draws: seq<nat>, m: nat, bad1: int, bad2: int): (r: Option<nat>)
    requires 1 <= m
    ensures r.Some? ==> r.value < m && r.value != bad1 && r.value != bad2
    ensures r.None? <==> forall k :: 0 <= k < |draws| ==> RandInt(0, m - 1, draws[k]) in {bad1, bad2}
    decreases |draws|
  {
    if |draws| == 0 then None
    else
      var pick := RandInt(0, m - 1, draws[0]);
      if pick != bad1 && pick != bad2 then Some(pick)
      else FirstAvoiding(draws[1..], m, bad1, bad2)
  }

  /** With a single individual no draw avoids it: the r1 loop of the C++ code never ends. */
  lemma SingleSlotIsNeverAvoided(draws: seq<nat>)
    ensures FirstAvoiding(draws, 1, 0, 0) == None
  {
    forall k | 0 <= k < |draws|
      ensures RandInt(0, 0, draws[k]) in {0, 0}
    {
    }
  }

  // ---------------------------------------------------------------------------
  // Mutation

  /**
   * Bound control of one mutant component: a value above ub is moved to the
   * midpoint of ub and the parent's component, then a value below lb to the
   * midpoint of lb and the parent's component.
   */
  function Repair(raw: real, x: real, lo: real, hi: real): (v: real)
    ensures lo <= raw <= hi ==> v == raw
    ensures lo <= x <= hi && hi < raw ==> v == (hi + x) / 2.0
    ensures lo <= hi && raw < lo ==> v == (lo + x) / 2.0
    ensures lo <= x <= hi ==> lo <= v <= hi
  {
    var capped := if raw > hi then (hi + x) / 2.0 else raw;
    if capped < lo then (lo + x) / 2.0 else capped
  }

  /** The DE/current-to-pbest/1 component before bound control. */
  function RawMutant(x: real, pbest: real, r1: real, r2: real, f: real): (r: real)
    ensures f == 0.0 ==> r == x
    ensures pbest == x && r1 == r2 ==> r == x
    ensures f == 1.0 ==> r == pbest + r1 - r2
  {
    x + f * (pbest - x) + f * (r1 - r2)
  }

  /** The mutant vector v_i after bound control; it stays in the box whenever the parent does. */
  function Mutant(x: seq<real>, pbest: seq<real>, r1: seq<real>, r2: seq<real>, f: real,
                  lb: seq<real>, ub: seq<real>): (v: seq<real>)
    requires |pbest| == |r1| == |r2| == |lb| == |ub| == |x|
    ensures |v| == |x|
    ensures InBox(x, lb, ub) ==> InBox(v, lb, ub)
  {
    seq(|x|, c requires 0 <= c < |x| =>
      Repair(RawMutant(x[c], pbest[c], r1[c], r2[c], f), x[c], lb[c], ub[c]))
  }

  // ---------------------------------------------------------------------------
  // Crossover

  /**
   * Binomial crossover: component c of the trial is the mutant's when c is
   * j_rand or the unit draw u[c] is below CR_i, and the parent's otherwise.
   */
  function CrossoverOf(v: seq<real>, x: seq<real>, jrand: nat, u: seq<real>, cr: real): (t: seq<real>)
    requires |v| == |x| == |u| && jrand < |x|
    ensures |t| == |x| && t[jrand] == v[jrand]
    ensures forall c :: 0 <= c < |x| ==> t[c] == v[c] || t[c] == x[c]
  {
    seq(|x|, c requires 0 <= c < |x| => if c == jrand || u[c] < cr then v[c] else x[c])
  }

  /** A trial built from a mutant and a parent in the box is in the box. */
  lemma CrossoverInBox(v: seq<real>, x: seq<real>, jrand: nat, u: seq<real>, cr: real, lb: seq<real>, ub: seq<real>)
    requires |v| == |x| == |u| && jrand < |x|
    requires InBox(v, lb, ub) && InBox(x, lb, ub)
    ensures InBox(CrossoverOf(v, x, jrand, u, cr), lb, ub)
  {
    var t := CrossoverOf(v, x, jrand, u, cr);
    forall c | 0 <= c < |t|
      ensures lb[c] <= t[c] <= ub[c]
    {
      assert t[c] == v[c] || t[c] == x[c];
    }
  }

  /** With CR_i >= 1 every unit draw passes: the trial is the mutant. */
  lemma CrossoverFullRate(v: seq<real>, x: seq<real>, jrand: nat, u: seq<real>, cr: real)
    requires |v| == |x| == |u| && jrand < |x|
    requires UnitDraws(u) && 1.0 <= cr
    ensures CrossoverOf(v, x, jrand, u, cr) == v
  {
  }

  /** With CR_i <= 0 no unit draw passes: the trial is the parent except at j_rand. */
  lemma CrossoverZeroRate(v: seq<real>, x: seq<real>, jrand: nat, u: seq<real>, cr: real)
    requires |v| == |x| == |u| && jrand < |x|
    requires UnitDraws(u) && cr <= 0.0
    ensures CrossoverOf(v, x, jrand, u, cr) == x[jrand := v[jrand]]
  {
  }

  // ---------------------------------------------------------------------------
  // Selection

  /** Whether fitness a is at least as good as fitness b in the optimisation direction. */
  predicate AtLeastAsGood(a: real, b: real, findMinimum: bool)
  {
    if findMinimum then a <= b else a >= b
  }

  /**
   * The acceptance test of Selection: written for maximisation as "better than
   * the parent or equal to the best", and negated as a whole when minimising.
   */
  predicate Accepts(fTrial: real, fCurrent: real, fBest: real, findMinimum: bool): (b: bool)
    ensures findMinimum ==> (b <==> fTrial <= fCurrent && fTrial != fBest)
    ensures !findMinimum && fTrial > fCurrent ==> b
  {
    var success := fTrial > fCurrent || fTrial == fBest;
    if findMinimum then !success else success
  }

  /** An accepted trial is never worse than its parent, given that the best is at least as good as the parent. */
  lemma AcceptedIsNoWorse(fTrial: real, fCurrent: real, fBest: real, findMinimum: bool)
    requires AtLeastAsGood(fBest, fCurrent, findMinimum)
    requires Accepts(fTrial, fCurrent, fBest, findMinimum)
    ensures AtLeastAsGood(fTrial, fCurrent, findMinimum)
  {
  }

  /**
   * A trial equal to its parent is accepted when minimising unless the parent
   * ties the best, and when maximising only if the parent ties the best.
   */
  lemma TieWithParent(fTrial: real, fCurrent: real, fBest: real, findMinimum: bool)
    requires fTrial == fCurrent
    ensures Accepts(fTrial, fCurrent, fBest, findMinimum) <==> (findMinimum <==> fCurrent != fBest)
  {
  }

  /** A trial equal to the best is accepted when maximising and rejected when minimising. */
  lemma TieWithBest(fTrial: real, fCurrent: real, fBest: real, findMinimum: bool)
    requires fTrial == fBest
    ensures Accepts(fTrial, fCurrent, fBest, findMinimum) <==> !findMinimum
  {
  }
}
