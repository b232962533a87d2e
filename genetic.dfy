/**
 * The library-independent parts of algorithms/genetic.py: the split of the
 * population into elite, crossed-over and mutated shares, the clamping
 * Gaussian mutation, the (1+1) hill climber with its plateau counter, the
 * restart loop that keeps the best climb, and the generation loop of the
 * genetic algorithm. The DEAP and random-module calls (selBest, selTournament,
 * cxSimulatedBinaryBounded, random.sample) are supplied functions; the random
 * numbers the module draws are supplied values (see module Draws).
 */
module Genetic {
  import opened Outcomes
  import opened Draws
  import opened Variation
  import opened Adaptation

  /** A candidate solution: one real per limit. */
  type Individual = seq<real>

  /** One (low, high) pair of the limits list. */
  datatype Limit = Limit(low: real, high: real)

  /** low <= high for every limit. */
  predicate Ordered(limits: seq<Limit>)
  {
    forall c :: 0 <= c < |limits| ==> limits[c].low <= limits[c].high
  }

  /** Every component of x lies within the limit of the same position. */
  ghost predicate InLimits(x: Individual, limits: seq<Limit>)
  {
    |x| <= |limits| && forall c :: 0 <= c < |x| ==> limits[c].low <= x[c] <= limits[c].high
  }

  // ---------------------------------------------------------------------------
  // Population shares (genetic, lines 94-99)

  /** Python int() of a float: truncation toward zero. */
  function Trunc(x: real): (r: int)
    ensures 0.0 <= x ==> r as real <= x < r as real + 1.0
    ensures x < 0.0 ==> r as real - 1.0 < x <= r as real
  {
    if x >= 0.0 then x.Floor else -((-x).Floor)
  }

  /**
   * Line 97: an odd count loses one. Python's `c & 1` and Dafny's `c % 2`
   * agree on negative numbers too (both give 1 for -3).
   */
  function EvenDown(c: int): (r: int)
    ensures r % 2 == 0 && c - 1 <= r <= c
    ensures c % 2 == 0 ==> r == c
  {
    if c % 2 == 1 then c - 1 else c
  }

  datatype Sizes = Sizes(elite: int, crossovered: int, mutated: int)

  /** The three shares of genetic, or AssertionFailed when one of its two asserts does not hold. */
  function Partition(popsize: int, elitepercent: real, crossoveredpercent: real): (r: Result<Sizes>)
    ensures r.Failure? ==> r.error == AssertionFailed
    ensures elitepercent + crossoveredpercent > 1.0 ==> r.Failure?
    ensures r.Success? ==>
      && r.value.elite + r.value.crossovered + r.value.mutated == popsize
      && 0 <= r.value.mutated && r.value.crossovered % 2 == 0
      && r.value.elite == Trunc(popsize as real * elitepercent)
      && Trunc(popsize as real * crossoveredpercent) - 1 <= r.value.crossovered <= Trunc(popsize as real * crossoveredpercent)
  {
    if elitepercent + crossoveredpercent > 1.0 then Failure(AssertionFailed)
    else SizesOf(popsize, Trunc(popsize as real * elitepercent), Trunc(popsize as real * crossoveredpercent))
  }

  /** Lines 97-99 from the truncated elite and crossover sizes: the crossover size made even, the rest mutated. */
  function SizesOf(popsize: int, elite: int, crossovered: int): (r: Result<Sizes>)
    ensures r.Failure? <==> popsize - elite - EvenDown(crossovered) < 0
    ensures r.Failure? ==> r.error == AssertionFailed
    ensures r.Success? ==> r.value == Sizes(elite, EvenDown(crossovered), popsize - elite - EvenDown(crossovered))
  {
    var even := EvenDown(crossovered);
    var mutated := popsize - elite - even;
    if mutated < 0 then Failure(AssertionFailed) else Success(Sizes(elite, even, mutated))
  }

  /**
   * With a non-negative population size and non-negative shares summing to at
   * most 1, the second assert (mutatedsize >= 0) always holds and every share
   * is a non-negative count.
   */
  lemma PartitionSucceeds(popsize: int, elitepercent: real, crossoveredpercent: real)
    requires 0 <= popsize && 0.0 <= elitepercent && 0.0 <= crossoveredpercent
    requires elitepercent + crossoveredpercent <= 1.0
    ensures Partition(popsize, elitepercent, crossoveredpercent).Success?
    ensures var s := Partition(popsize, elitepercent, crossoveredpercent).value;
            0 <= s.elite && 0 <= s.crossovered && 0 <= s.mutated
  {
    SharesFit(popsize, elitepercent, crossoveredpercent);
    SizesOfSucceeds(popsize, Trunc(popsize as real * elitepercent), Trunc(popsize as real * crossoveredpercent));
  }

  /** Non-negative elite and crossover sizes within the population pass the second assert, and every size is non-negative. */
  lemma SizesOfSucceeds(popsize: int, e: int, c: int)
    requires 0 <= e && 0 <= c && e + c <= popsize
    ensures SizesOf(popsize, e, c).Success?
    ensures var s := SizesOf(popsize, e, c).value; 0 <= s.elite && 0 <= s.crossovered && 0 <= s.mutated
  {
    if c % 2 == 1 {
      assert 1 <= c;
    }
  }

  /** The truncated elite and crossover sizes of a population of n >= 0 are non-negative and sum to at most n. */
  lemma SharesFit(n: int, a: real, b: real)
    requires 0 <= n && 0.0 <= a && 0.0 <= b && a + b <= 1.0
    ensures 0 <= Trunc(n as real * a) && 0 <= Trunc(n as real * b)
    ensures Trunc(n as real * a) + Trunc(n as real * b) <= n
  {
    var p := n as real;
    ShareProducts(p, a, b);
    TruncBelow(p * a);
    TruncBelow(p * b);
    assert (Trunc(p * a) + Trunc(p * b)) as real <= p;
  }

  /** int() of a non-negative float is a non-negative integer not above it. */
  lemma TruncBelow(x: real)
    requires 0.0 <= x
    ensures 0 <= Trunc(x) && Trunc(x) as real <= x
  {
  }

  /** p * a and p * b are non-negative and sum to at most p. */
  lemma ShareProducts(p: real, a: real, b: real)
    requires 0.0 <= p && 0.0 <= a && 0.0 <= b && a + b <= 1.0
    ensures 0.0 <= p * a && 0.0 <= p * b && p * a + p * b <= p
  {
    assert p * a + p * b == p * (a + b);
    assert p - p * (a + b) == p * (1.0 - (a + b));
    assert 0.0 <= p * (1.0 - (a + b));
  }

  // ---------------------------------------------------------------------------
  // get_mutate_func (lines 24-39)

  /** Lines 31-32: a value above high becomes high, then a value below low becomes low. */
  function Clamp(v: real, lim: Limit): (r: real)
    ensures lim.low <= lim.high ==> lim.low <= r <= lim.high
    ensures lim.low <= v <= lim.high ==> r == v
    ensures lim.low <= lim.high ==> forall y :: lim.low <= y <= lim.high ==> Distance(r, v) <= Distance(y, v)
  {
    var capped := if v > lim.high then lim.high else v;
    if capped < lim.low then lim.low else capped
  }

  /** An exact square root of a positive number is positive. */
  lemma SqrtPositive(sqrt: real -> real, x: real)
    requires IsSqrt(sqrt) && 0.0 < x
    ensures 0.0 < sqrt(x)
  {
    var y := sqrt(x);
    assert 0.0 <= y && y * y == x;
  }

  /** Line 27: the standard deviation (high - low) / 6 / sqrt(len(ind)); negative exactly when the limit is inverted. */
  function Spread(lim: Limit, n: nat, sqrt: real -> real): (s: real)
    requires IsSqrt(sqrt) && 1 <= n
    ensures s < 0.0 <==> lim.high < lim.low
  {
    SqrtPositive(sqrt, n as real);
    var q := sqrt(n as real);
    var w := (lim.high - lim.low) / 6.0;
    assert (w / q) * q == w;
    w / q
  }

  /** Lines 27-36 for one component: a Gaussian step from x (standard variate z), then the clamp. */
  function MutatedComponent(x: real, lim: Limit, n: nat, z: real, sqrt: real -> real): (r: real)
    requires IsSqrt(sqrt) && 1 <= n
    ensures r == RandN(x, Spread(lim, n, sqrt), z) || r == lim.low || r == lim.high
    ensures lim.low <= lim.high ==> lim.low <= r <= lim.high
  {
    Clamp(RandN(x, Spread(lim, n, sqrt), z), lim)
  }

  /**
   * The first position at which mutate_func raises, starting the search at c:
   * limits[k] is missing (IndexError) or inverted, which gives np.random.normal
   * a negative scale (ValueError); n when no position of 0..n-1 raises.
   */
  function FirstUnmutable(n: nat, limits: seq<Limit>, c: nat): (k: nat)
    requires c <= n
    ensures c <= k <= n
    ensures c <= |limits| ==> k <= |limits|
    ensures forall j :: c <= j < k ==> j < |limits| && limits[j].low <= limits[j].high
    ensures k < n ==> k >= |limits| || limits[k].high < limits[k].low
    decreases n - c
  {
    if c == n then n
    else if c >= |limits| || limits[c].high < limits[c].low then c
    else FirstUnmutable(n, limits, c + 1)
  }

  /** ind with its first k components mutated and the rest as they were. */
  function MutatedUpTo(ind: Individual, limits: seq<Limit>, z: seq<real>, sqrt: real -> real, k: nat): (r: Individual)
    requires IsSqrt(sqrt) && k <= |ind| <= |z| && k <= |limits|
    ensures |r| == |ind|
  {
    seq(|ind|, c requires 0 <= c < |ind| =>
      if c < k then MutatedComponent(ind[c], limits[c], |ind|, z[c], sqrt) else ind[c])
  }

  /** A fully mutated individual lies within ordered limits. */
  lemma MutatedInLimits(ind: Individual, limits: seq<Limit>, z: seq<real>, sqrt: real -> real)
    requires IsSqrt(sqrt) && |ind| <= |z| && |ind| <= |limits|
    requires forall c :: 0 <= c < |ind| ==> limits[c].low <= limits[c].high
    ensures InLimits(MutatedUpTo(ind, limits, z, sqrt, |ind|), limits)
  {
  }

  /**
   * mutate_func: every component of ind, in order, takes a Gaussian step and is
   * clamped into its limit, in place; the same array is returned. It raises at
   * the first component whose limit is missing or inverted, with the earlier
   * components already overwritten.
   */
  method Mutate(ind: array<real>, limits: seq<Limit>, z: seq<real>, sqrt: real -> real) returns (r: Result<array<real>>)
    requires IsSqrt(sqrt) && ind.Length <= |z|
    modifies ind
    ensures FirstUnmutable(ind.Length, limits, 0) <= |limits|
    ensures ind[..] == MutatedUpTo(old(ind[..]), limits, z, sqrt, FirstUnmutable(ind.Length, limits, 0))
    ensures r.Success? <==> FirstUnmutable(ind.Length, limits, 0) == ind.Length
    ensures r.Success? ==> r.value == ind && InLimits(ind[..], limits)
    ensures r.Failure? ==> r.error == if FirstUnmutable(ind.Length, limits, 0) >= |limits| then IndexOutOfRange else InvalidScale
  {
    var n := ind.Length;
    var i := 0;
    while i < n
      invariant 0 <= i <= n && i <= |limits|
      invariant FirstUnmutable(n, limits, 0) == FirstUnmutable(n, limits, i)
      invariant forall j :: 0 <= j < i ==> j < |limits| && limits[j].low <= limits[j].high
      invariant ind[..] == MutatedUpTo(old(ind[..]), limits, z, sqrt, i)
      invariant forall j :: 0 <= j < i ==> limits[j].low <= ind[j] <= limits[j].high
    {
      if i >= |limits| {
        return Failure(IndexOutOfRange);
      }
      var lim := limits[i];
      SqrtPositive(sqrt, n as real);
      var scale := (lim.high - lim.low) / 6.0 / sqrt(n as real);
      assert scale == Spread(lim, n, sqrt);
      if scale < 0.0 {
        return Failure(InvalidScale);
      }
      var mutated := RandN(ind[i], scale, z[i]);
      mutated := if mutated > lim.high then lim.high else mutated;
      mutated := if mutated < lim.low then lim.low else mutated;
      // the assert of line 35, which the scale check has made unfailing
      assert mutated >= lim.low && mutated <= lim.high;
      ind[i] := mutated;
      i := i + 1;
    }
    return Success(ind);
  }

  /** toolbox.clone: a fresh array holding x. */
  method Clone(x: Individual) returns (a: array<real>)
    ensures fresh(a) && a[..] == x
  {
    a := new real[|x|](k requires 0 <= k < |x| => x[k]);
  }

  /** toolbox.mutate on a clone of x: the mutated copy, or the error mutate_func raises. */
  method MutateClone(x: Individual, limits: seq<Limit>, z: seq<real>, sqrt: real -> real) returns (r: Result<Individual>)
    requires IsSqrt(sqrt) && |x| <= |z|
    ensures r.Success? <==> FirstUnmutable(|x|, limits, 0) == |x|
    ensures r.Success? ==> |x| <= |limits| && r.value == MutatedUpTo(x, limits, z, sqrt, |x|) && InLimits(r.value, limits)
    ensures r.Failure? ==> r.error == if FirstUnmutable(|x|, limits, 0) >= |limits| then IndexOutOfRange else InvalidScale
  {
    var a := Clone(x);
    var m := Mutate(a, limits, z, sqrt);
    if m.Failure? {
      return Failure(m.error);
    }
    return Success(a[..]);
  }

  /** ind_function: component c drawn by random.uniform(low, high), that is low + (high - low) * u[c]. */
  function UniformIndividual(limits: seq<Limit>, u: seq<real>): (x: Individual)
    requires |u| == |limits| && UnitDraws(u)
    ensures |x| == |limits|
    ensures Ordered(limits) ==> InLimits(x, limits)
  {
    seq(|limits|, c requires 0 <= c < |limits| => Rand(limits[c].low, limits[c].high, u[c]))
  }

  // ---------------------------------------------------------------------------
  // one_plus_one_onecall (lines 41-75)

  /** toolbox.select([a, b])[0] returns one of the two. */
  ghost predicate ChoosesOneOf(select: (Individual, Individual) -> Individual)
  {
    forall a, b :: select(a, b) == a || select(a, b) == b
  }

  /** toolbox.select([a, b])[0] is at least as fit as both (tools.selBest with k = 1). */
  ghost predicate KeepsFittest(select: (Individual, Individual) -> Individual, fitness: Individual -> real)
  {
    forall a, b :: fitness(select(a, b)) >= fitness(a) && fitness(select(a, b)) >= fitness(b)
  }

  /**
   * time_on_plato along a trace of incumbents: the number of iterations whose
   * selected individual equals the incumbent. An improving iteration adds
   * nothing and takes nothing away.
   */
  function PlateauCount(trace: seq<Individual>): (n: nat)
    ensures |trace| <= 1 ==> n == 0
    ensures 1 <= |trace| ==> n <= |trace| - 1
    decreases |trace|
  {
    if |trace| <= 1 then 0
    else PlateauCount(trace[..|trace| - 1]) + (if trace[|trace| - 1] == trace[|trace| - 2] then 1 else 0)
  }

  /** The counter only grows along the climb: a shorter trace never counts more. */
  lemma {:induction false} PlateauCountGrows(trace: seq<Individual>, i: nat)
    requires i <= |trace|
    ensures PlateauCount(trace[..i]) <= PlateauCount(trace)
    decreases |trace| - i
  {
    if i < |trace| {
      var longer := trace[..i + 1];
      assert longer[..i] == trace[..i];
      assert PlateauCount(trace[..i]) <= PlateauCount(longer);
      PlateauCountGrows(trace, i + 1);
    } else {
      assert trace[..i] == trace;
    }
  }

  /** Iteration j (incumbent trace[j], selected trace[j + 1]) is the one at which lines 68-71 end the loop. */
  ghost predicate StopsAt(trace: seq<Individual>, j: int, maxPlatoTime: int)
  {
    0 <= j && j + 1 < |trace| && trace[j + 1] == trace[j] && PlateauCount(trace[..j + 2]) == maxPlatoTime
  }

  /** The draws of one climb: the start individual's unit draws and a vector of standard normal variates per iteration. */
  datatype ClimbDraws = ClimbDraws(start: seq<real>, steps: seq<seq<real>>)

  predicate ClimbDrawsFit(d: ClimbDraws, dimension: nat)
  {
    |d.start| == dimension && UnitDraws(d.start) && forall k :: 0 <= k < |d.steps| ==> dimension <= |d.steps[k]|
  }

  /**
   * The incumbents of a climb, one per iteration begun: trace[0] is the
   * random start and trace[j + 1] is what select keeps of trace[j] and its
   * mutated clone under the variates of iteration j.
   */
  ghost predicate Climbed(trace: seq<Individual>, limits: seq<Limit>, draws: ClimbDraws,
                          select: (Individual, Individual) -> Individual, sqrt: real -> real)
  {
    && IsSqrt(sqrt) && ClimbDrawsFit(draws, |limits|)
    && 1 <= |trace| <= |draws.steps| + 1
    && trace[0] == UniformIndividual(limits, draws.start)
    && forall j :: 0 <= j < |trace| - 1 ==> Follows(trace, j, limits, draws, select, sqrt)
  }

  /** Iteration j of the climb: trace[j + 1] is what select keeps of trace[j] and its clone mutated with the variates of iteration j. */
  ghost predicate Follows(trace: seq<Individual>, j: int, limits: seq<Limit>, draws: ClimbDraws,
                          select: (Individual, Individual) -> Individual, sqrt: real -> real)
  {
    && IsSqrt(sqrt) && 0 <= j < |draws.steps| && j + 1 < |trace| && |trace[j]| == |limits| <= |draws.steps[j]|
    && trace[j + 1] == select(trace[j], MutatedUpTo(trace[j], limits, draws.steps[j], sqrt, |trace[j]|))
  }

  /** None of the first n iterations of the trace ends the loop on the plateau test. */
  ghost predicate NoStopBefore(trace: seq<Individual>, n: int, maxPlatoTime: int)
  {
    forall j :: 0 <= j < n ==> !StopsAt(trace, j, maxPlatoTime)
  }

  /** The callback, when there is one, returned something other than True for the first n incumbents. */
  ghost predicate CallbackDeclined(trace: seq<Individual>, n: int, callback: Option<real -> bool>, fitness: Individual -> real)
    decreases n
  {
    n <= 0 || (n <= |trace| && CallbackDeclined(trace, n - 1, callback, fitness) && !CallbackStops(callback, fitness(trace[n - 1])))
  }

  /** Whether the callback declined the first n incumbents does not depend on later ones. */
  lemma {:induction false} DeclinedPrefix(trace: seq<Individual>, x: Individual, n: int, callback: Option<real -> bool>,
                                          fitness: Individual -> real)
    requires n <= |trace|
    ensures CallbackDeclined(trace + [x], n, callback, fitness) == CallbackDeclined(trace, n, callback, fitness)
    decreases n
  {
    if n > 0 {
      DeclinedPrefix(trace, x, n - 1, callback, fitness);
      assert (trace + [x])[n - 1] == trace[n - 1];
    }
  }

  /** Lines 64-66: a callback is given and returns True for the fitness f. */
  predicate CallbackStops(callback: Option<real -> bool>, f: real)
  {
    callback.Some? && callback.value(f)
  }

  /** One more incumbent: the counter grows by one exactly when it equals the last, and earlier iterations keep their verdict. */
  lemma TraceSnoc(trace: seq<Individual>, x: Individual, maxPlatoTime: int)
    requires 1 <= |trace|
    ensures PlateauCount(trace + [x]) == PlateauCount(trace) + (if x == trace[|trace| - 1] then 1 else 0)
    ensures forall j :: 0 <= j < |trace| - 1 ==> (StopsAt(trace + [x], j, maxPlatoTime) <==> StopsAt(trace, j, maxPlatoTime))
    ensures StopsAt(trace + [x], |trace| - 1, maxPlatoTime) <==> x == trace[|trace| - 1] && PlateauCount(trace + [x]) == maxPlatoTime
  {
    var t := trace + [x];
    assert t[..|trace|] == trace;
    assert t[..|trace| + 1] == t;
    forall j | 0 <= j < |trace| - 1
      ensures StopsAt(t, j, maxPlatoTime) <==> StopsAt(trace, j, maxPlatoTime)
    {
      assert t[..j + 2] == trace[..j + 2];
    }
  }

  /** A climb that passed the plateau test n times ends at iteration n exactly when it stopped there. */
  lemma StopsOnlyAt(trace: seq<Individual>, n: nat, maxPlatoTime: int, onPlateau: bool)
    requires |trace| == n + (if onPlateau then 2 else 1)
    requires NoStopBefore(trace, n, maxPlatoTime) && (onPlateau ==> StopsAt(trace, n, maxPlatoTime))
    ensures forall j :: 0 <= j < |trace| - 1 ==> (StopsAt(trace, j, maxPlatoTime) <==> onPlateau && j == |trace| - 2)
  {
  }

  /** One iteration of the climb that the callback did not end, recorded on the trace. */
  lemma ClimbStep(trace: seq<Individual>, x: Individual, limits: seq<Limit>, draws: ClimbDraws,
                  select: (Individual, Individual) -> Individual, sqrt: real -> real, maxPlatoTime: int,
                  callback: Option<real -> bool>, fitness: Individual -> real)
    requires Climbed(trace, limits, draws, select, sqrt) && |trace| <= |draws.steps|
    requires |trace[|trace| - 1]| == |limits|
    requires x == select(trace[|trace| - 1], MutatedUpTo(trace[|trace| - 1], limits, draws.steps[|trace| - 1], sqrt, |limits|))
    requires NoStopBefore(trace, |trace| - 1, maxPlatoTime) && CallbackDeclined(trace, |trace| - 1, callback, fitness)
    requires !CallbackStops(callback, fitness(trace[|trace| - 1]))
    ensures Climbed(trace + [x], limits, draws, select, sqrt)
    ensures PlateauCount(trace + [x]) == PlateauCount(trace) + (if x == trace[|trace| - 1] then 1 else 0)
    ensures NoStopBefore(trace + [x], |trace| - 1, maxPlatoTime) && CallbackDeclined(trace + [x], |trace|, callback, fitness)
    ensures StopsAt(trace + [x], |trace| - 1, maxPlatoTime) <==> x == trace[|trace| - 1] && PlateauCount(trace + [x]) == maxPlatoTime
  {
    TraceSnoc(trace, x, maxPlatoTime);
    ClimbedSnoc(trace, x, limits, draws, select, sqrt);
    var t := trace + [x];
    forall j | 0 <= j < |trace| - 1
      ensures !StopsAt(t, j, maxPlatoTime)
    {
      assert !StopsAt(trace, j, maxPlatoTime);
    }
    DeclinedPrefix(trace, x, |trace| - 1, callback, fitness);
    assert t[|trace| - 1] == trace[|trace| - 1];
  }

  /** The trace extended by the incumbent that iteration |trace| - 1 selects is still a trace of the climb. */
  lemma ClimbedSnoc(trace: seq<Individual>, x: Individual, limits: seq<Limit>, draws: ClimbDraws,
                    select: (Individual, Individual) -> Individual, sqrt: real -> real)
    requires Climbed(trace, limits, draws, select, sqrt) && |trace| <= |draws.steps|
    requires |trace[|trace| - 1]| == |limits|
    requires x == select(trace[|trace| - 1], MutatedUpTo(trace[|trace| - 1], limits, draws.steps[|trace| - 1], sqrt, |limits|))
    ensures Climbed(trace + [x], limits, draws, select, sqrt)
  {
    var t := trace + [x];
    forall j | 0 <= j < |t| - 1
      ensures Follows(t, j, limits, draws, select, sqrt)
    {
      assert t[j] == trace[j];
      if j < |trace| - 1 {
        assert Follows(trace, j, limits, draws, select, sqrt);
        assert t[j + 1] == trace[j + 1];
      }
    }
  }

  /** Lines 53-59: a mutated clone of the incumbent, then what select keeps of the incumbent and the clone. */
  method Challenge(best: Individual, limits: seq<Limit>, z: seq<real>, select: (Individual, Individual) -> Individual,
                   sqrt: real -> real) returns (r: Result<Individual>)
    requires IsSqrt(sqrt) && ChoosesOneOf(select) && |best| == |limits| <= |z|
    requires Ordered(limits) ==> InLimits(best, limits)
    ensures r.Failure? ==> r.error == InvalidScale && !Ordered(limits)
    ensures r.Success? ==> Ordered(limits) && |r.value| == |limits| && InLimits(r.value, limits)
    ensures r.Success? ==> r.value == select(best, MutatedUpTo(best, limits, z, sqrt, |limits|))
  {
    var applicant := MutateClone(best, limits, z, sqrt);
    if applicant.Failure? {
      assert limits[FirstUnmutable(|best|, limits, 0)].high < limits[FirstUnmutable(|best|, limits, 0)].low;
      return Failure(applicant.error);
    }
    var kept := select(best, applicant.value);
    assert kept == best || kept == applicant.value;
    return Success(kept);
  }

  /**
   * The end of one climb: the incumbent and its fitness (what the function
   * returns), and the loop's counters time_on_plato and gen, and whether the
   * callback ended the loop.
   */
  datatype Climb = Climb(best: Individual, fit: real, timeOnPlato: int, generations: nat, stoppedByCallback: bool)

  /**
   * c is how a climb over the given draws ends, with trace its incumbents:
   * the last incumbent and its fitness are returned, time_on_plato counts the
   * iterations that kept an equal incumbent over the whole trace, the loop
   * ended at the first iteration where that count reached max_plato_time
   * unless the callback ended it first, and the callback declined every
   * earlier incumbent.
   */
  ghost predicate ClimbOf(c: Climb, trace: seq<Individual>, limits: seq<Limit>, draws: ClimbDraws,
                          select: (Individual, Individual) -> Individual, sqrt: real -> real, maxPlatoTime: int,
                          callback: Option<real -> bool>, fitness: Individual -> real)
  {
    && Climbed(trace, limits, draws, select, sqrt) && c.best == trace[|trace| - 1]
    && c.fit == fitness(c.best)
    && c.timeOnPlato == PlateauCount(trace)
    && c.generations == |trace| - (if c.stoppedByCallback then 1 else 2)
    && (forall j :: 0 <= j < |trace| - 1 ==> (StopsAt(trace, j, maxPlatoTime) <==> !c.stoppedByCallback && j == |trace| - 2))
    && CallbackDeclined(trace, |trace| - 1, callback, fitness)
    && (c.stoppedByCallback ==> CallbackStops(callback, c.fit))
  }

  /**
   * one_plus_one_onecall: mutate a clone of the incumbent, select between the
   * two, ask the callback about the incumbent's fitness, and count every
   * iteration that keeps an equal incumbent. The counter is never reset, so
   * the loop ends after max_plato_time non-improving iterations in all, or
   * when the callback returns True; with neither it runs until the supplied
   * draws are used up.
   */
  method OnePlusOneOnecall(fitness: Individual -> real, limits: seq<Limit>, maxPlatoTime: int,
                           callback: Option<real -> bool>, select: (Individual, Individual) -> Individual,
                           sqrt: real -> real, draws: ClimbDraws) returns (r: Result<Climb>, ghost trace: seq<Individual>)
    requires IsSqrt(sqrt) && ChoosesOneOf(select) && ClimbDrawsFit(draws, |limits|)
    ensures r.Failure? ==> r.error == DrawsExhausted || (r.error == InvalidScale && !Ordered(limits))
    ensures r.Success? ==> Ordered(limits) && |r.value.best| == |limits| && InLimits(r.value.best, limits)
    ensures r.Success? ==> r.value.fit == fitness(r.value.best)
    ensures r.Success? ==> r.value.stoppedByCallback || r.value.timeOnPlato == maxPlatoTime
    ensures r.Success? && r.value.stoppedByCallback ==> callback.Some? && callback.value(r.value.fit)
    ensures r.Success? && !r.value.stoppedByCallback ==> 1 <= maxPlatoTime
    ensures r.Success? && KeepsFittest(select, fitness) ==> r.value.fit >= fitness(UniformIndividual(limits, draws.start))
    ensures r.Success? ==> ClimbOf(r.value, trace, limits, draws, select, sqrt, maxPlatoTime, callback, fitness)
  {
    var best := UniformIndividual(limits, draws.start);
    var fit := fitness(best);
    ghost var initialFit := fit;
    var timeOnPlato := 0;
    var gen := 0;
    trace := [best];
    while true
      invariant 0 <= gen <= |draws.steps|
      invariant |trace| == gen + 1 && trace[gen] == best && Climbed(trace, limits, draws, select, sqrt)
      invariant timeOnPlato == PlateauCount(trace)
      invariant NoStopBefore(trace, gen, maxPlatoTime) && CallbackDeclined(trace, gen, callback, fitness)
      invariant |best| == |limits| && fit == fitness(best)
      invariant 0 < gen ==> Ordered(limits)
      invariant Ordered(limits) ==> InLimits(best, limits)
      invariant KeepsFittest(select, fitness) ==> fit >= initialFit
      decreases |draws.steps| - gen
    {
      if gen == |draws.steps| {
        return Failure(DrawsExhausted), trace;
      }
      var challenged := Challenge(best, limits, draws.steps[gen], select, sqrt);
      if challenged.Failure? {
        return Failure(challenged.error), trace;
      }
      var newBest := challenged.value;
      if CallbackStops(callback, fit) {
        StopsOnlyAt(trace, gen, maxPlatoTime, false);
        return Success(Climb(best, fit, timeOnPlato, gen, true)), trace;
      }
      ClimbStep(trace, newBest, limits, draws, select, sqrt, maxPlatoTime, callback, fitness);
      if newBest == best {
        timeOnPlato := timeOnPlato + 1;
        if timeOnPlato == maxPlatoTime {
          StopsOnlyAt(trace + [newBest], gen, maxPlatoTime, true);
          return Success(Climb(best, fit, timeOnPlato, gen, false)), trace + [newBest];
        }
      }
      trace := trace + [newBest];
      best := newBest;
      fit := fitness(best);
      gen := gen + 1;
    }
  }

  // ---------------------------------------------------------------------------
  // one_plus_one (lines 77-91)

  /** The (best, fit) pair one_plus_one keeps over the climbs: a later climb replaces it only with a strictly larger fitness. */
  function BestOfRuns(runs: seq<Climb>): (r: (Individual, real))
    requires |runs| > 0
    ensures exists k :: 0 <= k < |runs| && r == (runs[k].best, runs[k].fit)
    ensures forall k :: 0 <= k < |runs| ==> runs[k].fit <= r.1
    decreases |runs|
  {
    if |runs| == 1 then (runs[0].best, runs[0].fit)
    else
      var kept := BestOfRuns(runs[..|runs| - 1]);
      var last := runs[|runs| - 1];
      if last.fit > kept.1 then (last.best, last.fit) else kept
  }

  /** The kept pair comes from the first climb that reaches the largest fitness. */
  lemma {:induction false} BestOfRunsIsFirstMaximum(runs: seq<Climb>) returns (j: nat)
    requires |runs| > 0
    ensures j < |runs| && BestOfRuns(runs) == (runs[j].best, runs[j].fit)
    ensures forall k :: 0 <= k < |runs| ==> runs[k].fit <= runs[j].fit
    ensures forall k :: 0 <= k < j ==> runs[k].fit < runs[j].fit
    decreases |runs|
  {
    if |runs| == 1 {
      j := 0;
    } else {
      var front := runs[..|runs| - 1];
      var i := BestOfRunsIsFirstMaximum(front);
      assert forall k :: 0 <= k < |front| ==> front[k] == runs[k];
      if runs[|runs| - 1].fit > runs[i].fit {
        j := |runs| - 1;
      } else {
        j := i;
      }
    }
  }

  /** No climb before position k ended because of the callback. */
  ghost predicate ContinuedBefore(runs: seq<Climb>, k: int)
  {
    forall j :: 0 <= j < k && j < |runs| ==> !runs[j].stoppedByCallback
  }

  /** Every climb returned an incumbent inside the limits together with its own fitness. */
  ghost predicate Incumbents(runs: seq<Climb>, fitness: Individual -> real, limits: seq<Limit>)
  {
    forall j :: 0 <= j < |runs| ==> runs[j].fit == fitness(runs[j].best) && InLimits(runs[j].best, limits)
  }

  /** Lines 88-89 for one more climb: the first climb is kept, a later one only with a strictly larger fitness. */
  lemma BestOfRunsSnoc(runs: seq<Climb>, c: Climb)
    ensures BestOfRuns(runs + [c]) ==
      if |runs| == 0 || c.fit > BestOfRuns(runs).1 then (c.best, c.fit) else BestOfRuns(runs)
  {
    assert (runs + [c])[..|runs|] == runs;
  }

  /** Climb k is how the climb over restarts[k] ended, with traces[k] its incumbents. */
  ghost predicate ClimbsOf(runs: seq<Climb>, traces: seq<seq<Individual>>, limits: seq<Limit>, restarts: seq<ClimbDraws>,
                           select: (Individual, Individual) -> Individual, sqrt: real -> real, maxPlatoTime: int,
                           callback: Option<real -> bool>, fitness: Individual -> real)
  {
    && |traces| == |runs| <= |restarts|
    && forall k :: 0 <= k < |runs| ==>
      ClimbOf(runs[k], traces[k], limits, restarts[k], select, sqrt, maxPlatoTime, callback, fitness)
  }

  /** The climb over the next restart extends the record of climbs. */
  lemma ClimbsOfSnoc(runs: seq<Climb>, traces: seq<seq<Individual>>, c: Climb, t: seq<Individual>, limits: seq<Limit>,
                     restarts: seq<ClimbDraws>, select: (Individual, Individual) -> Individual, sqrt: real -> real,
                     maxPlatoTime: int, callback: Option<real -> bool>, fitness: Individual -> real)
    requires ClimbsOf(runs, traces, limits, restarts, select, sqrt, maxPlatoTime, callback, fitness) && |runs| < |restarts|
    requires ClimbOf(c, t, limits, restarts[|runs|], select, sqrt, maxPlatoTime, callback, fitness)
    ensures ClimbsOf(runs + [c], traces + [t], limits, restarts, select, sqrt, maxPlatoTime, callback, fitness)
  {
    forall k | 0 <= k < |runs| + 1
      ensures ClimbOf((runs + [c])[k], (traces + [t])[k], limits, restarts[k], select, sqrt, maxPlatoTime, callback, fitness)
    {
      if k < |runs| {
        assert (runs + [c])[k] == runs[k] && (traces + [t])[k] == traces[k];
      }
    }
  }

  /** One more climb that returned its incumbent with its own fitness, inside the limits. */
  lemma RunsSnoc(runs: seq<Climb>, c: Climb, fitness: Individual -> real, limits: seq<Limit>)
    requires Incumbents(runs, fitness, limits) && ContinuedBefore(runs, |runs|)
    requires c.fit == fitness(c.best) && InLimits(c.best, limits)
    ensures Incumbents(runs + [c], fitness, limits)
    ensures ContinuedBefore(runs + [c], if c.stoppedByCallback then |runs| else |runs| + 1)
  {
    assert forall j :: 0 <= j < |runs| ==> (runs + [c])[j] == runs[j];
  }

  /**
   * one_plus_one: restart the climber until the callback returns True during
   * a climb, keeping the best climb. The stop flag is raised by the wrapped
   * callback exactly when a climb ends because of it.
   */
  method OnePlusOne(fitness: Individual -> real, limits: seq<Limit>, maxPlatoTime: int, callback: real -> bool,
                    select: (Individual, Individual) -> Individual, sqrt: real -> real, restarts: seq<ClimbDraws>)
    returns (r: Result<(Individual, real)>, ghost runs: seq<Climb>, ghost traces: seq<seq<Individual>>)
    requires IsSqrt(sqrt) && ChoosesOneOf(select)
    requires forall k :: 0 <= k < |restarts| ==> ClimbDrawsFit(restarts[k], |limits|)
    ensures r.Failure? ==> r.error == DrawsExhausted || (r.error == InvalidScale && !Ordered(limits))
    ensures r.Success? ==> 0 < |runs| <= |restarts| && r.value == BestOfRuns(runs)
    ensures r.Success? ==> runs[|runs| - 1].stoppedByCallback && callback(runs[|runs| - 1].fit)
    ensures r.Success? ==> forall k :: 0 <= k < |runs| - 1 ==> !runs[k].stoppedByCallback
    ensures r.Success? ==> r.value.1 == fitness(r.value.0) && InLimits(r.value.0, limits)
    ensures r.Success? ==> Incumbents(runs, fitness, limits)
    ensures r.Success? ==> ClimbsOf(runs, traces, limits, restarts, select, sqrt, maxPlatoTime, Some(callback), fitness)
  {
    var stop := false;
    var kept: Option<(Individual, real)> := None;
    runs, traces := [], [];
    var k := 0;
    while !stop
      invariant 0 <= k <= |restarts| && |runs| == k
      invariant kept == if k == 0 then None else Some(BestOfRuns(runs))
      invariant stop ==> 0 < k && runs[k - 1].stoppedByCallback && callback(runs[k - 1].fit)
      invariant ContinuedBefore(runs, if stop then k - 1 else k)
      invariant Incumbents(runs, fitness, limits)
      invariant ClimbsOf(runs, traces, limits, restarts, select, sqrt, maxPlatoTime, Some(callback), fitness)
      decreases |restarts| - k
    {
      if k == |restarts| {
        return Failure(DrawsExhausted), runs, traces;
      }
      var climb;
      ghost var climbTrace;
      climb, climbTrace := OnePlusOneOnecall(fitness, limits, maxPlatoTime, Some(callback), select, sqrt, restarts[k]);
      if climb.Failure? {
        return Failure(climb.error), runs, traces;
      }
      var c := climb.value;
      stop := c.stoppedByCallback;
      BestOfRunsSnoc(runs, c);
      RunsSnoc(runs, c, fitness, limits);
      ClimbsOfSnoc(runs, traces, c, climbTrace, limits, restarts, select, sqrt, maxPlatoTime, Some(callback), fitness);
      if kept.None? || c.fit > kept.value.1 {
        kept := Some((c.best, c.fit));
      }
      runs, traces := runs + [c], traces + [climbTrace];
      k := k + 1;
    }
    return Success(kept.value), runs, traces;
  }

  // ---------------------------------------------------------------------------
  // genetic (lines 93-144)

  /** The index max(pop, key=fitness) returns: the first individual of largest fitness. */
  function FirstFittest(pop: seq<Individual>, fitness: Individual -> real): (b: nat)
    requires |pop| > 0
    ensures b < |pop|
    ensures forall k :: 0 <= k < |pop| ==> fitness(pop[k]) <= fitness(pop[b])
    ensures forall k :: 0 <= k < b ==> fitness(pop[k]) < fitness(pop[b])
    decreases |pop|
  {
    if |pop| == 1 then 0
    else
      var b := FirstFittest(pop[..|pop| - 1], fitness);
      if fitness(pop[|pop| - 1]) > fitness(pop[b]) then |pop| - 1 else b
  }

  /**
   * Element c after the pairing loop of lines 132-135: the pairs (0, 1),
   * (2, 3), ... are replaced by what mate makes of them; an unpaired last
   * element stays.
   */
  function MatedAt(cs: seq<Individual>, mate: (Individual, Individual) -> (Individual, Individual), c: nat): Individual
    requires c < |cs|
  {
    if c % 2 == 0 then (if c + 1 < |cs| then mate(cs[c], cs[c + 1]).0 else cs[c])
    else mate(cs[c - 1], cs[c]).1
  }

  /** The pairing loop of genetic: toolbox.mate on each consecutive pair of the tournament winners. */
  method MatePairs(cs: seq<Individual>, mate: (Individual, Individual) -> (Individual, Individual)) returns (r: seq<Individual>)
    ensures |r| == |cs|
    ensures forall c :: 0 <= c < |cs| ==> r[c] == MatedAt(cs, mate, c)
  {
    r := cs;
    var j := 0;
    while j + 1 < |cs|
      invariant 0 <= j <= |cs| && j % 2 == 0 && |r| == |cs|
      invariant forall c :: 0 <= c < |cs| ==> r[c] == if c < j then MatedAt(cs, mate, c) else cs[c]
    {
      var children := mate(r[j], r[j + 1]);
      r := r[j := children.0][j + 1 := children.1];
      j := j + 2;
    }
  }

  /** The mutation loop of genetic: each sampled individual cloned and mutated; DrawsExhausted when the normal variates supplied do not cover it. */
  method MutateAll(parents: seq<Individual>, limits: seq<Limit>, noise: seq<seq<real>>, sqrt: real -> real)
    returns (r: Result<seq<Individual>>)
    requires IsSqrt(sqrt)
    ensures r.Success? ==> |r.value| == |parents| <= |noise|
    ensures r.Success? ==> forall k :: 0 <= k < |parents| ==>
      |parents[k]| <= |noise[k]| && |parents[k]| <= |limits| && r.value[k] == MutatedUpTo(parents[k], limits, noise[k], sqrt, |parents[k]|)
      && InLimits(r.value[k], limits)
    ensures r.Failure? ==> r.error in {IndexOutOfRange, InvalidScale, DrawsExhausted}
  {
    var mutants: seq<Individual> := [];
    var k := 0;
    while k < |parents|
      invariant 0 <= k <= |parents| && |mutants| == k
      invariant k <= |noise|
      invariant forall j :: 0 <= j < k ==>
        |parents[j]| <= |noise[j]| && |parents[j]| <= |limits| && mutants[j] == MutatedUpTo(parents[j], limits, noise[j], sqrt, |parents[j]|)
        && InLimits(mutants[j], limits)
    {
      if k >= |noise| || |noise[k]| < |parents[k]| {
        return Failure(DrawsExhausted);
      }
      var m := MutateClone(parents[k], limits, noise[k], sqrt);
      if m.Failure? {
        return Failure(m.error);
      }
      mutants := mutants + [m.value];
      k := k + 1;
    }
    return Success(mutants);
  }

  /** The DEAP and random-module calls of genetic; the integers are a requested count and a raw draw. */
  datatype Library = Library(
    selBest: (seq<Individual>, int) -> seq<Individual>,
    selTournament: (seq<Individual>, int, nat) -> seq<Individual>,
    sample: (seq<Individual>, int, nat) -> seq<Individual>,
    mate: (Individual, Individual) -> (Individual, Individual))

  /** Each selection returns as many individuals as it was asked for (sample only when it does not raise). */
  ghost predicate ReturnsRequestedCounts(lib: Library)
  {
    && (forall p, k :: 0 <= k <= |p| ==> |lib.selBest(p, k)| == k)
    && (forall p, k, d :: 0 <= k ==> |lib.selTournament(p, k, d)| == k)
    && (forall p, k, d :: 0 <= k <= |p| ==> |lib.sample(p, k, d)| == k)
  }

  /** The draws of one generation: the tournament's, the sample's, and a vector of normal variates per mutant. */
  datatype GenerationPicks = GenerationPicks(tournament: nat, sample: nat, noise: seq<seq<real>>)

  /** The initial population of genetic: popsize individuals of ind_function (none for a negative popsize). */
  function InitialIndividuals(limits: seq<Limit>, u: seq<seq<real>>, popsize: int): (pop: seq<Individual>)
    requires popsize <= |u| && forall k :: 0 <= k < |u| ==> |u[k]| == |limits| && UnitDraws(u[k])
    ensures |pop| == if popsize < 0 then 0 else popsize
    ensures forall k :: 0 <= k < |pop| ==> |pop[k]| == |limits|
  {
    seq(if popsize < 0 then 0 else popsize, k requires 0 <= k < popsize => UniformIndividual(limits, u[k]))
  }

  /** The population of the next generation: elite, then mated tournament winners, then mutants. */
  method Breed(pop: seq<Individual>, sizes: Sizes, limits: seq<Limit>, lib: Library, picks: GenerationPicks, sqrt: real -> real)
    returns (r: Result<seq<Individual>>)
    requires IsSqrt(sqrt)
    ensures r.Success? ==> 0 <= sizes.mutated <= |pop|
    ensures r.Success? && ReturnsRequestedCounts(lib) && 0 <= sizes.elite <= |pop| && 0 <= sizes.crossovered ==>
      |r.value| == sizes.elite + sizes.crossovered + sizes.mutated
    ensures r.Success? ==>
      var e := lib.selBest(pop, sizes.elite);
      var w := lib.selTournament(pop, sizes.crossovered, picks.tournament);
      var m := lib.sample(pop, sizes.mutated, picks.sample);
      && |r.value| == |e| + |w| + |m| && |m| <= |picks.noise|
      && r.value[..|e|] == e
      && (forall c :: 0 <= c < |w| ==> r.value[|e| + c] == MatedAt(w, lib.mate, c))
      && (forall k :: 0 <= k < |m| ==>
            |m[k]| <= |picks.noise[k]| && |m[k]| <= |limits|
            && r.value[|e| + |w| + k] == MutatedUpTo(m[k], limits, picks.noise[k], sqrt, |m[k]|))
    ensures r.Failure? ==> r.error in {InvalidSample, IndexOutOfRange, InvalidScale, DrawsExhausted}
  {
    var elite := lib.selBest(pop, sizes.elite);
    var crossovered := MatePairs(lib.selTournament(pop, sizes.crossovered, picks.tournament), lib.mate);
    if sizes.mutated < 0 || sizes.mutated > |pop| {
      return Failure(InvalidSample);
    }
    var mutated := MutateAll(lib.sample(pop, sizes.mutated, picks.sample), limits, picks.noise, sqrt);
    if mutated.Failure? {
      return Failure(mutated.error);
    }
    return Success(elite + crossovered + mutated.value);
  }

  /**
   * genetic: the shares are checked, a random population is made, and each
   * generation finds its fittest individual, asks the callback about it, and
   * breeds the next population. The result is the fittest individual of the
   * last population evaluated, which is not the one bred last.
   */
  method Genetic(fitness: Individual -> real, limits: seq<Limit>, generations: int, popsize: int,
                 elitepercent: real, crossoveredpercent: real, callback: Option<real -> bool>, lib: Library,
                 sqrt: real -> real, initial: seq<seq<real>>, picks: seq<GenerationPicks>)
    returns (r: Result<(Individual, real)>, ghost lastPop: seq<Individual>)
    requires IsSqrt(sqrt) && generations <= |picks|
    requires popsize <= |initial| && forall k :: 0 <= k < |initial| ==> |initial[k]| == |limits| && UnitDraws(initial[k])
    ensures Partition(popsize, elitepercent, crossoveredpercent).Failure? ==> r == Failure(AssertionFailed)
    ensures Partition(popsize, elitepercent, crossoveredpercent).Success? && generations <= 0 ==> r == Failure(UnboundResult)
    ensures Partition(popsize, elitepercent, crossoveredpercent).Success? && 0 < generations && popsize <= 0 ==> r == Failure(EmptyPopulation)
    ensures r.Success? ==> r.value.1 == fitness(r.value.0) && r.value.0 in lastPop
    ensures r.Success? ==> forall x :: x in lastPop ==> fitness(x) <= r.value.1
    ensures r.Success? ==> |lastPop| > 0 && r.value.0 == lastPop[FirstFittest(lastPop, fitness)]
    ensures r.Success? && generations == 1 ==> lastPop == InitialIndividuals(limits, initial, popsize)
    ensures r.Success? && ReturnsRequestedCounts(lib) && 0.0 <= elitepercent && 0.0 <= crossoveredpercent ==>
      |lastPop| == popsize
    ensures r.Failure? ==> r.error in {AssertionFailed, UnboundResult, EmptyPopulation, InvalidSample, IndexOutOfRange, InvalidScale, DrawsExhausted}
  {
    lastPop := [];
    var partition := Partition(popsize, elitepercent, crossoveredpercent);
    if partition.Failure? {
      return Failure(AssertionFailed), lastPop;
    }
    var sizes := partition.value;
    ghost var counted := ReturnsRequestedCounts(lib) && 0.0 <= elitepercent && 0.0 <= crossoveredpercent;
    if counted && 0 <= popsize {
      PartitionSucceeds(popsize, elitepercent, crossoveredpercent);
    }
    var pop := InitialIndividuals(limits, initial, popsize);
    var best: Option<(Individual, real)> := None;
    var gen := 0;
    while gen < generations
      invariant 0 <= gen && (gen <= generations || gen == 0)
      invariant popsize <= 0 ==> gen == 0
      invariant best.None? <==> gen == 0
      invariant counted && 0 <= popsize ==> |pop| == popsize
      invariant gen == 0 ==> pop == InitialIndividuals(limits, initial, popsize)
      invariant best.Some? ==> best.value.1 == fitness(best.value.0) && best.value.0 in lastPop
      invariant best.Some? ==> forall x :: x in lastPop ==> fitness(x) <= best.value.1
      invariant best.Some? && counted ==> |lastPop| == popsize
      invariant best.Some? ==> |lastPop| > 0 && best.value.0 == lastPop[FirstFittest(lastPop, fitness)]
      invariant best.Some? && gen <= 1 ==> lastPop == InitialIndividuals(limits, initial, popsize)
    {
      if |pop| == 0 {
        return Failure(EmptyPopulation), lastPop;
      }
      var b := FirstFittest(pop, fitness);
      best := Some((pop[b], fitness(pop[b])));
      lastPop := pop;
      forall x | x in lastPop
        ensures fitness(x) <= best.value.1
      {
        var k :| 0 <= k < |pop| && pop[k] == x;
      }
      if callback.Some? && callback.value(best.value.1) {
        break;
      }
      var next := Breed(pop, sizes, limits, lib, picks[gen], sqrt);
      if next.Failure? {
        return Failure(next.error), lastPop;
      }
      pop := next.value;
      gen := gen + 1;
    }
    if best.None? {
      return Failure(UnboundResult), lastPop;
    }
    return Success(best.value), lastPop;
  }
}
