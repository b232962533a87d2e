/**
 * jade::SubPopulation (scattnlay/examples/dipole_ml/jade.cpp): the state of
 * one JADE optimizer and the methods that configure it and run it.
 *
 * Every random variate is a parameter (see module Draws). FitnessFunction,
 * which jade.h declares, is the constant `fitness`; std::sqrt is the constant
 * `sqrt`, required to be an exact square root. The defaults that jade.h gives
 * to the generation count, the optimisation direction, the PMCRADE switch, p
 * and c are constructor parameters.
 */
module Jade {
  import opened Outcomes
  import opened Draws
  import opened Variation
  import opened Ranking
  import opened Archive
  import opened Adaptation

  /** Every vector of xs has d components. */
  ghost predicate Rows(xs: seq<seq<real>>, d: int)
  {
    forall k :: 0 <= k < |xs| ==> |xs[k]| == d
  }

  /** Every vector of xs lies in the box [lb, ub]. */
  ghost predicate AllInBox(xs: seq<seq<real>>, lb: seq<real>, ub: seq<real>)
  {
    forall k :: 0 <= k < |xs| ==> InBox(xs[k], lb, ub)
  }

  /** lb[c] <= ub[c] for every component. */
  predicate BoundsOrdered(lb: seq<real>, ub: seq<real>)
  {
    |lb| == |ub| && forall c :: 0 <= c < |lb| ==> lb[c] <= ub[c]
  }

  /** std::vector::resize: the first n elements of s, padded with fill. */
  function Resize<T>(s: seq<T>, n: nat, fill: T): (r: seq<T>)
    ensures |r| == n
    ensures forall k :: 0 <= k < n ==> r[k] == if k < |s| then s[k] else fill
  {
    if n <= |s| then s[..n] else s + seq(n - |s|, _ => fill)
  }

  /** Resize to n vectors, then every vector to d components padded with zeros. */
  function ResizeRows(xs: seq<seq<real>>, n: nat, d: nat): (r: seq<seq<real>>)
    ensures |r| == n && Rows(r, d)
    ensures forall k :: 0 <= k < n ==> r[k] == Resize(if k < |xs| then xs[k] else [], d, 0.0)
  {
    var r := seq(n, k requires 0 <= k < n => Resize(if k < |xs| then xs[k] else [], d, 0.0));
    assert forall k :: 0 <= k < n ==> r[k] == Resize(if k < |xs| then xs[k] else [], d, 0.0);
    r
  }

  /** One random vector of the initial population: component c is rand(lb[c], ub[c]) for the unit draw u[c]. */
  function UniformRow(u: seq<real>, lb: seq<real>, ub: seq<real>): (x: seq<real>)
    requires |u| == |lb| == |ub| && UnitDraws(u)
    ensures |x| == |u|
    ensures BoundsOrdered(lb, ub) ==> InBox(x, lb, ub)
  {
    seq(|u|, c requires 0 <= c < |u| => Rand(lb[c], ub[c], u[c]))
  }

  /** The unit draws for n vectors of d components. */
  predicate PopulationDrawsFit(u: seq<seq<real>>, n: nat, d: int)
  {
    n <= |u| && forall k :: 0 <= k < n ==> |u[k]| == d && UnitDraws(u[k])
  }

  /** The population CreateInitialPopulation builds: n - |feed| random vectors followed by the feed vectors. */
  function InitialPopulation(u: seq<seq<real>>, lb: seq<real>, ub: seq<real>, feed: seq<seq<real>>, n: nat): (xs: seq<seq<real>>)
    requires |feed| < n && |lb| == |ub| && PopulationDrawsFit(u, n, |lb|)
    ensures |xs| == n
    ensures xs[n - |feed|..] == feed
    ensures Rows(xs[..n - |feed|], |lb|)
    ensures BoundsOrdered(lb, ub) ==> AllInBox(xs[..n - |feed|], lb, ub)
  {
    var random := seq(n - |feed|, k requires 0 <= k < n - |feed| => UniformRow(u[k], lb, ub));
    assert (random + feed)[..n - |feed|] == random;
    random + feed
  }

  /** The cleaned archive still holds vectors of d components. */
  lemma CleanedRows(s: seq<seq<real>>, draws: seq<nat>, cap: nat, d: int)
    requires |s| <= cap + |draws| && Rows(s, d)
    ensures Rows(Cleaned(s, draws, cap), d)
  {
    var r := Cleaned(s, draws, cap);
    CleanedIsSubsequence(s, draws, cap);
    SubsequenceMultiset(r, s);
    forall k | 0 <= k < |r|
      ensures |r[k]| == d
    {
      assert r[k] in multiset(s);
    }
  }

  /** rk holds one entry per slot of xs with the fitness of that slot's vector, best first. */
  ghost predicate RankedBy(rk: seq<Entry>, xs: seq<seq<real>>, fitness: seq<real> -> real, findMinimum: bool)
  {
    OnePerSlot(rk, |xs|) && Consistent(rk, xs, fitness) && SortedRanking(rk, findMinimum)
  }

  /** Sorting the evaluations of a population gives a ranking with one consistent entry per slot, best first. */
  lemma EvaluationsSortedRanked(xs: seq<seq<real>>, fitness: seq<real> -> real, findMinimum: bool)
    ensures RankedBy(SortRanking(Evaluations(xs, fitness), findMinimum), xs, fitness, findMinimum)
  {
    SortKeepsEntries(Evaluations(xs, fitness), xs, fitness, findMinimum);
    SortRankingSorted(Evaluations(xs, fitness), findMinimum);
  }

  /** Sorting a ranking with one consistent entry per slot ranks that population. */
  lemma SortedRankedBy(rk: seq<Entry>, xs: seq<seq<real>>, fitness: seq<real> -> real, findMinimum: bool)
    requires OnePerSlot(rk, |xs|) && Consistent(rk, xs, fitness)
    ensures RankedBy(SortRanking(rk, findMinimum), xs, fitness, findMinimum)
  {
    SortKeepsEntries(rk, xs, fitness, findMinimum);
    SortRankingSorted(rk, findMinimum);
  }

  // ---------------------------------------------------------------------------
  // Donor choice and mutation as functions of the state and the draws

  /**
   * The slot GetXpBestCurrent reads: the slot recorded at ranking position
   * randint(0, floor(N * p)). A position past the ranking leaves the index at
   * -1, and std::vector::at then throws; so does a recorded slot past the population.
   */
  function PBestSlot(rk: seq<Entry>, n: nat, p: real, draw: nat, size: nat): (r: Result<nat>)
    requires 0.0 <= p
    ensures r.Success? ==> r.value < size
    ensures r.Success? <==> RandInt(0, BestCount(n, p), draw) < |rk| && 0 <= rk[RandInt(0, BestCount(n, p), draw)].slot < size
  {
    var pos := RandInt(0, BestCount(n, p), draw);
    if pos < |rk| && 0 <= rk[pos].slot < size then Success(rk[pos].slot) else Failure(IndexOutOfRange)
  }

  /** Candidate v of GetXRandomArchiveAndCurrent: the population first, then the archive in order. */
  function ArchiveDonor(xs: seq<seq<real>>, archive: seq<seq<real>>, v: nat): (x: seq<real>)
    requires v < |xs| + |archive|
    ensures x in xs || x in archive
  {
    if v < |xs| then xs[v] else archive[v - |xs|]
  }

  /**
   * The mutant vector that Mutation(i) returns: pbest from the ranking, r1 from
   * the population avoiding i, r2 from population and archive avoiding r1 and i.
   */
  function MutationOf(xs: seq<seq<real>>, archive: seq<seq<real>>, rk: seq<Entry>, lb: seq<real>, ub: seq<real>,
                      p: real, f: real, i: nat, d: IndividualDraws): (r: Result<seq<real>>)
    requires 1 <= |xs| && i < |xs| && |lb| == |ub| && Rows(xs, |lb|) && Rows(archive, |lb|) && 0.0 <= p
    ensures r.Success? ==> |r.value| == |lb|
    ensures r.Success? && InBox(xs[i], lb, ub) ==> InBox(r.value, lb, ub)
    ensures r.Failure? ==> r.error == IndexOutOfRange || r.error == DrawsExhausted
  {
    var pbest :- PBestSlot(rk, |xs|, p, d.pbest, |xs|);
    match FirstAvoiding(d.r1, |xs|, i, i)
    case None => Failure(DrawsExhausted)
    case Some(r1) =>
      match FirstAvoiding(d.r2, |xs| + |archive|, r1, i)
      case None => Failure(DrawsExhausted)
      case Some(r2) =>
        var x2 := ArchiveDonor(xs, archive, r2);
        assert |x2| == |lb|;
        Success(Mutant(xs[i], xs[pbest], xs[r1], x2, f, lb, ub))
  }

  /** The fitness Selection compares against: the recorded one, or 0.0 when slot s has no record. */
  function RecordedFitness(rk: seq<Entry>, s: int): (r: real)
    ensures s !in Slots(rk) ==> r == 0.0
    ensures s in Slots(rk) ==> exists k :: 0 <= k < |rk| && rk[k].slot == s && rk[k].fitness == r
  {
    match FitnessRecord(rk, s)
    case None => 0.0
    case Some(f) => f
  }

  /** The crossover of an in-box mutant with an in-box parent is in the box. */
  lemma CrossoverInBoxIf(v: seq<real>, x: seq<real>, jrand: nat, u: seq<real>, cr: real, lb: seq<real>, ub: seq<real>)
    requires |v| == |x| == |u| && jrand < |x|
    ensures InBox(v, lb, ub) && InBox(x, lb, ub) ==> InBox(CrossoverOf(v, x, jrand, u, cr), lb, ub)
  {
    if InBox(v, lb, ub) && InBox(x, lb, ub) {
      CrossoverInBox(v, x, jrand, u, cr, lb, ub);
    }
  }

  /** With ordered bounds and feed vectors inside them, the whole initial population is inside the box. */
  lemma InitialInBox(u: seq<seq<real>>, lb: seq<real>, ub: seq<real>, feed: seq<seq<real>>, n: nat)
    requires |feed| < n && |lb| == |ub| && PopulationDrawsFit(u, n, |lb|)
    ensures Rows(feed, |lb|) ==> Rows(InitialPopulation(u, lb, ub, feed, n), |lb|)
    ensures BoundsOrdered(lb, ub) && AllInBox(feed, lb, ub) ==> AllInBox(InitialPopulation(u, lb, ub, feed, n), lb, ub)
  {
    var xs := InitialPopulation(u, lb, ub, feed, n);
    var m := n - |feed|;
    forall k | m <= k < n
      ensures xs[k] == feed[k - m]
    {
      assert xs[m..][k - m] == xs[k];
    }
    forall k | 0 <= k < m
      ensures xs[k] == xs[..m][k]
    {
    }
  }

  /** In a ranked population the record Selection finds for slot i is the fitness of vector i, and the head is at least as good. */
  lemma ParentRecord(rk: seq<Entry>, xs: seq<seq<real>>, fitness: seq<real> -> real, findMinimum: bool, i: nat)
    requires RankedBy(rk, xs, fitness, findMinimum) && i < |xs|
    ensures |rk| > 0 && FitnessRecord(rk, i).Some?
    ensures RecordedFitness(rk, i) == fitness(xs[i])
    ensures AtLeastAsGood(rk[0].fitness, fitness(xs[i]), findMinimum)
  {

    RecordIsFitness(rk, xs, fitness, i);
    HeadIsBest(rk, xs, fitness, findMinimum);
  }

  /** Writing vector y into slot s with its fitness keeps a next-generation ranking with one consistent entry per slot. */
  lemma NextRankingUpdate(rk: seq<Entry>, xs: seq<seq<real>>, fitness: seq<real> -> real, n: nat, s: nat, y: seq<real>)
    requires OnePerSlot(rk, n) && Consistent(rk, xs, fitness) && s < |xs|
    ensures OnePerSlot(WithFitness(rk, s, fitness(y)), n)
    ensures Consistent(WithFitness(rk, s, fitness(y)), xs[s := y], fitness)
  {
    WithFitnessConsistent(rk, xs, fitness, s, y);
  }

  /** Queuing a parent of d components with an F_i in (0, 1] and a CR_i in [0, 1] keeps the success sets well formed. */
  lemma SuccessAppend(pending: seq<seq<real>>, sf: seq<real>, scr: seq<real>, d: int, x: seq<real>, f: real, cr: real)
    requires Rows(pending, d) && AllPositiveUnit(sf) && AllUnit(scr)
    requires |x| == d && 0.0 < f <= 1.0 && 0.0 <= cr <= 1.0
    ensures Rows(pending + [x], d) && AllPositiveUnit(sf + [f]) && AllUnit(scr + [cr])
  {
  }

  /** What Selection relies on about the parent in slot i: its record is its fitness, and the head of the ranking is at least as good. */
  ghost predicate ParentFact(rk: seq<Entry>, xs: seq<seq<real>>, fitness: seq<real> -> real, findMinimum: bool, i: int)
  {
    && 0 <= i < |xs| && |rk| > 0
    && FitnessRecord(rk, i).Some? && RecordedFitness(rk, i) == fitness(xs[i])
    && AtLeastAsGood(rk[0].fitness, fitness(xs[i]), findMinimum)
  }

  /** ParentRecord for every slot at once. */
  lemma ParentRecords(rk: seq<Entry>, xs: seq<seq<real>>, fitness: seq<real> -> real, findMinimum: bool)
    requires RankedBy(rk, xs, fitness, findMinimum)
    ensures forall i :: 0 <= i < |xs| ==> ParentFact(rk, xs, fitness, findMinimum, i)
  {
    forall i | 0 <= i < |xs|
      ensures ParentFact(rk, xs, fitness, findMinimum, i)
    {
      ParentRecord(rk, xs, fitness, findMinimum, i);
    }
  }

  /** Vector y is at least as fit as x, and lies in the box whenever x does. */
  ghost predicate NoWorse(y: seq<real>, x: seq<real>, fitness: seq<real> -> real, findMinimum: bool, lb: seq<real>, ub: seq<real>)
  {
    AtLeastAsGood(fitness(y), fitness(x), findMinimum) && (InBox(x, lb, ub) ==> InBox(y, lb, ub))
  }

  /**
   * The best fitness never worsens: when every slot of a ranked population is
   * no worse than the same slot before, the head of the new ranking is at
   * least as good as every earlier vector, and so as the head of the earlier ranking.
   */
  lemma BestNeverWorsens(rkOld: seq<Entry>, xsOld: seq<seq<real>>, rkNew: seq<Entry>, xsNew: seq<seq<real>>,
                         fitness: seq<real> -> real, findMinimum: bool, lb: seq<real>, ub: seq<real>)
    requires RankedBy(rkNew, xsNew, fitness, findMinimum) && 0 < |xsOld| == |xsNew|
    requires forall s :: 0 <= s < |xsOld| ==> NoWorse(xsNew[s], xsOld[s], fitness, findMinimum, lb, ub)
    ensures |rkNew| > 0
    ensures forall s :: 0 <= s < |xsOld| ==> AtLeastAsGood(rkNew[0].fitness, fitness(xsOld[s]), findMinimum)
    ensures 0 < |rkOld| && Consistent(rkOld, xsOld, fitness) ==> AtLeastAsGood(rkNew[0].fitness, rkOld[0].fitness, findMinimum)
  {
    HeadIsBest(rkNew, xsNew, fitness, findMinimum);
    forall s | 0 <= s < |xsOld|
      ensures AtLeastAsGood(rkNew[0].fitness, fitness(xsOld[s]), findMinimum)
    {
      assert NoWorse(xsNew[s], xsOld[s], fitness, findMinimum, lb, ub);
    }
  }

  /** n >= 1 vectors of d >= 1 components. */
  ghost predicate Population(n: int, d: int, xs: seq<seq<real>>)
  {
    1 <= n && 1 <= d && |xs| == n && Rows(xs, d)
  }

  /** Queued parents of d components, one F_i in (0, 1] and one CR_i in [0, 1] per queued parent. */
  ghost predicate SuccessSets(pending: seq<seq<real>>, sf: seq<real>, scr: seq<real>, d: int)
  {
    && Rows(pending, d) && |pending| == |sf| == |scr|
    && AllPositiveUnit(sf) && AllUnit(scr)
  }

  class SubPopulation {
    /** FitnessFunction, declared in jade.h. */
    const fitness: seq<real> -> real
    /** std::sqrt on the non-negative reals. */
    const sqrt: real -> real

    var totalGenerations: nat          // total_generations_max_
    var findMinimum: bool              // is_find_minimum_
    var pmcrade: bool                  // isPMCRADE_
    var subpopulation: nat             // subpopulation_, N
    var dimension: int                 // dimension_, D
    var bestShareP: real               // best_share_p_
    var adaptationC: real              // adaptation_frequency_c_
    var errorStatus: bool              // error_status_ != kDone
    var isFeed: bool                   // isFeed_
    var feed: seq<seq<real>>           // x_feed_vectors_
    var lbound: seq<real>              // x_lbound_
    var ubound: seq<real>              // x_ubound_
    var current: seq<seq<real>>        // x_vectors_current_
    var next: seq<seq<real>>           // x_vectors_next_generation_
    var ranking: seq<Entry>            // evaluated_fitness_for_current_vectors_
    var nextRanking: seq<Entry>        // evaluated_fitness_for_next_generation_
    var archive: seq<seq<real>>        // archived_best_A_
    var pending: seq<seq<real>>        // to_be_archived_best_A_
    var successF: seq<real>            // successful_mutation_parameters_S_F_
    var successCR: seq<real>           // successful_crossover_parameters_S_CR_
    var mutationF: seq<real>           // mutation_F_
    var crossoverCR: seq<real>         // crossover_CR_
    var muF: real                      // adaptor_mutation_mu_F_
    var muCR: real                     // adaptor_crossover_mu_CR_

    /** sqrt is exact, and p and c are values the setters accept. */
    ghost predicate Configured()
      reads this`bestShareP, this`adaptationC
    {
      IsSqrt(sqrt) && 0.0 <= bestShareP <= 1.0 && 0.0 <= adaptationC <= 1.0
    }

    /** The population, its ranking and the bounds have the sizes Init gives them. */
    ghost predicate Sized()
      reads this`subpopulation, this`dimension, this`current, this`ranking, this`lbound, this`ubound
    {
      Population(subpopulation, dimension, current) && |ranking| == subpopulation
      && |lbound| == dimension && |ubound| == dimension
    }

    /** The next generation has N vectors of D components. */
    ghost predicate NextSized()
      reads this`subpopulation, this`dimension, this`next
    {
      Population(subpopulation, dimension, next)
    }

    /** One F_i and one CR_i per individual. */
    ghost predicate Parameters()
      reads this`subpopulation, this`mutationF, this`crossoverCR
    {
      |mutationF| == subpopulation && |crossoverCR| == subpopulation
    }

    /** Every buffer has the size Init gives it. */
    ghost predicate Shaped()
      reads this`subpopulation, this`dimension, this`current, this`next, this`ranking,
            this`lbound, this`ubound, this`mutationF, this`crossoverCR
    {
      Sized() && NextSized() && Parameters()
    }

    /** The ranking holds one entry per slot with the fitness of that slot's vector, best first. */
    ghost predicate Ranked()
      reads this`subpopulation, this`current, this`ranking, this`findMinimum
    {
      |current| == subpopulation && RankedBy(ranking, current, fitness, findMinimum)
    }

    /** The next-generation ranking holds one entry per slot with the fitness of that slot's next vector. */
    ghost predicate NextRanked()
      reads this`subpopulation, this`next, this`nextRanking
    {
      OnePerSlot(nextRanking, subpopulation) && Consistent(nextRanking, next, fitness)
    }

    /** The archive holds at most N vectors of D components; mu_F is in (0, 1] and mu_CR in [0, 1]. */
    ghost predicate Adapted()
      reads this`subpopulation, this`dimension, this`archive, this`muF, this`muCR
    {
      |archive| <= subpopulation && Rows(archive, dimension) && 0.0 < muF <= 1.0 && 0.0 <= muCR <= 1.0
    }

    /** What holds between any two steps of RunOptimization's generation loop. */
    ghost predicate Running()
      reads this`subpopulation, this`dimension, this`current, this`next, this`ranking,
            this`lbound, this`ubound, this`mutationF, this`crossoverCR, this`bestShareP,
            this`adaptationC, this`findMinimum, this`nextRanking, this`archive, this`muF, this`muCR
    {
      && Population(subpopulation, dimension, current) && |ranking| == subpopulation
      && |lbound| == dimension && |ubound| == dimension
      && Population(subpopulation, dimension, next)
      && |mutationF| == subpopulation && |crossoverCR| == subpopulation
      && IsSqrt(sqrt) && 0.0 <= bestShareP <= 1.0 && 0.0 <= adaptationC <= 1.0
      && RankedBy(ranking, current, fitness, findMinimum)
      && OnePerSlot(nextRanking, subpopulation) && Consistent(nextRanking, next, fitness)
      && |archive| <= subpopulation && Rows(archive, dimension) && 0.0 < muF <= 1.0 && 0.0 <= muCR <= 1.0
    }

    /** What Selection keeps while one generation collects its successes: queued parents of D components, one F_i in (0, 1] and one CR_i in [0, 1] per success. */
    ghost predicate Collecting()
      reads this`dimension, this`pending, this`successF, this`successCR
    {
      SuccessSets(pending, successF, successCR, dimension)
    }

    constructor(fitness: seq<real> -> real, sqrt: real -> real, totalGenerations: nat,
                findMinimum: bool, pmcrade: bool, bestShareP: real, adaptationC: real)
      requires IsSqrt(sqrt) && 0.0 <= bestShareP <= 1.0 && 0.0 <= adaptationC <= 1.0
      ensures Configured()
      ensures this.fitness == fitness && this.sqrt == sqrt && this.totalGenerations == totalGenerations
      ensures this.findMinimum == findMinimum && this.pmcrade == pmcrade
      ensures this.bestShareP == bestShareP && this.adaptationC == adaptationC
      ensures subpopulation == 0 && dimension == 0 && !errorStatus && !isFeed && feed == []
      ensures lbound == [] && ubound == [] && current == [] && next == [] && ranking == [] && nextRanking == []
      ensures archive == [] && pending == [] && successF == [] && successCR == []
      ensures mutationF == [] && crossoverCR == [] && muF == 0.5 && muCR == 0.5
    {
      this.fitness := fitness;
      this.sqrt := sqrt;
      this.totalGenerations := totalGenerations;
      this.findMinimum := findMinimum;
      this.pmcrade := pmcrade;
      this.bestShareP := bestShareP;
      this.adaptationC := adaptationC;
      subpopulation := 0;
      dimension := 0;
      errorStatus := false;
      isFeed := false;
      feed := [];
      lbound, ubound := [], [];
      current, next := [], [];
      ranking, nextRanking := [], [];
      archive, pending := [], [];
      successF, successCR := [], [];
      mutationF, crossoverCR := [], [];
      muF, muCR := 0.5, 0.5;
    }

    // -------------------------------------------------------------------------
    // Configuration

    /** Init: checks the sizes, then resizes every buffer to N vectors of D components. */
    method Init(totalPopulation: int, dimension: int) returns (o: Outcome)
      modifies this`subpopulation, this`dimension, this`current, this`next, this`ranking,
               this`lbound, this`ubound, this`mutationF, this`crossoverCR
      ensures totalPopulation < 1 ==> o == Fail(PopulationTooSmall) && unchanged(this)
      ensures 1 <= totalPopulation && dimension < 1 ==>
        && o == Fail(DimensionTooSmall) && this.dimension == dimension
        && subpopulation == old(subpopulation) && current == old(current) && next == old(next)
        && ranking == old(ranking) && lbound == old(lbound) && ubound == old(ubound)
        && mutationF == old(mutationF) && crossoverCR == old(crossoverCR)
      ensures 1 <= totalPopulation && 1 <= dimension ==>
        && o == Pass && Shaped()
        && subpopulation == totalPopulation && this.dimension == dimension
        && current == ResizeRows(old(current), totalPopulation, dimension)
        && next == ResizeRows(old(next), totalPopulation, dimension)
        && ranking == Resize(old(ranking), totalPopulation, Entry(0.0, 0))
        && lbound == Resize(old(lbound), dimension, 0.0) && ubound == Resize(old(ubound), dimension, 0.0)
        && mutationF == Resize(old(mutationF), totalPopulation, 0.0)
        && crossoverCR == Resize(old(crossoverCR), totalPopulation, 0.0)
    {
      if totalPopulation < 1 {
        return Fail(PopulationTooSmall);
      }
      this.dimension := dimension;
      if dimension < 1 {
        return Fail(DimensionTooSmall);
      }
      subpopulation := totalPopulation;
      current := ResizeRows(current, subpopulation, dimension);
      next := ResizeRows(next, subpopulation, dimension);
      ranking := Resize(ranking, subpopulation, Entry(0.0, 0));
      lbound := Resize(lbound, dimension, 0.0);
      ubound := Resize(ubound, dimension, 0.0);
      mutationF := Resize(mutationF, subpopulation, 0.0);
      crossoverCR := Resize(crossoverCR, subpopulation, 0.0);
      return Pass;
    }

    /** SetAllBoundsVectors: replaces both bound vectors, unchecked. */
    method SetAllBoundsVectors(lb: seq<real>, ub: seq<real>)
      modifies this`lbound, this`ubound
      ensures lbound == lb && ubound == ub
    {
      lbound := lb;
      ubound := ub;
    }

    /** SetAllBounds: rejects lb >= ub and sets the status flag; otherwise fills every existing bound entry. */
    method SetAllBounds(lb: real, ub: real) returns (o: Outcome)
      modifies this`lbound, this`ubound, this`errorStatus
      ensures o.Pass? <==> lb < ub
      ensures o.Fail? ==> o.error == BoundsNotIncreasing && errorStatus
                          && lbound == old(lbound) && ubound == old(ubound)
      ensures o.Pass? ==> errorStatus == old(errorStatus)
                          && |lbound| == |old(lbound)| && |ubound| == |old(ubound)|
                          && (forall c :: 0 <= c < |lbound| ==> lbound[c] == lb)
                          && (forall c :: 0 <= c < |ubound| ==> ubound[c] == ub)
                          && (|lbound| == |ubound| ==> BoundsOrdered(lbound, ubound))
    {
      if lb >= ub {
        errorStatus := true;
        return Fail(BoundsNotIncreasing);
      }
      var c := 0;
      while c < |lbound|
        invariant 0 <= c <= |lbound| == |old(lbound)|
        invariant forall j :: 0 <= j < |lbound| ==> lbound[j] == if j < c then lb else old(lbound)[j]
        invariant ubound == old(ubound) && errorStatus == old(errorStatus)
      {
        lbound := lbound[c := lb];
        c := c + 1;
      }
      c := 0;
      while c < |ubound|
        invariant 0 <= c <= |ubound| == |old(ubound)|
        invariant forall j :: 0 <= j < |ubound| ==> ubound[j] == if j < c then ub else old(ubound)[j]
        invariant |lbound| == |old(lbound)| && forall j :: 0 <= j < |lbound| ==> lbound[j] == lb
        invariant errorStatus == old(errorStatus)
      {
        ubound := ubound[c := ub];
        c := c + 1;
      }
      return Pass;
    }

    /** SetBestShareP: rejects p outside [0, 1] and sets the status flag. */
    method SetBestShareP(p: real) returns (o: Outcome)
      modifies this`bestShareP, this`errorStatus
      ensures o.Pass? <==> 0.0 <= p <= 1.0
      ensures o.Pass? ==> bestShareP == p && errorStatus == old(errorStatus)
      ensures o.Fail? ==> o.error == ShareOutOfRange && bestShareP == old(bestShareP) && errorStatus
      ensures old(Configured()) ==> Configured()
    {
      if p < 0.0 || p > 1.0 {
        errorStatus := true;
        return Fail(ShareOutOfRange);
      }
      bestShareP := p;
      return Pass;
    }

    /** SetAdapitonFrequencyC: rejects c outside [0, 1] and sets the status flag. */
    method SetAdapitonFrequencyC(c: real) returns (o: Outcome)
      modifies this`adaptationC, this`errorStatus
      ensures o.Pass? <==> 0.0 <= c <= 1.0
      ensures o.Pass? ==> adaptationC == c && errorStatus == old(errorStatus)
      ensures o.Fail? ==> o.error == RateOutOfRange && adaptationC == old(adaptationC) && errorStatus
      ensures old(Configured()) ==> Configured()
    {
      if c < 0.0 || c > 1.0 {
        errorStatus := true;
        return Fail(RateOutOfRange);
      }
      adaptationC := c;
      return Pass;
    }

    /** SetFeed: marks the feed as set, then accepts the vectors only if every one has D components. */
    method SetFeed(vectors: seq<seq<real>>) returns (o: Outcome)
      modifies this`isFeed, this`feed
      ensures isFeed
      ensures dimension < 1 ==> o == Fail(DimensionTooSmall)
      ensures 1 <= dimension ==> (o.Pass? <==> Rows(vectors, dimension))
      ensures o.Fail? ==> feed == old(feed)
      ensures 1 <= dimension && !Rows(vectors, dimension) ==> o == Fail(FeedDimensionMismatch)
      ensures o.Pass? ==> feed == vectors
    {
      isFeed := true;
      if dimension < 1 {
        return Fail(DimensionTooSmall);
      }
      var k := 0;
      while k < |vectors|
        invariant 0 <= k <= |vectors|
        invariant forall j :: 0 <= j < k ==> |vectors[j]| == dimension
      {
        if |vectors[k]| != dimension {
          return Fail(FeedDimensionMismatch);
        }
        k := k + 1;
      }
      feed := vectors;
      return Pass;
    }

    // -------------------------------------------------------------------------
    // Initial population and ranking

    /**
     * CreateInitialPopulation: N - K random vectors drawn inside the bounds,
     * followed by the K feed vectors; the feed list is emptied.
     */
    method CreateInitialPopulation(u: seq<seq<real>>) returns (o: Outcome)
      requires Shaped() && PopulationDrawsFit(u, subpopulation, dimension)
      modifies this`current, this`feed
      ensures unchanged(this`totalGenerations, this`findMinimum, this`pmcrade, this`subpopulation,
                        this`dimension, this`bestShareP, this`adaptationC, this`errorStatus, this`isFeed,
                        this`lbound, this`ubound, this`next, this`ranking, this`nextRanking, this`archive,
                        this`pending, this`successF, this`successCR, this`mutationF, this`crossoverCR,
                        this`muF, this`muCR)
      ensures |old(feed)| >= subpopulation ==> o == Fail(FeedTooLarge)
      ensures |old(feed)| < subpopulation && !BoundsOrdered(lbound, ubound) ==> o == Fail(BoundsOutOfOrder)
      ensures o.Fail? ==> current == old(current) && feed == old(feed)
      ensures o.Pass? <==> |old(feed)| < subpopulation && BoundsOrdered(lbound, ubound)
      ensures o.Pass? ==> current == InitialPopulation(u, lbound, ubound, old(feed), subpopulation) && feed == []
    {
      if |feed| >= subpopulation {
        return Fail(FeedTooLarge);
      }
      var n := subpopulation - |feed|;
      var rows: seq<seq<real>> := [];
      var k := 0;
      while k < n
        invariant 0 <= k <= n && |rows| == k
        invariant forall j :: 0 <= j < k ==> rows[j] == UniformRow(u[j], lbound, ubound)
        invariant k > 0 ==> BoundsOrdered(lbound, ubound)
      {
        var x := current[k];
        var c := 0;
        while c < dimension
          invariant 0 <= c <= dimension && |x| == dimension
          invariant forall j :: 0 <= j < c ==> lbound[j] <= ubound[j] && x[j] == Rand(lbound[j], ubound[j], u[k][j])
        {
          if lbound[c] > ubound[c] {
            return Fail(BoundsOutOfOrder);
          }
          x := x[c := Rand(lbound[c], ubound[c], u[k][c])];
          c := c + 1;
        }
        assert x == UniformRow(u[k], lbound, ubound);
        rows := rows + [x];
        k := k + 1;
      }
      current := rows + feed;
      feed := [];
      return Pass;
    }

    /** SortEvaluatedCurrent: the ranking sorted best first. */
    method SortEvaluatedCurrent()
      modifies this`ranking
      ensures unchanged(this`totalGenerations, this`findMinimum, this`pmcrade, this`subpopulation,
                        this`dimension, this`bestShareP, this`adaptationC, this`errorStatus, this`isFeed,
                        this`feed, this`lbound, this`ubound, this`current, this`next, this`nextRanking,
                        this`archive, this`pending, this`successF, this`successCR, this`mutationF,
                        this`crossoverCR, this`muF, this`muCR)
      ensures ranking == SortRanking(old(ranking), findMinimum)
    {
      ranking := SortRanking(ranking, findMinimum);
    }

    /** EvaluateCurrentVectors: one (fitness, slot) entry per vector, then sorted. */
    method EvaluateCurrentVectors()
      requires |current| == subpopulation
      modifies this`ranking
      ensures ranking == SortRanking(Evaluations(current, fitness), findMinimum)
      ensures Ranked()
    {
      ranking := EvaluatedCurrent();
      SortEvaluatedCurrent();
      EvaluationsSortedRanked(current, fitness, findMinimum);
    }

    /** The evaluation loop of EvaluateCurrentVectors: the fitness of each vector, tagged with its slot, in slot order. */
    method EvaluatedCurrent() returns (evaluated: seq<Entry>)
      requires |current| == subpopulation
      ensures evaluated == Evaluations(current, fitness)
    {
      evaluated := [];
      var i := 0;
      while i < subpopulation
        invariant 0 <= i <= subpopulation && |evaluated| == i
        invariant forall j :: 0 <= j < i ==> evaluated[j] == Entry(fitness(current[j]), j)
      {
        evaluated := evaluated + [Entry(fitness(current[i]), i)];
        i := i + 1;
      }
    }

    // -------------------------------------------------------------------------
    // One individual: parameters, donors, mutation, crossover, selection

    /** SetCRiFi: F_i from the Cauchy draws (see SampleF), CR_i from the Gaussian draw clamped to [0, 1]. */
    method SetCRiFi(i: nat, cauchy: seq<real>, normal: real)
      requires i < |mutationF| && i < |crossoverCR| && MaxCauchyDraws <= |cauchy|
      modifies this`mutationF, this`crossoverCR
      ensures mutationF == old(mutationF)[i := SampleF(muF, cauchy, 0)]
      ensures crossoverCR == old(crossoverCR)[i := ClampCR(RandN(muCR, ParameterSpread, normal))]
    {
      var k := 0;
      while true
        invariant 0 <= k <= 10
        invariant SampleF(muF, cauchy, k) == SampleF(muF, cauchy, 0)
        invariant |mutationF| == |old(mutationF)| && crossoverCR == old(crossoverCR)
        invariant forall j :: 0 <= j < |mutationF| && j != i ==> mutationF[j] == old(mutationF)[j]
        decreases 10 - k
      {
        var f := RandC(muF, ParameterSpread, cauchy[k]);
        mutationF := mutationF[i := f];
        if f > 1.0 {
          mutationF := mutationF[i := 1.0];
          break;
        }
        if f > 0.0 {
          break;
        }
        if k + 1 > 10 {
          mutationF := mutationF[i := FallbackF];
          break;
        }
        k := k + 1;
      }
      crossoverCR := crossoverCR[i := RandN(muCR, ParameterSpread, normal)];
      if crossoverCR[i] > 1.0 {
        crossoverCR := crossoverCR[i := 1.0];
      }
      if crossoverCR[i] < 0.0 {
        crossoverCR := crossoverCR[i := 0.0];
      }
    }

    /** GetXpBestCurrent: flags p == 1 (floor(N p) == N), then reads the vector at a random one of the top floor(N p) + 1 ranking positions. */
    method GetXpBestCurrent(draw: nat) returns (r: Result<seq<real>>)
      requires 0.0 <= bestShareP
      modifies this`errorStatus
      ensures errorStatus == (old(errorStatus) || BestCount(subpopulation, bestShareP) == subpopulation)
      ensures r == match PBestSlot(ranking, subpopulation, bestShareP, draw, |current|)
                   case Success(s) => Success(current[s])
                   case Failure(e) => Failure(e)
    {
      var nBest := BestCount(subpopulation, bestShareP);
      if nBest == subpopulation {
        errorStatus := true;
      }
      var pos := RandInt(0, nBest, draw);
      var slot := -1;
      var k := 0;
      while k < |ranking| && k != pos
        invariant 0 <= k <= |ranking| && k <= pos
      {
        k := k + 1;
      }
      if k < |ranking| {
        slot := ranking[k].slot;
      }
      if 0 <= slot < |current| {
        return Success(current[slot]);
      }
      return Failure(IndexOutOfRange);
    }

    /** GetXRandomCurrent: the first drawn slot other than the forbidden one, and its vector. */
    method GetXRandomCurrent(forbidden: int, draws: seq<nat>) returns (r: Result<(nat, seq<real>)>)
      requires 1 <= subpopulation == |current|
      ensures r == match FirstAvoiding(draws, subpopulation, forbidden, forbidden)
                   case None => Failure(DrawsExhausted)
                   case Some(v) => Success((v, current[v]))
    {
      var k := 0;
      while k < |draws| && RandInt(0, subpopulation - 1, draws[k]) == forbidden
        invariant 0 <= k <= |draws|
        invariant FirstAvoiding(draws[k..], subpopulation, forbidden, forbidden) == FirstAvoiding(draws, subpopulation, forbidden, forbidden)
      {
        assert draws[k..][1..] == draws[k + 1..];
        k := k + 1;
      }
      if k == |draws| {
        return Failure(DrawsExhausted);
      }
      var v := RandInt(0, subpopulation - 1, draws[k]);
      return Success((v, current[v]));
    }

    /** GetXRandomArchiveAndCurrent: the first drawn candidate of population and archive other than both forbidden ones. */
    method GetXRandomArchiveAndCurrent(forbidden1: int, forbidden2: int, draws: seq<nat>) returns (r: Result<seq<real>>)
      requires 1 <= subpopulation == |current|
      ensures r == match FirstAvoiding(draws, subpopulation + |archive|, forbidden1, forbidden2)
                   case None => Failure(DrawsExhausted)
                   case Some(v) => Success(ArchiveDonor(current, archive, v))
    {
      var m := subpopulation + |archive|;
      var k := 0;
      while k < |draws| && RandInt(0, m - 1, draws[k]) in {forbidden1, forbidden2}
        invariant 0 <= k <= |draws|
        invariant FirstAvoiding(draws[k..], m, forbidden1, forbidden2) == FirstAvoiding(draws, m, forbidden1, forbidden2)
      {
        assert draws[k..][1..] == draws[k + 1..];
        k := k + 1;
      }
      if k == |draws| {
        return Failure(DrawsExhausted);
      }
      var v := RandInt(0, m - 1, draws[k]);
      if v < subpopulation {
        return Success(current[v]);
      }
      var index := v - subpopulation;
      var j := 0;
      while j < |archive| && j != index
        invariant 0 <= j <= index
      {
        j := j + 1;
      }
      return Success(archive[j]);
    }

    /** The component loop of Mutation: raw mutant, then the upper and the lower bound check. */
    method MutantComponents(x: seq<real>, pbest: seq<real>, x1: seq<real>, x2: seq<real>, f: real) returns (v: seq<real>)
      requires |x| == |pbest| == |x1| == |x2| == |lbound| == |ubound| == dimension
      ensures v == Mutant(x, pbest, x1, x2, f, lbound, ubound)
    {
      v := x;
      var c := 0;
      while c < dimension
        invariant 0 <= c <= dimension && |v| == dimension
        invariant forall j :: 0 <= j < c ==> v[j] == Repair(RawMutant(x[j], pbest[j], x1[j], x2[j], f), x[j], lbound[j], ubound[j])
      {
        v := v[c := RawMutant(x[c], pbest[c], x1[c], x2[c], f)];
        if v[c] > ubound[c] {
          v := v[c := (ubound[c] + x[c]) / 2.0];
        }
        if v[c] < lbound[c] {
          v := v[c := (lbound[c] + x[c]) / 2.0];
        }
        c := c + 1;
      }
    }

    /** Mutation: DE/current-to-pbest/1 with midpoint bound control, computed component by component. */
    method Mutation(i: nat, d: IndividualDraws) returns (r: Result<seq<real>>)
      requires Population(subpopulation, dimension, current) && |ranking| == subpopulation && |lbound| == dimension && |ubound| == dimension && |mutationF| == subpopulation && |crossoverCR| == subpopulation && i < subpopulation && Rows(archive, dimension) && 0.0 <= bestShareP
      modifies this`errorStatus
      ensures errorStatus == (old(errorStatus) || BestCount(subpopulation, bestShareP) == subpopulation)
      ensures r == MutationOf(current, archive, ranking, lbound, ubound, bestShareP, mutationF[i], i, d)
    {
      var x := current[i];
      var pbest := GetXpBestCurrent(d.pbest);
      if pbest.Failure? {
        return Failure(pbest.error);
      }
      var random := GetXRandomCurrent(i, d.r1);
      if random.Failure? {
        return Failure(random.error);
      }
      var (r1, x1) := random.value;
      var donor := GetXRandomArchiveAndCurrent(r1, i, d.r2);
      if donor.Failure? {
        return Failure(donor.error);
      }
      var v := MutantComponents(x, pbest.value, x1, donor.value, mutationF[i]);
      return Success(v);
    }

    /** Crossover: binomial crossover of the mutant v with the parent in slot i. */
    method Crossover(v: seq<real>, i: nat, jDraw: nat, u: seq<real>) returns (t: seq<real>)
      requires Population(subpopulation, dimension, current) && |ranking| == subpopulation && |lbound| == dimension && |ubound| == dimension && |mutationF| == subpopulation && |crossoverCR| == subpopulation && i < subpopulation && |v| == dimension && |u| == dimension
      ensures t == CrossoverOf(v, current[i], RandInt(0, dimension - 1, jDraw), u, crossoverCR[i])
    {
      var cr := crossoverCR[i];
      var x := current[i];
      t := seq(dimension, _ => 0.0);
      var jrand := RandInt(0, dimension - 1, jDraw);
      var c := 0;
      while c < dimension
        invariant 0 <= c <= dimension && |t| == dimension
        invariant forall j :: 0 <= j < c ==> t[j] == if j == jrand || u[j] < cr then v[j] else x[j]
      {
        if c == jrand || u[c] < cr {
          t := t[c := v[c]];
        } else {
          t := t[c := x[c]];
        }
        c := c + 1;
      }
    }

    /** The search loop of Selection: the fitness recorded for slot i, if any (the last matching entry). */
    method FindFitness(i: int) returns (found: bool, fCurrent: real)
      ensures found <==> FitnessRecord(ranking, i).Some?
      ensures fCurrent == RecordedFitness(ranking, i)
    {
      found := false;
      fCurrent := 0.0;
      var k := 0;
      while k < |ranking|
        invariant 0 <= k <= |ranking|
        invariant FitnessRecord(ranking[..k], i) == if found then Some(fCurrent) else None
        invariant !found ==> fCurrent == 0.0
      {
        RecordOfPrefix(ranking, k, i);
        if ranking[k].slot == i {
          fCurrent := ranking[k].fitness;
          found := true;
        }
        k := k + 1;
      }
      assert ranking[..k] == ranking;
    }

    /** The write-back of Selection: slot i of the next generation gets vector y, and its ranking entries get fitness f. */
    method WriteSlot(i: nat, y: seq<real>, f: real)
      requires i < |next|
      modifies this`next, this`nextRanking
      ensures next == old(next)[i := y] && nextRanking == WithFitness(old(nextRanking), i, f)
    {
      var updated := SetSlotFitness(nextRanking, i, f);
      next, nextRanking := next[i := y], updated;
    }

    /**
     * Selection: the trial replaces the parent in the next generation when it
     * is accepted; the parent then goes to the archive queue and F_i, CR_i to
     * the success sets. A slot without a fitness record sets the status flag.
     */
    method Selection(trial: seq<real>, i: nat)
      requires i < |next| && i < |current| && i < |mutationF| && i < |crossoverCR| && |ranking| > 0
      modifies this`errorStatus, this`next, this`nextRanking, this`pending, this`successF, this`successCR
      ensures unchanged(this`subpopulation, this`dimension, this`findMinimum, this`current, this`ranking, this`mutationF, this`crossoverCR)
      ensures errorStatus == (old(errorStatus) || FitnessRecord(ranking, i).None?)
      ensures Accepts(fitness(trial), RecordedFitness(ranking, i), ranking[0].fitness, findMinimum) ==>
        && next == old(next)[i := trial]
        && nextRanking == WithFitness(old(nextRanking), i, fitness(trial))
        && pending == old(pending) + [current[i]]
        && successF == old(successF) + [mutationF[i]]
        && successCR == old(successCR) + [crossoverCR[i]]
      ensures !Accepts(fitness(trial), RecordedFitness(ranking, i), ranking[0].fitness, findMinimum) ==>
        && next == old(next)[i := current[i]]
        && nextRanking == WithFitness(old(nextRanking), i, RecordedFitness(ranking, i))
        && pending == old(pending) && successF == old(successF) && successCR == old(successCR)
    {
      var found, fCurrent := FindFitness(i);
      if !found {
        errorStatus := true;
      }
      var fBest := ranking[0].fitness;
      var fTrial := fitness(trial);
      var success := Accepts(fTrial, fCurrent, fBest, findMinimum);
      var kept := if success then trial else current[i];
      var fKept := if success then fTrial else fCurrent;
      WriteSlot(i, kept, fKept);
      if success {
        pending, successF, successCR := pending + [current[i]], successF + [mutationF[i]], successCR + [crossoverCR[i]];
      }
    }

    // -------------------------------------------------------------------------
    // End of a generation: archive and parameter adaptation

    /**
     * ArchiveCleanUp: the parents queued by Selection are spliced onto the end
     * of the archive, then random elements are erased until at most N remain.
     */
    method ArchiveCleanUp(removals: seq<nat>)
      requires |archive| + |pending| <= subpopulation + |removals|
      modifies this`archive, this`pending, this`errorStatus
      ensures unchanged(this`totalGenerations, this`findMinimum, this`pmcrade, this`subpopulation,
                        this`dimension, this`bestShareP, this`adaptationC, this`isFeed, this`feed,
                        this`lbound, this`ubound, this`current, this`next, this`ranking, this`nextRanking,
                        this`successF, this`successCR, this`mutationF, this`crossoverCR, this`muF, this`muCR)
      ensures archive == Cleaned(old(archive) + old(pending), removals, subpopulation)
      ensures |archive| <= subpopulation
      ensures pending == [] && errorStatus == old(errorStatus)
    {
      archive := archive + pending;
      pending := [];
      archive := EraseSurplus(archive, removals, subpopulation);
      errorStatus := errorStatus || |archive| > subpopulation;
    }

    /**
     * Adaption: with both success sets non-empty, mu_CR moves towards the mean
     * of S_CR (its quadratic mean under PMCRADE when the spread of S_CR is at
     * least 0.07) and mu_F towards the Lehmer mean of S_F, each by the fraction c.
     */
    method Adaption()
      requires |successCR| == 0 || |successF| == 0 || Sum(successF) != 0.0
      modifies this`muF, this`muCR
      ensures unchanged(this`totalGenerations, this`findMinimum, this`pmcrade, this`subpopulation,
                        this`dimension, this`bestShareP, this`adaptationC, this`errorStatus, this`isFeed,
                        this`feed, this`lbound, this`ubound, this`current, this`next, this`ranking,
                        this`nextRanking, this`archive, this`pending, this`successF, this`successCR,
                        this`mutationF, this`crossoverCR)
      ensures muCR == AdaptedMuCR(old(muCR), adaptationC, successCR, successF, pmcrade, sqrt)
      ensures muF == AdaptedMuF(old(muF), adaptationC, successCR, successF)
    {
      var elements, sum := CrossoverSum();
      if elements != 0 && |successF| != 0 {
        var n := elements as real;
        var meanCR := sum / n;
        var targetCR := meanCR;
        if pmcrade {
          var deviations := SquaredDeviations(meanCR);
          var stdCR := sqrt(deviations / n);
          if stdCR >= PmcradeThreshold {
            var squares := SuccessSquares();
            targetCR := sqrt(squares / n);
          }
        }
        var sumF, sumF2 := LehmerSums();
        var meanF := sumF2 / sumF;
        muCR, muF := Convex(muCR, adaptationC, targetCR), Convex(muF, adaptationC, meanF);
      }
    }

    /** The first loop of Adaption: the number of elements of S_CR and their sum. */
    method CrossoverSum() returns (elements: nat, sum: real)
      ensures elements == |successCR| && sum == Sum(successCR)
    {
      elements, sum := 0, 0.0;
      while elements < |successCR|
        invariant 0 <= elements <= |successCR| && sum == Sum(successCR[..elements])
      {
        assert successCR[..elements + 1][..elements] == successCR[..elements];
        sum := sum + successCR[elements];
        elements := elements + 1;
      }
      assert successCR[..elements] == successCR;
    }

    /** The last loop of Adaption: the sum of S_F and the sum of its squares. */
    method LehmerSums() returns (sumF: real, sumF2: real)
      ensures sumF == Sum(successF) && sumF2 == SumSquares(successF)
    {
      sumF, sumF2 := 0.0, 0.0;
      var k := 0;
      while k < |successF|
        invariant 0 <= k <= |successF|
        invariant sumF == Sum(successF[..k]) && sumF2 == SumSquares(successF[..k])
      {
        assert successF[..k + 1][..k] == successF[..k];
        sumF := sumF + successF[k];
        sumF2 := sumF2 + successF[k] * successF[k];
        k := k + 1;
      }
      assert successF[..k] == successF;
    }

    /** The deviation loop of the PMCRADE patch: the sum of (CR - mean)^2 over S_CR. */
    method SquaredDeviations(mean: real) returns (total: real)
      ensures total == SumSquaredDeviations(successCR, mean)
    {
      total := 0.0;
      var k := 0;
      while k < |successCR|
        invariant 0 <= k <= |successCR| && total == SumSquaredDeviations(successCR[..k], mean)
      {
        assert successCR[..k + 1][..k] == successCR[..k];
        var d := successCR[k] - mean;
        total := total + d * d;
        k := k + 1;
      }
      assert successCR[..k] == successCR;
    }

    /** The quadratic-mean loop of the PMCRADE patch: the sum of CR^2 over S_CR. */
    method SuccessSquares() returns (total: real)
      ensures total == SumSquares(successCR)
    {
      total := 0.0;
      var k := 0;
      while k < |successCR|
        invariant 0 <= k <= |successCR| && total == SumSquares(successCR[..k])
      {
        assert successCR[..k + 1][..k] == successCR[..k];
        total := total + successCR[k] * successCR[k];
        k := k + 1;
      }
      assert successCR[..k] == successCR;
    }

    // -------------------------------------------------------------------------
    // Generations

    /** SetCRiFi, Mutation and Crossover for individual i: the trial vector, or why Mutation failed. */
    method Vary(i: nat, d: IndividualDraws) returns (r: Result<seq<real>>)
      requires Population(subpopulation, dimension, current) && |ranking| == subpopulation && |lbound| == dimension && |ubound| == dimension && |mutationF| == subpopulation && |crossoverCR| == subpopulation && 0.0 <= bestShareP && Rows(archive, dimension)
      requires i < subpopulation && IndividualDrawsFit(d, dimension)
      modifies this`mutationF, this`crossoverCR, this`errorStatus
      ensures unchanged(this`totalGenerations, this`findMinimum, this`pmcrade, this`subpopulation,
                        this`dimension, this`bestShareP, this`adaptationC, this`isFeed, this`feed,
                        this`lbound, this`ubound, this`current, this`next, this`ranking, this`nextRanking,
                        this`archive, this`pending, this`successF, this`successCR, this`muF, this`muCR)
      ensures |mutationF| == subpopulation && |crossoverCR| == subpopulation
      ensures mutationF == old(mutationF)[i := SampleF(muF, d.cauchy, 0)]
      ensures crossoverCR == old(crossoverCR)[i := ClampCR(RandN(muCR, ParameterSpread, d.normal))]
      ensures errorStatus == (old(errorStatus) || BestCount(subpopulation, bestShareP) == subpopulation)
      ensures r == match MutationOf(current, archive, ranking, lbound, ubound, bestShareP, mutationF[i], i, d)
                   case Failure(e) => Failure(e)
                   case Success(v) => Success(CrossoverOf(v, current[i], RandInt(0, dimension - 1, d.jrand), d.uniform, crossoverCR[i]))
      ensures r.Failure? ==> r.error == IndexOutOfRange || r.error == DrawsExhausted
      ensures r.Success? ==> |r.value| == dimension
      ensures r.Success? && InBox(current[i], lbound, ubound) ==> InBox(r.value, lbound, ubound)
    {
      SetCRiFi(i, d.cauchy, d.normal);
      var v := Mutation(i, d);
      if v.Failure? {
        return Failure(v.error);
      }
      var t := Crossover(v.value, i, d.jrand, d.uniform);
      CrossoverInBoxIf(v.value, current[i], RandInt(0, dimension - 1, d.jrand), d.uniform, crossoverCR[i], lbound, ubound);
      return Success(t);
    }

    /** One pass of the individual loop of RunOptimization: SetCRiFi, Mutation, Crossover, Selection. */
    method EvolveIndividual(i: nat, d: IndividualDraws) returns (o: Outcome)
      requires Population(subpopulation, dimension, current) && |ranking| == subpopulation && |lbound| == dimension && |ubound| == dimension && |mutationF| == subpopulation && |crossoverCR| == subpopulation && 0.0 <= bestShareP && Rows(archive, dimension)
      requires Population(subpopulation, dimension, next) && OnePerSlot(nextRanking, subpopulation) && Consistent(nextRanking, next, fitness) && SuccessSets(pending, successF, successCR, dimension)
      requires i < subpopulation && IndividualDrawsFit(d, dimension)
      requires ParentFact(ranking, current, fitness, findMinimum, i)
      modifies this`mutationF, this`crossoverCR, this`errorStatus, this`next, this`nextRanking,
               this`pending, this`successF, this`successCR
      ensures unchanged(this`totalGenerations, this`findMinimum, this`pmcrade, this`subpopulation,
                        this`dimension, this`bestShareP, this`adaptationC, this`isFeed, this`feed,
                        this`lbound, this`ubound, this`current, this`ranking, this`archive, this`muF,
                        this`muCR)
      ensures |mutationF| == subpopulation && |crossoverCR| == subpopulation && Population(subpopulation, dimension, next) && OnePerSlot(nextRanking, subpopulation) && Consistent(nextRanking, next, fitness) && SuccessSets(pending, successF, successCR, dimension)
      ensures errorStatus == (old(errorStatus) || BestCount(subpopulation, bestShareP) == subpopulation)
      ensures o.Fail? ==> o.error == IndexOutOfRange || o.error == DrawsExhausted
      ensures |next| == |old(next)| && forall j :: 0 <= j < |next| && j != i ==> next[j] == old(next)[j]
      ensures o.Pass? ==> NoWorse(next[i], current[i], fitness, findMinimum, lbound, ubound)
      ensures |pending| <= |old(pending)| + 1
    {
      var t := Vary(i, d);
      if t.Failure? {
        return Fail(t.error);
      }
      Judge(t.value, i);
      return Pass;
    }

    /** Selection of a trial of D components under a ranked population, with what it preserves. */
    method Judge(t: seq<real>, i: nat)
      requires Population(subpopulation, dimension, next) && OnePerSlot(nextRanking, subpopulation) && Consistent(nextRanking, next, fitness) && SuccessSets(pending, successF, successCR, dimension) && |mutationF| == subpopulation && |crossoverCR| == subpopulation && |current| == subpopulation
      requires i < subpopulation && |t| == dimension && |current[i]| == dimension && |ranking| > 0
      requires ParentFact(ranking, current, fitness, findMinimum, i)
      requires 0.0 < mutationF[i] <= 1.0 && 0.0 <= crossoverCR[i] <= 1.0
      modifies this`errorStatus, this`next, this`nextRanking, this`pending, this`successF, this`successCR
      ensures unchanged(this`totalGenerations, this`findMinimum, this`pmcrade, this`subpopulation,
                        this`dimension, this`bestShareP, this`adaptationC, this`isFeed, this`feed,
                        this`lbound, this`ubound, this`current, this`ranking, this`archive, this`mutationF,
                        this`crossoverCR, this`muF, this`muCR)
      ensures Population(subpopulation, dimension, next) && OnePerSlot(nextRanking, subpopulation) && Consistent(nextRanking, next, fitness) && SuccessSets(pending, successF, successCR, dimension)
      ensures errorStatus == old(errorStatus)
      ensures |next| == |old(next)| && forall j :: 0 <= j < |next| && j != i ==> next[j] == old(next)[j]
      ensures AtLeastAsGood(fitness(next[i]), fitness(current[i]), findMinimum)
      ensures next[i] == t || next[i] == current[i]
      ensures |pending| <= |old(pending)| + 1
    {
      ghost var fCurrent := RecordedFitness(ranking, i);
      ghost var accepted := Accepts(fitness(t), fCurrent, ranking[0].fitness, findMinimum);
      if accepted {
        AcceptedIsNoWorse(fitness(t), fCurrent, ranking[0].fitness, findMinimum);
        NextRankingUpdate(nextRanking, next, fitness, subpopulation, i, t);
        SuccessAppend(pending, successF, successCR, dimension, current[i], mutationF[i], crossoverCR[i]);
      } else {
        NextRankingUpdate(nextRanking, next, fitness, subpopulation, i, current[i]);
      }
      Selection(t, i);
      if accepted {
        assert Rows(pending, dimension) && AllPositiveUnit(successF) && AllUnit(successCR);
      }
    }

    /**
     * One generation of RunOptimization: the success sets are cleared, every
     * individual is evolved, the archive is cleaned, mu_F and mu_CR adapt, the
     * new generation becomes current and is ranked.
     */
    method Generation(gd: GenerationDraws) returns (o: Outcome)
      requires Running() && GenerationDrawsFit(gd, subpopulation, dimension)
      modifies this`mutationF, this`crossoverCR, this`errorStatus, this`next, this`nextRanking,
               this`pending, this`successF, this`successCR, this`archive, this`muF, this`muCR,
               this`current, this`ranking
      ensures unchanged(this`totalGenerations, this`findMinimum, this`pmcrade, this`subpopulation,
                        this`dimension, this`bestShareP, this`adaptationC, this`isFeed, this`feed,
                        this`lbound, this`ubound)
      ensures o.Fail? ==> o.error == IndexOutOfRange || o.error == DrawsExhausted
      ensures o.Pass? ==> Running()
      ensures o.Pass? ==> errorStatus == (old(errorStatus) || BestCount(subpopulation, bestShareP) == subpopulation)
      ensures o.Pass? ==> forall s :: 0 <= s < subpopulation ==> NoWorse(current[s], old(current)[s], fitness, findMinimum, lbound, ubound)
      ensures o.Pass? ==> AtLeastAsGood(ranking[0].fitness, old(ranking)[0].fitness, findMinimum)
      ensures o.Pass? ==> next == old(current) && nextRanking == old(ranking)
      ensures o.Pass? ==> pending == [] && |archive| <= subpopulation
      ensures o.Pass? ==> muCR == AdaptedMuCR(old(muCR), adaptationC, successCR, successF, pmcrade, sqrt)
      ensures o.Pass? ==> (|successCR| == 0 || |successF| == 0 || Sum(successF) != 0.0)
                          && muF == AdaptedMuF(old(muF), adaptationC, successCR, successF)
    {
      ClearSuccesses();
      o := EvolveAll(gd);
      if o.Pass? {
        EndGeneration(gd.removals);
        BestNeverWorsens(nextRanking, next, ranking, current, fitness, findMinimum, lbound, ubound);
      }
    }

    /** The end of a generation: ArchiveCleanUp, then Adaption, then the swap of the two generations. */
    method EndGeneration(removals: seq<nat>)
      requires Population(subpopulation, dimension, current) && Population(subpopulation, dimension, next)
      requires RankedBy(ranking, current, fitness, findMinimum)
      requires OnePerSlot(nextRanking, subpopulation) && Consistent(nextRanking, next, fitness)
      requires |lbound| == dimension && |ubound| == dimension && |mutationF| == subpopulation && |crossoverCR| == subpopulation
      requires IsSqrt(sqrt) && 0.0 <= bestShareP <= 1.0 && 0.0 <= adaptationC <= 1.0
      requires |archive| <= subpopulation && Rows(archive, dimension) && 0.0 < muF <= 1.0 && 0.0 <= muCR <= 1.0
      requires SuccessSets(pending, successF, successCR, dimension) && |pending| <= subpopulation
      requires |removals| >= subpopulation
      modifies this`errorStatus, this`next, this`nextRanking, this`pending, this`archive,
               this`muF, this`muCR, this`current, this`ranking
      ensures unchanged(this`totalGenerations, this`findMinimum, this`pmcrade, this`subpopulation,
                        this`dimension, this`bestShareP, this`adaptationC, this`isFeed, this`feed,
                        this`lbound, this`ubound, this`successF, this`successCR, this`mutationF,
                        this`crossoverCR)
      ensures Running()
      ensures current == old(next) && next == old(current) && nextRanking == old(ranking)
      ensures archive == Cleaned(old(archive) + old(pending), removals, subpopulation)
      ensures pending == [] && errorStatus == old(errorStatus)
      ensures muCR == AdaptedMuCR(old(muCR), adaptationC, successCR, successF, pmcrade, sqrt)
      ensures (|successCR| == 0 || |successF| == 0 || Sum(successF) != 0.0)
              && muF == AdaptedMuF(old(muF), adaptationC, successCR, successF)
    {
      CleanedRows(archive + pending, removals, subpopulation, dimension);
      ArchiveCleanUp(removals);
      AdaptedMuCRRange(muCR, adaptationC, successCR, successF, pmcrade, sqrt);
      AdaptedMuFRange(muF, adaptationC, successCR, successF);
      Adaption();
      SwapGenerations();
    }

    /**
     * The end of a generation: the two populations and their rankings trade
     * places, and the new ranking is sorted best first.
     */
    method SwapGenerations()
      requires Population(subpopulation, dimension, current) && Population(subpopulation, dimension, next)
      requires OnePerSlot(ranking, subpopulation) && Consistent(ranking, current, fitness)
      requires OnePerSlot(nextRanking, subpopulation) && Consistent(nextRanking, next, fitness)
      requires |lbound| == dimension && |ubound| == dimension && |mutationF| == subpopulation && |crossoverCR| == subpopulation
      requires IsSqrt(sqrt) && 0.0 <= bestShareP <= 1.0 && 0.0 <= adaptationC <= 1.0
      requires |archive| <= subpopulation && Rows(archive, dimension) && 0.0 < muF <= 1.0 && 0.0 <= muCR <= 1.0
      modifies this`current, this`next, this`ranking, this`nextRanking
      ensures unchanged(this`totalGenerations, this`findMinimum, this`pmcrade, this`subpopulation,
                        this`dimension, this`bestShareP, this`adaptationC, this`errorStatus, this`isFeed,
                        this`feed, this`lbound, this`ubound, this`archive, this`pending, this`successF,
                        this`successCR, this`mutationF, this`crossoverCR, this`muF, this`muCR)
      ensures Running()
      ensures current == old(next) && next == old(current) && nextRanking == old(ranking)
      ensures ranking == SortRanking(old(nextRanking), findMinimum)
    {
      SortedRankedBy(nextRanking, next, fitness, findMinimum);
      current, next, ranking, nextRanking := next, current, nextRanking, ranking;
      SortEvaluatedCurrent();
    }

    /** The start of a generation: the archive queue and both success sets are emptied. */
    method ClearSuccesses()
      modifies this`pending, this`successF, this`successCR
      ensures unchanged(this`totalGenerations, this`findMinimum, this`pmcrade, this`subpopulation,
                        this`dimension, this`bestShareP, this`adaptationC, this`errorStatus, this`isFeed,
                        this`feed, this`lbound, this`ubound, this`current, this`next, this`ranking,
                        this`nextRanking, this`archive, this`mutationF, this`crossoverCR, this`muF,
                        this`muCR)
      ensures pending == [] && successF == [] && successCR == []
    {
      pending, successF, successCR := [], [], [];
    }

    /** The individual loop of one generation. */
    method EvolveAll(gd: GenerationDraws) returns (o: Outcome)
      requires Population(subpopulation, dimension, current) && |ranking| == subpopulation && |lbound| == dimension && |ubound| == dimension && |mutationF| == subpopulation && |crossoverCR| == subpopulation && 0.0 <= bestShareP && Rows(archive, dimension)
      requires RankedBy(ranking, current, fitness, findMinimum)
      requires Population(subpopulation, dimension, next) && OnePerSlot(nextRanking, subpopulation) && Consistent(nextRanking, next, fitness) && SuccessSets(pending, successF, successCR, dimension) && pending == []
      requires GenerationDrawsFit(gd, subpopulation, dimension)
      modifies this`mutationF, this`crossoverCR, this`errorStatus, this`next, this`nextRanking,
               this`pending, this`successF, this`successCR
      ensures unchanged(this`totalGenerations, this`findMinimum, this`pmcrade, this`subpopulation,
                        this`dimension, this`bestShareP, this`adaptationC, this`isFeed, this`feed,
                        this`lbound, this`ubound, this`current, this`ranking, this`archive, this`muF,
                        this`muCR)
      ensures |mutationF| == subpopulation && |crossoverCR| == subpopulation && Population(subpopulation, dimension, next) && OnePerSlot(nextRanking, subpopulation) && Consistent(nextRanking, next, fitness) && SuccessSets(pending, successF, successCR, dimension) && |pending| <= subpopulation
      ensures o.Fail? ==> o.error == IndexOutOfRange || o.error == DrawsExhausted
      ensures o.Pass? ==> errorStatus == (old(errorStatus) || BestCount(subpopulation, bestShareP) == subpopulation)
      ensures o.Pass? ==> forall s :: 0 <= s < subpopulation ==> NoWorse(next[s], current[s], fitness, findMinimum, lbound, ubound)
    {
      ParentRecords(ranking, current, fitness, findMinimum);
      var i := 0;
      while i < subpopulation
        invariant 0 <= i <= subpopulation
        invariant unchanged(this`totalGenerations, this`findMinimum, this`pmcrade, this`subpopulation,
                            this`dimension, this`bestShareP, this`adaptationC, this`isFeed, this`feed,
                            this`lbound, this`ubound, this`current, this`ranking, this`archive, this`muF,
                            this`muCR)
        invariant |mutationF| == subpopulation && |crossoverCR| == subpopulation && Population(subpopulation, dimension, next) && OnePerSlot(nextRanking, subpopulation) && Consistent(nextRanking, next, fitness) && SuccessSets(pending, successF, successCR, dimension) && |pending| <= i
        invariant errorStatus == (old(errorStatus) || (0 < i && BestCount(subpopulation, bestShareP) == subpopulation))
        invariant forall j :: 0 <= j < i ==> NoWorse(next[j], current[j], fitness, findMinimum, lbound, ubound)
      {
        o := EvolveIndividual(i, gd.individuals[i]);
        if o.Fail? {
          return;
        }
        i := i + 1;
      }
      return Pass;
    }

    /**
     * The set-up of RunOptimization: the adaptation means back to 0.5, an empty
     * archive, the initial population, and both generations evaluated and ranked.
     */
    method StartOptimization(u: seq<seq<real>>) returns (o: Outcome)
      requires Shaped() && Configured() && PopulationDrawsFit(u, subpopulation, dimension) && Rows(feed, dimension)
      modifies this`next, this`nextRanking, this`archive, this`muF, this`muCR, this`current, this`ranking, this`feed
      ensures unchanged(this`totalGenerations, this`findMinimum, this`pmcrade, this`subpopulation,
                        this`dimension, this`bestShareP, this`adaptationC, this`errorStatus, this`isFeed,
                        this`lbound, this`ubound, this`pending, this`successF, this`successCR,
                        this`mutationF, this`crossoverCR)
      ensures o.Fail? ==> o.error == FeedTooLarge || o.error == BoundsOutOfOrder
      ensures o.Pass? <==> |old(feed)| < subpopulation && BoundsOrdered(lbound, ubound)
      ensures o.Pass? ==> Running()
      ensures o.Pass? ==> current == InitialPopulation(u, lbound, ubound, old(feed), subpopulation)
      ensures o.Pass? ==> ranking == SortRanking(Evaluations(current, fitness), findMinimum)
      ensures o.Pass? ==> muF == 0.5 && muCR == 0.5 && archive == []
      ensures o.Pass? && AllInBox(old(feed), lbound, ubound) ==> AllInBox(current, lbound, ubound)
    {
      muF := 0.5;
      muCR := 0.5;
      archive := [];
      o := CreateInitialPopulation(u);
      if o.Fail? {
        return;
      }
      InitialInBox(u, lbound, ubound, old(feed), subpopulation);
      RankBothGenerations();
    }

    /** Both generations start as the initial population, evaluated and ranked. */
    method RankBothGenerations()
      requires Shaped() && Configured() && Rows(archive, dimension) && |archive| <= subpopulation
      requires 0.0 < muF <= 1.0 && 0.0 <= muCR <= 1.0
      modifies this`next, this`ranking, this`nextRanking
      ensures unchanged(this`totalGenerations, this`findMinimum, this`pmcrade, this`subpopulation,
                        this`dimension, this`bestShareP, this`adaptationC, this`errorStatus, this`isFeed,
                        this`feed, this`lbound, this`ubound, this`current, this`archive, this`pending,
                        this`successF, this`successCR, this`mutationF, this`crossoverCR, this`muF, this`muCR)
      ensures Running()
      ensures next == current && nextRanking == ranking
      ensures ranking == SortRanking(Evaluations(current, fitness), findMinimum)
    {
      next := current;
      EvaluateCurrentVectors();
      nextRanking := ranking;
    }

    /**
     * RunOptimization: refuses to start once the error flag is set, builds and
     * ranks the initial population, then runs totalGenerations generations and
     * stops at the first one that fails or sets the error flag.
     */
    method RunOptimization(u: seq<seq<real>>, generations: seq<GenerationDraws>) returns (o: Outcome)
      requires Shaped() && Configured() && PopulationDrawsFit(u, subpopulation, dimension) && Rows(feed, dimension)
      requires totalGenerations <= |generations|
      requires forall g :: 0 <= g < totalGenerations ==> GenerationDrawsFit(generations[g], subpopulation, dimension)
      modifies this`mutationF, this`crossoverCR, this`errorStatus, this`next, this`nextRanking,
               this`pending, this`successF, this`successCR, this`archive, this`muF, this`muCR,
               this`current, this`ranking, this`feed
      ensures old(errorStatus) ==> o == Fail(StatusFlagSet)
      ensures o.Fail? ==> o.error in {StatusFlagSet, FeedTooLarge, BoundsOutOfOrder, IndexOutOfRange, DrawsExhausted}
      ensures o.Pass? ==> Running() && !errorStatus
      ensures o.Pass? ==> |old(feed)| < subpopulation && BoundsOrdered(lbound, ubound)
      ensures o.Pass? && 0 < totalGenerations ==> bestShareP < 1.0
      ensures o.Pass? ==> forall s :: 0 <= s < subpopulation ==>
        NoWorse(current[s], InitialPopulation(u, lbound, ubound, old(feed), subpopulation)[s], fitness, findMinimum, lbound, ubound)
      ensures o.Pass? ==> forall s :: 0 <= s < subpopulation ==>
        AtLeastAsGood(ranking[0].fitness, fitness(InitialPopulation(u, lbound, ubound, old(feed), subpopulation)[s]), findMinimum)
      ensures o.Pass? && AllInBox(old(feed), lbound, ubound) ==> AllInBox(current, lbound, ubound)
      ensures o.Pass? && totalGenerations == 0 ==>
        current == InitialPopulation(u, lbound, ubound, old(feed), subpopulation) && muF == 0.5 && muCR == 0.5 && archive == []
    {
      if errorStatus {
        o := Fail(StatusFlagSet);
      } else {
        o := StartOptimization(u);
        if o.Pass? {
          ghost var initial := current;
          o := RunGenerations(generations);
          if o.Pass? {
            BestNeverWorsens([], initial, ranking, current, fitness, findMinimum, lbound, ubound);
          }
          if o.Pass? && AllInBox(initial, lbound, ubound) {
            forall s | 0 <= s < subpopulation
              ensures InBox(current[s], lbound, ubound)
            {
              assert NoWorse(current[s], initial[s], fitness, findMinimum, lbound, ubound);
            }
          }
        }
      }
    }

    /** The generation loop of RunOptimization: stops at the first generation that fails or sets the error flag. */
    method RunGenerations(generations: seq<GenerationDraws>) returns (o: Outcome)
      requires Running() && !errorStatus && totalGenerations <= |generations|
      requires forall g :: 0 <= g < totalGenerations ==> GenerationDrawsFit(generations[g], subpopulation, dimension)
      modifies this`mutationF, this`crossoverCR, this`errorStatus, this`next, this`nextRanking,
               this`pending, this`successF, this`successCR, this`archive, this`muF, this`muCR,
               this`current, this`ranking
      ensures unchanged(this`totalGenerations, this`findMinimum, this`pmcrade, this`subpopulation,
                        this`dimension, this`bestShareP, this`adaptationC, this`isFeed, this`feed,
                        this`lbound, this`ubound)
      ensures o.Fail? ==> o.error in {StatusFlagSet, IndexOutOfRange, DrawsExhausted}
      ensures o.Pass? ==> Running() && !errorStatus
      ensures o.Pass? && 0 < totalGenerations ==> bestShareP < 1.0
      ensures o.Pass? ==> forall s :: 0 <= s < subpopulation ==>
        NoWorse(current[s], old(current)[s], fitness, findMinimum, lbound, ubound)
      ensures o.Pass? ==> AtLeastAsGood(ranking[0].fitness, old(ranking)[0].fitness, findMinimum)
      ensures o.Pass? && totalGenerations == 0 ==>
        current == old(current) && ranking == old(ranking) && muF == old(muF) && muCR == old(muCR) && archive == old(archive)
    {
      ghost var rk0, xs0 := ranking, current;
      var g := 0;
      while g < totalGenerations
        invariant 0 <= g <= totalGenerations
        invariant unchanged(this`totalGenerations, this`findMinimum, this`pmcrade, this`subpopulation,
                            this`dimension, this`bestShareP, this`adaptationC, this`isFeed, this`feed,
                            this`lbound, this`ubound)
        invariant Running() && !errorStatus
        invariant 0 < g ==> bestShareP < 1.0
        invariant forall s :: 0 <= s < subpopulation ==> NoWorse(current[s], old(current)[s], fitness, findMinimum, lbound, ubound)
        invariant g == 0 ==> current == old(current) && ranking == old(ranking)
        invariant g == 0 ==> muF == old(muF) && muCR == old(muCR) && archive == old(archive)
      {
        o := Generation(generations[g]);
        if o.Fail? {
          return;
        }
        if errorStatus {
          return Fail(StatusFlagSet);
        }
        BestCountRange(subpopulation, bestShareP);
        g := g + 1;
      }
      BestNeverWorsens(rk0, xs0, ranking, current, fitness, findMinimum, lbound, ubound);
      return Pass;
    }

    /** GetBest: the vector at the head of the ranking and its fitness. */
    method GetBest() returns (x: seq<real>, bestFitness: real)
      requires |ranking| > 0 && 0 <= ranking[0].slot < |current|
      ensures x == current[ranking[0].slot] && bestFitness == ranking[0].fitness
      ensures Ranked() ==> bestFitness == fitness(x)
      ensures Ranked() ==> forall s :: 0 <= s < |current| ==> AtLeastAsGood(bestFitness, fitness(current[s]), findMinimum)
    {
      var head := ranking[0];
      bestFitness := head.fitness;
      x := current[head.slot];
      if Ranked() {

        HeadIsBest(ranking, current, fitness, findMinimum);
      }
    }

    /** GetWorst: the vector at the tail of the ranking and its fitness. */
    method GetWorst() returns (x: seq<real>, worstFitness: real)
      requires |ranking| > 0 && 0 <= ranking[|ranking| - 1].slot < |current|
      ensures x == current[ranking[|ranking| - 1].slot] && worstFitness == ranking[|ranking| - 1].fitness
      ensures Ranked() ==> worstFitness == fitness(x)
      ensures Ranked() ==> forall s :: 0 <= s < |current| ==> AtLeastAsGood(fitness(current[s]), worstFitness, findMinimum)
    {
      var tail := ranking[|ranking| - 1];
      worstFitness := tail.fitness;
      x := current[tail.slot];
      if Ranked() {

        TailIsWorst(ranking, current, fitness, findMinimum);
      }
    }
  }
}
