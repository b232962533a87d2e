/**
 * The fitness ranking of SubPopulation (evaluated_fitness_for_current_vectors_
 * in scattnlay/examples/dipole_ml/jade.cpp): a list of (fitness, slot) pairs,
 * one per population slot, sorted best first.
 */
module Ranking {
  import opened Outcomes
  import opened Variation

  /** One element of the ranking: a fitness and the population slot it was computed for. */
  datatype Entry = Entry(fitness: real, slot: int)

  /** The slot column of a ranking. */
  function Slots(rk: seq<Entry>): (s: seq<int>)
    ensures |s| == |rk| && forall k :: 0 <= k < |rk| ==> s[k] == rk[k].slot
  {
    if rk == [] then [] else [rk[0].slot] + Slots(rk[1..])
  }

  /**
   * Exactly one entry for each slot 0 .. n-1, in some order: n entries that
   * between them name every slot below n (by counting, no slot twice).
   */
  ghost predicate OnePerSlot(rk: seq<Entry>, n: nat)
  {
    |rk| == n && forall s :: 0 <= s < n ==> s in Slots(rk)
  }

  /** Every entry records the fitness of the vector in its slot. */
  ghost predicate Consistent(rk: seq<Entry>, xs: seq<seq<real>>, fitness: seq<real> -> real)
  {
    forall k :: 0 <= k < |rk| ==> 0 <= rk[k].slot < |xs| && rk[k].fitness == fitness(xs[rk[k].slot])
  }

  /** Best first: ascending fitness when minimising, descending when maximising. */
  ghost predicate SortedRanking(rk: seq<Entry>, findMinimum: bool)
  {
    forall j, k :: 0 <= j < k < |rk| ==> AtLeastAsGood(rk[j].fitness, rk[k].fitness, findMinimum)
  }

  /** The entry of slot s records the fitness of the vector in slot s. */
  lemma EntryOfSlot(rk: seq<Entry>, xs: seq<seq<real>>, fitness: seq<real> -> real, s: int)
    returns (k: nat)
    requires OnePerSlot(rk, |xs|) && Consistent(rk, xs, fitness) && 0 <= s < |xs|
    ensures k < |rk| && rk[k].slot == s && rk[k].fitness == fitness(xs[s])
  {
    assert s in Slots(rk);
    var j :| 0 <= j < |Slots(rk)| && Slots(rk)[j] == s;
    k := j;
  }

  // ---------------------------------------------------------------------------
  // SortEvaluatedCurrent

  /** Insert e before the first entry it is at least as good as. */
  function Insert(e: Entry, rk: seq<Entry>, findMinimum: bool): (r: seq<Entry>)
    ensures |r| == |rk| + 1
    decreases |rk|
  {
    if rk == [] || AtLeastAsGood(e.fitness, rk[0].fitness, findMinimum) then [e] + rk
    else
      assert rk == [rk[0]] + rk[1..];
      [rk[0]] + Insert(e, rk[1..], findMinimum)
  }

  /** Inserting adds exactly the new entry. */
  lemma {:induction false} InsertPermutes(e: Entry, rk: seq<Entry>, findMinimum: bool)
    ensures multiset(Insert(e, rk, findMinimum)) == multiset(rk) + multiset{e}
    decreases |rk|
  {
    if rk != [] && !AtLeastAsGood(e.fitness, rk[0].fitness, findMinimum) {
      InsertPermutes(e, rk[1..], findMinimum);
      assert rk == [rk[0]] + rk[1..];
    }
  }

  /** Inserting into a sorted ranking keeps it sorted. */
  lemma {:induction false} InsertSorted(e: Entry, rk: seq<Entry>, findMinimum: bool)
    requires SortedRanking(rk, findMinimum)
    ensures SortedRanking(Insert(e, rk, findMinimum), findMinimum)
    decreases |rk|
  {
    if rk == [] || AtLeastAsGood(e.fitness, rk[0].fitness, findMinimum) {
    } else {
      var rest := Insert(e, rk[1..], findMinimum);
      InsertSorted(e, rk[1..], findMinimum);
      InsertPermutes(e, rk[1..], findMinimum);
      forall k | 0 <= k < |rest|
        ensures AtLeastAsGood(rk[0].fitness, rest[k].fitness, findMinimum)
      {
        assert rest[k] in multiset(rk[1..]) + multiset{e};
        if rest[k] != e {
          assert rest[k] in rk[1..];
        }
      }
    }
  }

  /** Inserting an entry adds its slot to the slot column. */
  lemma {:induction false} InsertSlots(e: Entry, rk: seq<Entry>, findMinimum: bool)
    ensures multiset(Slots(Insert(e, rk, findMinimum))) == multiset(Slots(rk)) + multiset{e.slot}
    decreases |rk|
  {
    if rk == [] || AtLeastAsGood(e.fitness, rk[0].fitness, findMinimum) {
      assert ([e] + rk)[1..] == rk;
    } else {
      var rest := Insert(e, rk[1..], findMinimum);
      InsertSlots(e, rk[1..], findMinimum);
      assert ([rk[0]] + rest)[1..] == rest;
      assert multiset(Slots(rk)) == multiset{rk[0].slot} + multiset(Slots(rk[1..]));
    }
  }

  /** The ranking sorted best first (std::list::sort with the comparator of SortEvaluatedCurrent). */
  function SortRanking(rk: seq<Entry>, findMinimum: bool): (r: seq<Entry>)
    ensures |r| == |rk|
    decreases |rk|
  {
    if rk == [] then []
    else Insert(rk[0], SortRanking(rk[1..], findMinimum), findMinimum)
  }

  /** Sorting permutes the entries. */
  lemma {:induction false} SortRankingPermutes(rk: seq<Entry>, findMinimum: bool)
    ensures multiset(SortRanking(rk, findMinimum)) == multiset(rk)
    decreases |rk|
  {
    if rk != [] {
      SortRankingPermutes(rk[1..], findMinimum);
      InsertPermutes(rk[0], SortRanking(rk[1..], findMinimum), findMinimum);
      assert rk == [rk[0]] + rk[1..];
    }
  }

  /** The sorted ranking is best first. */
  lemma {:induction false} SortRankingSorted(rk: seq<Entry>, findMinimum: bool)
    ensures SortedRanking(SortRanking(rk, findMinimum), findMinimum)
    decreases |rk|
  {
    if rk != [] {
      SortRankingSorted(rk[1..], findMinimum);
      InsertSorted(rk[0], SortRanking(rk[1..], findMinimum), findMinimum);
    }
  }

  /** Sorting permutes the slot column. */
  lemma {:induction false} SortRankingSlots(rk: seq<Entry>, findMinimum: bool)
    ensures multiset(Slots(SortRanking(rk, findMinimum))) == multiset(Slots(rk))
    decreases |rk|
  {
    if rk != [] {
      SortRankingSlots(rk[1..], findMinimum);
      InsertSlots(rk[0], SortRanking(rk[1..], findMinimum), findMinimum);
    }
  }

  /** Sorting keeps one entry per slot. */
  lemma SortKeepsSlots(rk: seq<Entry>, n: nat, findMinimum: bool)
    requires OnePerSlot(rk, n)
    ensures OnePerSlot(SortRanking(rk, findMinimum), n)
  {
    var r := SortRanking(rk, findMinimum);
    SortRankingSlots(rk, findMinimum);
    forall s | 0 <= s < n
      ensures s in Slots(r)
    {
      assert s in Slots(rk);
      assert s in multiset(Slots(rk));
      assert s in multiset(Slots(r));
    }
  }

  /** Sorting keeps one entry per slot and keeps every entry's fitness record. */
  lemma SortKeepsEntries(rk: seq<Entry>, xs: seq<seq<real>>, fitness: seq<real> -> real, findMinimum: bool)
    requires OnePerSlot(rk, |xs|) && Consistent(rk, xs, fitness)
    ensures OnePerSlot(SortRanking(rk, findMinimum), |xs|)
    ensures Consistent(SortRanking(rk, findMinimum), xs, fitness)
  {
    var r := SortRanking(rk, findMinimum);
    SortKeepsSlots(rk, |xs|, findMinimum);
    SortRankingPermutes(rk, findMinimum);
    forall k | 0 <= k < |r|
      ensures 0 <= r[k].slot < |xs| && r[k].fitness == fitness(xs[r[k].slot])
    {
      assert r[k] in multiset(rk);
      var j :| 0 <= j < |rk| && rk[j] == r[k];
    }
  }

  // ---------------------------------------------------------------------------
  // EvaluateCurrentVectors

  /** The unsorted ranking of a population: entry k holds the fitness of vector k. */
  function Evaluations(xs: seq<seq<real>>, fitness: seq<real> -> real): (rk: seq<Entry>)
    ensures |rk| == |xs|
    ensures Consistent(rk, xs, fitness) && OnePerSlot(rk, |xs|)
  {
    var rk := seq(|xs|, k requires 0 <= k < |xs| => Entry(fitness(xs[k]), k));
    assert OnePerSlot(rk, |xs|) by {
      forall s | 0 <= s < |xs|
        ensures s in Slots(rk)
      {
        assert Slots(rk)[s] == s;
      }
    }
    rk
  }

  // ---------------------------------------------------------------------------
  // GetBest, GetWorst

  /** The head of a sorted consistent ranking is at least as good as every vector of the population. */
  lemma HeadIsBest(rk: seq<Entry>, xs: seq<seq<real>>, fitness: seq<real> -> real, findMinimum: bool)
    requires OnePerSlot(rk, |xs|) && Consistent(rk, xs, fitness) && SortedRanking(rk, findMinimum)
    requires |xs| > 0
    ensures |rk| > 0
    ensures forall s :: 0 <= s < |xs| ==> AtLeastAsGood(rk[0].fitness, fitness(xs[s]), findMinimum)
  {
    forall s | 0 <= s < |xs|
      ensures AtLeastAsGood(rk[0].fitness, fitness(xs[s]), findMinimum)
    {
      var k := EntryOfSlot(rk, xs, fitness, s);
    }
  }

  /** Every vector of the population is at least as good as the tail of a sorted consistent ranking. */
  lemma TailIsWorst(rk: seq<Entry>, xs: seq<seq<real>>, fitness: seq<real> -> real, findMinimum: bool)
    requires OnePerSlot(rk, |xs|) && Consistent(rk, xs, fitness) && SortedRanking(rk, findMinimum)
    requires |xs| > 0
    ensures |rk| > 0
    ensures forall s :: 0 <= s < |xs| ==> AtLeastAsGood(fitness(xs[s]), rk[|rk| - 1].fitness, findMinimum)
  {
    forall s | 0 <= s < |xs|
      ensures AtLeastAsGood(fitness(xs[s]), rk[|rk| - 1].fitness, findMinimum)
    {
      var k := EntryOfSlot(rk, xs, fitness, s);
    }
  }

  // ---------------------------------------------------------------------------
  // Selection: reading and writing the record of one slot

  /** The fitness of the last entry naming slot s (the search loop of Selection); None if there is none. */
  function FitnessRecord(rk: seq<Entry>, s: int): (r: Option<real>)
    ensures r.None? <==> s !in Slots(rk)
    ensures r.Some? ==> exists k :: 0 <= k < |rk| && rk[k].slot == s && rk[k].fitness == r.value
    decreases |rk|
  {
    if rk == [] then None
    else
      var last := rk[|rk| - 1];
      var front := rk[..|rk| - 1];
      assert Slots(rk) == Slots(front) + [last.slot];
      if last.slot == s then Some(last.fitness) else FitnessRecord(front, s)
  }

  /** Scanning one more entry: it gives the record when it names s, and otherwise the record stays as it was. */
  lemma RecordOfPrefix(rk: seq<Entry>, k: nat, s: int)
    requires k < |rk|
    ensures FitnessRecord(rk[..k + 1], s) == if rk[k].slot == s then Some(rk[k].fitness) else FitnessRecord(rk[..k], s)
  {
    assert rk[..k + 1][..k] == rk[..k];
  }

  /** In a consistent ranking that names slot s, the record found for s is the fitness of vector s. */
  lemma RecordIsFitness(rk: seq<Entry>, xs: seq<seq<real>>, fitness: seq<real> -> real, s: int)
    requires Consistent(rk, xs, fitness) && s in Slots(rk)
    ensures FitnessRecord(rk, s) == Some(fitness(xs[s]))
  {
  }

  /** The ranking with every entry of slot s given fitness f (the update loops of Selection). */
  function WithFitness(rk: seq<Entry>, s: int, f: real): (r: seq<Entry>)
    ensures Slots(r) == Slots(rk)
  {
    seq(|rk|, k requires 0 <= k < |rk| => if rk[k].slot == s then Entry(f, s) else rk[k])
  }

  /** The update loop of Selection: every entry of slot s gets fitness f, in place, one entry at a time. */
  method SetSlotFitness(rk: seq<Entry>, s: int, f: real) returns (r: seq<Entry>)
    ensures r == WithFitness(rk, s, f)
  {
    r := rk;
    var k := 0;
    while k < |r|
      invariant 0 <= k <= |r| == |rk|
      invariant forall j :: 0 <= j < |r| ==> r[j] == if j < k then WithFitness(rk, s, f)[j] else rk[j]
    {
      if r[k].slot == s {
        r := r[k := Entry(f, s)];
      }
      k := k + 1;
    }
  }

  /** Writing vector y into slot s together with its fitness keeps a ranking consistent. */
  lemma WithFitnessConsistent(rk: seq<Entry>, xs: seq<seq<real>>, fitness: seq<real> -> real, s: int, y: seq<real>)
    requires Consistent(rk, xs, fitness) && 0 <= s < |xs|
    ensures Consistent(WithFitness(rk, s, fitness(y)), xs[s := y], fitness)
  {
  }
}
