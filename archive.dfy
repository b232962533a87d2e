/**
 * The archive of displaced parents (archived_best_A_ in
 * scattnlay/examples/dipole_ml/jade.cpp): after each generation the parents
 * replaced in selection are spliced onto its end, and then randomly chosen
 * elements are erased until at most N remain.
 */
module Archive {
  import opened Draws

  /** The sequence without its element at position j (std::list::erase). */
  function Remove<T>(s: seq<T>, j: nat): (r: seq<T>)
    requires j < |s|
    ensures |r| == |s| - 1
    ensures forall k :: 0 <= k < |r| ==> r[k] == if k < j then s[k] else s[k + 1]
  {
    s[..j] + s[j + 1..]
  }

  /**
   * The erase loop of ArchiveCleanUp: while s is longer than cap, the element at
   * randint(0, |s| - 1) is erased, the next raw draw choosing each time.
   */
  function Cleaned<T>(s: seq<T>, draws: seq<nat>, cap: nat): (r: seq<T>)
    requires |s| <= cap + |draws|
    ensures |r| == if |s| <= cap then |s| else cap
    ensures |s| <= cap ==> r == s
    decreases |s|
  {
    if |s| <= cap then s
    else Cleaned(Remove(s, RandInt(0, |s| - 1, draws[0])), draws[1..], cap)
  }

  /** One pass of the erase loop: with the archive above cap, cleaning with draws k.. is erasing the element draw k picks, then cleaning with draws k+1.. */
  lemma CleanedStep<T>(s: seq<T>, draws: seq<nat>, k: nat, cap: nat)
    requires k < |draws| && cap < |s| <= cap + |draws| - k
    ensures Cleaned(s, draws[k..], cap) == Cleaned(Remove(s, RandInt(0, |s| - 1, draws[k])), draws[k + 1..], cap)
  {
    assert draws[k..][1..] == draws[k + 1..];
  }

  /** The erase loop of ArchiveCleanUp: while s is above cap, the element the next draw picks is erased. */
  method EraseSurplus<T>(s: seq<T>, draws: seq<nat>, cap: nat) returns (r: seq<T>)
    requires |s| <= cap + |draws|
    ensures r == Cleaned(s, draws, cap)
  {
    r := s;
    var size := |r|;
    var initialDiff := size - cap;
    var k := 0;
    while k < initialDiff
      invariant 0 <= k && (initialDiff <= 0 ==> k == 0) && (0 < initialDiff ==> k <= initialDiff)
      invariant size == |r| == |s| - k
      invariant Cleaned(s, draws, cap) == Cleaned(r, draws[k..], cap)
    {
      var index := RandInt(0, size - 1, draws[k]);
      CleanedStep(r, draws, k, cap);
      r := Remove(r, index);
      size := size - 1;
      k := k + 1;
    }
  }

  /** Every index is a position of s and the indices strictly increase. */
  ghost predicate Increasing(idx: seq<int>, bound: int)
  {
    && (forall k :: 0 <= k < |idx| ==> 0 <= idx[k] < bound)
    && (forall j, k :: 0 <= j < k < |idx| ==> idx[j] < idx[k])
  }

  /** idx lists, in increasing order, the positions of s that r keeps. */
  ghost predicate Picks<T>(r: seq<T>, s: seq<T>, idx: seq<int>)
  {
    |idx| == |r| && Increasing(idx, |s|) && forall k :: 0 <= k < |r| ==> r[k] == s[idx[k]]
  }

  /** r is s with some elements left out and the rest kept in order. */
  ghost predicate SubsequenceOf<T>(r: seq<T>, s: seq<T>)
  {
    exists idx: seq<int> :: Picks(r, s, idx)
  }

  lemma SubsequenceReflexive<T>(s: seq<T>)
    ensures SubsequenceOf(s, s)
  {
    var idx := seq(|s|, k => k);
    assert Picks(s, s, idx);
  }

  /** Erasing one element leaves a subsequence. */
  lemma RemoveIsSubsequence<T>(s: seq<T>, j: nat)
    requires j < |s|
    ensures SubsequenceOf(Remove(s, j), s)
  {
    var r := Remove(s, j);
    var idx := seq(|r|, k => if k < j then k else k + 1);
    assert Picks(r, s, idx);
  }

  /** A subsequence of a subsequence of s is a subsequence of s. */
  lemma SubsequenceTransitive<T>(a: seq<T>, b: seq<T>, c: seq<T>)
    requires SubsequenceOf(a, b) && SubsequenceOf(b, c)
    ensures SubsequenceOf(a, c)
  {
    var ia: seq<int> :| Picks(a, b, ia);
    var ib: seq<int> :| Picks(b, c, ib);
    var idx := seq(|a|, k requires 0 <= k < |a| => ib[ia[k]]);
    assert Picks(a, c, idx);
  }

  /** The cleaned archive keeps the survivors in their original order. */
  lemma {:induction false} CleanedIsSubsequence<T>(s: seq<T>, draws: seq<nat>, cap: nat)
    requires |s| <= cap + |draws|
    ensures SubsequenceOf(Cleaned(s, draws, cap), s)
    decreases |s|
  {
    if |s| <= cap {
      SubsequenceReflexive(s);
    } else {
      var t := Remove(s, RandInt(0, |s| - 1, draws[0]));
      CleanedIsSubsequence(t, draws[1..], cap);
      RemoveIsSubsequence(s, RandInt(0, |s| - 1, draws[0]));
      SubsequenceTransitive(Cleaned(t, draws[1..], cap), t, s);
    }
  }

  /** When r keeps the last element of s, the rest of r is picked from the rest of s. */
  lemma PicksDropLast<T>(r: seq<T>, s: seq<T>, idx: seq<int>)
    requires Picks(r, s, idx) && 0 < |r| && idx[|r| - 1] == |s| - 1
    ensures Picks(r[..|r| - 1], s[..|s| - 1], idx[..|r| - 1])
  {
    var i2 := idx[..|r| - 1];
    forall k | 0 <= k < |i2|
      ensures i2[k] < |s| - 1
    {
      assert idx[k] < idx[|r| - 1];
    }
  }

  /** When r does not keep the last element of s, r is picked from the rest of s. */
  lemma PicksInFront<T>(r: seq<T>, s: seq<T>, idx: seq<int>)
    requires Picks(r, s, idx) && 0 < |s| && (|r| == 0 || idx[|r| - 1] < |s| - 1)
    ensures Picks(r, s[..|s| - 1], idx)
  {
    forall k | 0 <= k < |idx|
      ensures idx[k] < |s| - 1
    {
      if k < |idx| - 1 {
        assert idx[k] < idx[|idx| - 1];
      }
    }
  }

  /** Picking positions of s never takes an element more often than s holds it. */
  lemma {:induction false} PicksMultiset<T>(r: seq<T>, s: seq<T>, idx: seq<int>)
    requires Picks(r, s, idx)
    ensures multiset(r) <= multiset(s)
    decreases |s|
  {
    if |r| == 0 {
    } else {
      assert 0 <= idx[0] < |s|;
      var last := |s| - 1;
      var front := s[..last];
      assert s == front + [s[last]];
      if idx[|r| - 1] == last {
        var rf := r[..|r| - 1];
        PicksDropLast(r, s, idx);
        PicksMultiset(rf, front, idx[..|r| - 1]);
        assert r == rf + [s[last]];
      } else {
        PicksInFront(r, s, idx);
        PicksMultiset(r, front, idx);
      }
    }
  }

  /** A subsequence holds no element more often than the original. */
  lemma SubsequenceMultiset<T>(r: seq<T>, s: seq<T>)
    requires SubsequenceOf(r, s)
    ensures multiset(r) <= multiset(s)
  {
    var idx: seq<int> :| Picks(r, s, idx);
    PicksMultiset(r, s, idx);
  }

}
