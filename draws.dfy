/**
 * The random variates the optimizer consumes, as values supplied by the caller.
 *
 * The C++ class draws from a std::mt19937 through four helpers (jade.cpp
 * randn, randc, randint, rand). Here each helper becomes a function of a
 * supplied draw: an integer draw is any natural number, reduced into the
 * requested range; a uniform real draw is a number in [0, 1) scaled into the
 * requested interval; a Gaussian or Cauchy draw is a standard variate that is
 * shifted and scaled by the requested location and scale. The covering lemmas
 * show that no value the distribution can produce is lost by this encoding.
 */
module Draws {

  /** randint(lo, hi): an integer of [lo, hi] chosen by the raw draw d. */
  function RandInt(lo: int, hi: int, d: nat): (r: int)
    requires lo <= hi
    ensures lo <= r <= hi
  {
    lo + d % (hi - lo + 1)
  }

  /** Every integer of [lo, hi] is produced by some raw draw. */
  lemma RandIntCovers(lo: int, hi: int, v: int)
    requires lo <= v <= hi
    ensures RandInt(lo, hi, v - lo) == v
  {
    var m := hi - lo + 1;
    assert 0 <= v - lo < m;
    assert (v - lo) % m == v - lo;
  }

  /** rand(lo, hi): a uniform real of [lo, hi) chosen by the unit draw u. */
  function Rand(lo: real, hi: real, u: real): (r: real)
    requires 0.0 <= u < 1.0
    ensures lo <= hi ==> lo <= r <= hi
    ensures lo < hi ==> r < hi
  {
    var width := hi - lo;
    ScaleByUnit(u, width);
    lo + u * width
  }

  /** A unit draw shrinks a non-negative width: 0 <= u * w <= w, and u * w < w when w > 0. */
  lemma ScaleByUnit(u: real, w: real)
    requires 0.0 <= u < 1.0
    ensures 0.0 <= w ==> 0.0 <= u * w <= w
    ensures 0.0 < w ==> u * w < w
  {
    if 0.0 <= w {
      assert w - u * w == (1.0 - u) * w;
      assert 0.0 <= (1.0 - u) * w;
      if 0.0 < w {
        assert 0.0 < (1.0 - u) * w;
      }
    }
  }

  /** Every real of [lo, hi) is produced by some unit draw. */
  lemma RandCovers(lo: real, hi: real, v: real)
    requires lo < hi && lo <= v < hi
    ensures 0.0 <= (v - lo) / (hi - lo) < 1.0
    ensures Rand(lo, hi, (v - lo) / (hi - lo)) == v
  {
    var w := hi - lo;
    var u := (v - lo) / w;
    assert u * w == v - lo;
    UnitOfRatio(v - lo, w);
  }

  /** A ratio a / w of 0 <= a < w lies in [0, 1). */
  lemma UnitOfRatio(a: real, w: real)
    requires 0.0 <= a < w
    ensures 0.0 <= a / w < 1.0
  {
    var q := a / w;
    assert q * w == a;
  }

  /** randn(mean, stddev) for the standard normal variate z. */
  function RandN(mean: real, stddev: real, z: real): (r: real)
    ensures z == 0.0 ==> r == mean
    ensures 0.0 <= stddev && 0.0 <= z ==> mean <= r
    ensures 0.0 <= stddev && z <= 0.0 ==> r <= mean
  {
    mean + stddev * z
  }

  /**
   * randc(location, scale) for the standard Cauchy variate t. It has the same
   * affine form as RandN: the two differ only in the distribution the supplied
   * variate is drawn from.
   */
  function RandC(location: real, scale: real, t: real): (r: real)
    ensures t == 0.0 ==> r == location
    ensures 0.0 <= scale && 0.0 <= t ==> location <= r
    ensures 0.0 <= scale && t <= 0.0 ==> r <= location
  {
    location + scale * t
  }

  /** Whether every entry of u is a unit draw. */
  predicate UnitDraws(u: seq<real>)
  {
    forall k :: 0 <= k < |u| ==> 0.0 <= u[k] < 1.0
  }

  /** SetCRiFi reads at most this many Cauchy variates for one F_i. */
  const MaxCauchyDraws: nat := 11

  /** The draws one individual consumes in one generation (jade.cpp:183-187). */
  datatype IndividualDraws = IndividualDraws(
    cauchy: seq<real>,   // standard Cauchy variates for F_i, read in order
    normal: real,        // standard normal variate for CR_i
    pbest: nat,          // raw draw for randint(0, floor(N * p))
    r1: seq<nat>,        // raw draws of the r1 rejection loop, read in order
    r2: seq<nat>,        // raw draws of the r2 rejection loop, read in order
    jrand: nat,          // raw draw for randint(0, D - 1)
    uniform: seq<real>)  // rand(0, 1) for each component; the one at j_rand is never read

  predicate IndividualDrawsFit(d: IndividualDraws, dimension: nat)
  {
    |d.cauchy| >= MaxCauchyDraws && |d.uniform| == dimension && UnitDraws(d.uniform)
  }

  /** The draws one generation consumes: one record per individual, then the archive removals. */
  datatype GenerationDraws = GenerationDraws(individuals: seq<IndividualDraws>, removals: seq<nat>)

  predicate GenerationDrawsFit(g: GenerationDraws, population: nat, dimension: nat)
  {
    && |g.individuals| == population
    && (forall i :: 0 <= i < population ==> IndividualDrawsFit(g.individuals[i], dimension))
    && |g.removals| >= population
  }
}
