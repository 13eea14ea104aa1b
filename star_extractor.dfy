/**
 * src/StarExtractor.py: draws the stars of a mass function one at a time, from the most
 * massive down. The first call returns the top bound; every later call asks
 * `GetMassStarMinX` for the mass one star below the previous one.
 */
module StarExtractor {
  import opened Wrappers
  import opened Common
  import opened MassFunction

  /**
   * The n-th answer (from 0) of a fresh extractor: the top bound, then one star below the
   * previous answer each time; the first error ends the stream.
   */
  function NthStar(mf: MassFunction, el: Elementary, n: nat): (r: Result<real>)
    requires WellFormed(mf)
    ensures r.Err? ==> n > 0 && SearchError(r.error)
  {
    if n == 0 then Ok(mf.bounds[|mf.bounds| - 1])
    else
      match NthStar(mf, el, n - 1)
      case Err(e) => Err(e)
      case Ok(m) => GetMassStarMinX(mf, el, m, 1.0)
  }

  /** `cStarExtractor`: the mass function it reads and the last mass it returned. */
  class StarExtractor {
    const massFunction: MassFunction
    const el: Elementary
    var lastMass: Option<real>
    /** How many calls have returned a mass so far. */
    ghost var drawn: nat

    /**
     * The stored mass is the answer to the previous call. (Stated for every index that could
     * be the previous one, so that a caller who never names the stream does not unfold it.)
     */
    ghost predicate Valid()
      reads this
    {
      && WellFormed(massFunction)
      && (lastMass.None? <==> drawn == 0)
      && forall n: nat {:trigger NthStar(massFunction, el, n)} :: n + 1 == drawn ==> NthStar(massFunction, el, n) == Ok(lastMass.value)
    }

    constructor (mf: MassFunction, elementary: Elementary)
      requires WellFormed(mf)
      ensures Valid()
      ensures massFunction == mf && el == elementary && lastMass == None && drawn == 0
    {
      massFunction := mf;
      el := elementary;
      lastMass := None;
      drawn := 0;
    }

    /**
     * `GetNextMostMassiveStar`: the top bound on the first call, `GetMassStarMinX(last, 1.0)`
     * afterwards, and the answer becomes the stored last mass. An error propagates before the
     * assignment, so it leaves the extractor as it was.
     */
    method GetNextMostMassiveStar() returns (r: Result<real>)
      requires Valid()
      modifies this
      ensures Valid()
      ensures r == NthStar(massFunction, el, old(drawn))
      ensures old(lastMass).None? ==> r == Ok(massFunction.bounds[|massFunction.bounds| - 1])
      ensures old(lastMass).Some? ==> r == GetMassStarMinX(massFunction, el, old(lastMass).value, 1.0)
      ensures r.Ok? ==> lastMass == Some(r.value) && drawn == old(drawn) + 1
      ensures r.Err? ==> lastMass == old(lastMass) && drawn == old(drawn)
    {
      if lastMass.None? {
        r := Ok(massFunction.bounds[|massFunction.bounds| - 1]);
      } else {
        r := GetMassStarMinX(massFunction, el, lastMass.value, 1.0);
      }
      if r.Ok? {
        lastMass := Some(r.value);
        drawn := drawn + 1;
      }
    }
  }

  // ---------------------------------------------------------------------------------------
  // Counting the drawn stars
  // ---------------------------------------------------------------------------------------

  lemma {:induction false} WalkAtTop(mf: MassFunction, el: Elementary, summand: real, n: nat)
    requires WellFormed(mf) && StrictlyIncreasing(mf.bounds) && n <= |mf.alphas|
    ensures var top := mf.bounds[|mf.bounds| - 1]; Walk(mf, el, summand, top, top, n, 0.0, false) == 0.0
    decreases |mf.alphas| - n
  {
    if n < |mf.alphas| {
      assert mf.bounds[n + 1] <= mf.bounds[|mf.bounds| - 1];
      WalkAtTop(mf, el, summand, n + 1);
    }
  }

  /** The top star alone: the count from the top bound to the top bound is the one top star. */
  lemma FirstStarCount(mf: MassFunction, el: Elementary)
    requires WellFormed(mf) && StrictlyIncreasing(mf.bounds)
    ensures var top := mf.bounds[|mf.bounds| - 1]; GetNumbers(mf, el, top, top) == 1.0
  {
    WalkAtTop(mf, el, 0.0, 0);
  }

  /** Stars counted from `m` up to the top, with the top star, as a difference of cumulative counts. */
  lemma CountToTop(mf: MassFunction, el: Elementary, m: real)
    requires WellFormed(mf) && StrictlyIncreasing(mf.bounds)
    requires mf.bounds[0] <= m <= mf.bounds[|mf.bounds| - 1]
    ensures var top := mf.bounds[|mf.bounds| - 1];
      GetNumbers(mf, el, m, top) == Cum(mf, el, 0.0, top) - Cum(mf, el, 0.0, m) + 1.0
  {
    var top := mf.bounds[|mf.bounds| - 1];
    if m < top {
      IntegralIsCumDifference(mf, el, 0.0, m, top);
    } else {
      WalkAtTop(mf, el, 0.0, 0);
    }
  }

  /**
   * What one draw below `m` needs: `m` lies above bounds[0], the search for one star ends as
   * `Reaches` says, and from the top bound the top segment holds at least one star.
   */
  ghost predicate StepReady(mf: MassFunction, el: Elementary, m: real)
    requires WellFormed(mf)
  {
    && mf.bounds[0] < m <= mf.bounds[|mf.bounds| - 1]
    && (m == mf.bounds[|mf.bounds| - 1] ==> 1.0 <= SegInt(mf, el, 0.0, Segment(mf, m), mf.bounds[Segment(mf, m)], m))
    && Reaches(mf, el, m, 1.0, RecursionLimit)
  }

  /**
   * One draw below `m` returns a lighter star, not below bounds[0], and the stars counted from
   * the new mass up to the top (top star included) are one more than from `m`.
   */
  lemma NextStarCount(mf: MassFunction, el: Elementary, m: real)
    requires WellFormed(mf) && StrictlyIncreasing(mf.bounds) && PowerLawsIncreasing(mf, el) && StepReady(mf, el, m)
    ensures GetMassStarMinX(mf, el, m, 1.0).Ok?
    ensures var next := GetMassStarMinX(mf, el, m, 1.0).value; var top := mf.bounds[|mf.bounds| - 1];
      && mf.bounds[0] <= next < m
      && GetNumbers(mf, el, next, top) == GetNumbers(mf, el, m, top) + 1.0
  {
    MassStarMinXCount(mf, el, m, 1.0, RecursionLimit);
    var next := GetMassStarMinX(mf, el, m, 1.0).value;
    CountToTop(mf, el, next);
    CountToTop(mf, el, m);
  }

  /**
   * While every draw is ready, the n-th answer (from 0) of the extractor is a mass with n + 1
   * stars counted from it up to the top, and each answer is lighter than the one before.
   */
  lemma {:induction false} StarCounts(mf: MassFunction, el: Elementary, n: nat)
    requires WellFormed(mf) && StrictlyIncreasing(mf.bounds) && PowerLawsIncreasing(mf, el)
    requires forall i :: 0 <= i < n ==> NthStar(mf, el, i).Ok? && StepReady(mf, el, NthStar(mf, el, i).value)
    ensures NthStar(mf, el, n).Ok?
    ensures GetNumbers(mf, el, NthStar(mf, el, n).value, mf.bounds[|mf.bounds| - 1]) == (n + 1) as real
    ensures mf.bounds[0] <= NthStar(mf, el, n).value
    ensures n > 0 ==> NthStar(mf, el, n).value < NthStar(mf, el, n - 1).value
  {
    if n == 0 {
      assert mf.bounds[0] <= mf.bounds[|mf.bounds| - 1];
      FirstStarCount(mf, el);
    } else {
      StarCounts(mf, el, n - 1);
      NextStarCount(mf, el, NthStar(mf, el, n - 1).value);
    }
  }
}
