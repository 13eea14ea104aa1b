/**
 * src/massfunction.py: a segmented power-law initial mass function xi(m) = k_i m^(-alpha_i) on
 * the segments [bounds[i], bounds[i+1]], normalised so that the mass integral over all segments
 * plus the most massive star bounds[-1] is the total mass Mtot. Powers, natural logarithms and
 * exponentials are left abstract (`Elementary`): only the table bookkeeping around them is
 * modelled, and every fact about them that a lemma needs is one of its hypotheses.
 */
module MassFunction {
  import opened Wrappers
  import opened Common

  /** Python's `pow`, `np.log` and `np.exp`, supplied by the caller. */
  datatype Elementary = Elementary(pow: (real, real) -> real, ln: real -> real, exp: real -> real)

  /**
   * A constructed `cMassFunction`: the total mass, the segment bounds, one slope per segment and
   * one normalisation constant per segment. The getters `GetMtot`, `Getbounds`, `Getalphas` and
   * `Getks` are the fields; nothing changes a mass function after construction.
   */
  datatype MassFunction = MassFunction(mtot: real, bounds: seq<real>, alphas: seq<real>, ks: seq<real>)

  /** The shape every constructed mass function has: one more bound than slopes, one k per slope. */
  predicate WellFormed(mf: MassFunction) {
    |mf.alphas| >= 1 && |mf.bounds| == |mf.alphas| + 1 && |mf.ks| == |mf.alphas|
  }

  /** The two-segment function the constructor falls back to when the lengths do not fit. */
  const DefaultBounds: seq<real> := [0.08, 0.5, 150.0]
  const DefaultAlphas: seq<real> := [1.3, 2.3]

  /** Python's `sum`, left to right. */
  function Sum(xs: seq<real>): real {
    if xs == [] then 0.0 else Sum(xs[..|xs| - 1]) + xs[|xs| - 1]
  }

  /** One segment's power law k m^(-alpha) at mass `m`. */
  function PowerLaw(el: Elementary, k: real, alpha: real, m: real): real {
    k * el.pow(m, -alpha)
  }

  /** The power laws on either side of bound `b` take the same value at `b`. */
  predicate PowerLawsMeet(el: Elementary, b: real, kLeft: real, alphaLeft: real, kRight: real, alphaRight: real) {
    PowerLaw(el, kRight, alphaRight, b) == PowerLaw(el, kLeft, alphaLeft, b)
  }

  /**
   * The preliminary k of the segment right of bound `b`, chosen so that `prev` m^(-alphaPrev)
   * and k m^(-alpha) meet at m = b.
   */
  function MatchedK(el: Elementary, prev: real, b: real, alphaPrev: real, alpha: real): (k: real)
    requires el.pow(b, -alpha) != 0.0
    ensures PowerLawsMeet(el, b, prev, alphaPrev, k, alpha)
  {
    prev * el.pow(b, -alphaPrev) / el.pow(b, -alpha)
  }

  /**
   * The preliminary ks of `__ComputeKs` after `n` appends: k_0 = 1 and each next k chosen so
   * that the two power laws meet at the shared bound; a zero divisor is a ZeroDivisionError.
   */
  function PrelimKs(bounds: seq<real>, alphas: seq<real>, el: Elementary, n: nat): (r: Result<seq<real>>)
    requires |bounds| == |alphas| + 1 && (n == 0 || n < |alphas|)
    ensures r.Ok? ==> |r.value| == n + 1 && r.value[0] == 1.0
  {
    if n == 0 then Ok([1.0])
    else
      match PrelimKs(bounds, alphas, el, n - 1)
      case Err(e) => Err(e)
      case Ok(ks) =>
        if el.pow(bounds[n], -alphas[n]) == 0.0 then Err(ZeroDivisionError)
        else Ok(ks + [MatchedK(el, ks[n - 1], bounds[n], alphas[n - 1], alphas[n])])
  }

  /** The mass in segment `n` for normalisation constant `k`: the closed form of the integral of m xi(m). */
  function SegmentMass(bounds: seq<real>, alphas: seq<real>, k: real, el: Elementary, n: nat): real
    requires |bounds| == |alphas| + 1 && n < |alphas|
  {
    if 2.0 == alphas[n] then k * (el.ln(bounds[n + 1]) - el.ln(bounds[n]))
    else k * (el.pow(bounds[n + 1], 2.0 - alphas[n]) - el.pow(bounds[n], 2.0 - alphas[n])) / (2.0 - alphas[n])
  }

  /** The masses of the first `count` segments. */
  function SegmentMasses(bounds: seq<real>, alphas: seq<real>, ks: seq<real>, el: Elementary, count: nat): seq<real>
    requires |bounds| == |alphas| + 1 && count <= |alphas| && count <= |ks|
  {
    seq(count, n requires 0 <= n < count => SegmentMass(bounds, alphas, ks[n], el, n))
  }

  /**
   * The ks `__ComputeKs` stores: the preliminary ones scaled by (Mtot - bounds[-1]) / (total
   * preliminary mass). With no slope at all the total is the empty sum and the division fails.
   */
  function Ks(mtot: real, bounds: seq<real>, alphas: seq<real>, el: Elementary): (r: Result<seq<real>>)
    requires |bounds| == |alphas| + 1
    ensures r.Ok? ==> |alphas| >= 1 && |r.value| == |alphas|
  {
    var appends := if |alphas| == 0 then 0 else |alphas| - 1;
    match PrelimKs(bounds, alphas, el, appends)
    case Err(e) => Err(e)
    case Ok(pre) =>
      var massTot := Sum(SegmentMasses(bounds, alphas, pre, el, |alphas|));
      if massTot == 0.0 then Err(ZeroDivisionError)
      else
        var factor := (mtot - bounds[|bounds| - 1]) / massTot;
        Ok(seq(|pre|, i requires 0 <= i < |pre| => factor * pre[i]))
  }

  lemma {:induction false} PrelimKsFailureStays(bounds: seq<real>, alphas: seq<real>, el: Elementary, n: nat, m: nat)
    requires |bounds| == |alphas| + 1 && (n == 0 || n < |alphas|) && n <= m && (m == 0 || m < |alphas|)
    requires PrelimKs(bounds, alphas, el, n).Err?
    ensures PrelimKs(bounds, alphas, el, m) == PrelimKs(bounds, alphas, el, n)
    decreases m - n
  {
    if n < m {
      PrelimKsFailureStays(bounds, alphas, el, n, m - 1);
    }
  }

  lemma PrelimKsSnoc(bounds: seq<real>, alphas: seq<real>, el: Elementary, n: nat, ks: seq<real>)
    requires |bounds| == |alphas| + 1 && n + 1 < |alphas|
    requires PrelimKs(bounds, alphas, el, n) == Ok(ks) && el.pow(bounds[n + 1], -alphas[n + 1]) != 0.0
    ensures PrelimKs(bounds, alphas, el, n + 1) == Ok(ks + [MatchedK(el, ks[n], bounds[n + 1], alphas[n], alphas[n + 1])])
  {
    var m := n + 1;
    assert m - 1 == n;
  }

  lemma SegmentMassesSnoc(bounds: seq<real>, alphas: seq<real>, ks: seq<real>, el: Elementary, n: nat)
    requires |bounds| == |alphas| + 1 && n < |alphas| && n < |ks|
    ensures SegmentMasses(bounds, alphas, ks, el, n + 1) ==
      SegmentMasses(bounds, alphas, ks, el, n) + [SegmentMass(bounds, alphas, ks[n], el, n)]
  {}

  /** `__ComputeKs`: the append loop, the loop over the segment masses and the rescale. */
  method ComputeKs(mtot: real, bounds: seq<real>, alphas: seq<real>, el: Elementary) returns (r: Result<seq<real>>)
    requires |bounds| == |alphas| + 1
    ensures r == Ks(mtot, bounds, alphas, el)
  {
    var ks := [1.0];
    var appends := if |alphas| == 0 then 0 else |alphas| - 1;
    for n := 0 to appends
      invariant PrelimKs(bounds, alphas, el, n) == Ok(ks)
    {
      var den := el.pow(bounds[n + 1], -alphas[n + 1]);
      if den == 0.0 {
        PrelimKsFailureStays(bounds, alphas, el, n + 1, appends);
        return Err(ZeroDivisionError);
      }
      PrelimKsSnoc(bounds, alphas, el, n, ks);
      ks := ks + [MatchedK(el, ks[|ks| - 1], bounds[n + 1], alphas[n], alphas[n + 1])];
    }
    var masses := [];
    for n := 0 to |alphas|
      invariant masses == SegmentMasses(bounds, alphas, ks, el, n)
    {
      SegmentMassesSnoc(bounds, alphas, ks, el, n);
      masses := masses + [SegmentMass(bounds, alphas, ks[n], el, n)];
    }
    var massTot := Sum(masses);
    if massTot == 0.0 {
      return Err(ZeroDivisionError);
    }
    var factor := (mtot - bounds[|bounds| - 1]) / massTot;
    ks := seq(|ks|, i requires 0 <= i < |ks| => factor * ks[i]);
    r := Ok(ks);
  }

  /**
   * `cMassFunction(Mtot, bounds, alphas)`: falls back to the default two-segment function when
   * the lengths do not fit, copies the inputs otherwise, and computes the ks.
   */
  method Create(mtot: real, bounds: seq<real>, alphas: seq<real>, el: Elementary) returns (r: Result<MassFunction>)
    ensures var fits := |bounds| == |alphas| + 1;
      var b := if fits then bounds else DefaultBounds;
      var a := if fits then alphas else DefaultAlphas;
      && (r.Ok? <==> Ks(mtot, b, a, el).Ok?)
      && (r.Err? ==> r.error == Ks(mtot, b, a, el).error)
      && (r.Ok? ==> r.value == MassFunction(mtot, b, a, Ks(mtot, b, a, el).value) && WellFormed(r.value))
  {
    var b, a := bounds, alphas;
    if |bounds| != |alphas| + 1 {
      b, a := DefaultBounds, DefaultAlphas;
    }
    var ks := ComputeKs(mtot, b, a, el);
    if ks.Err? {
      return Err(ks.error);
    }
    r := Ok(MassFunction(mtot, b, a, ks.value));
  }

  /** The mass functions `Create` returns: well formed, with the ks that `__ComputeKs` computes. */
  ghost predicate Constructed(mf: MassFunction, el: Elementary) {
    |mf.bounds| == |mf.alphas| + 1 && Ks(mf.mtot, mf.bounds, mf.alphas, el) == Ok(mf.ks)
  }

  /** Each preliminary k meets its predecessor's power law at the shared bound. */
  lemma {:induction false} PrelimKsMeet(bounds: seq<real>, alphas: seq<real>, el: Elementary, m: nat)
    requires |bounds| == |alphas| + 1 && (m == 0 || m < |alphas|)
    requires PrelimKs(bounds, alphas, el, m).Ok?
    ensures var pre := PrelimKs(bounds, alphas, el, m).value;
      forall n :: 0 <= n < m ==> PowerLawsMeet(el, bounds[n + 1], pre[n], alphas[n], pre[n + 1], alphas[n + 1])
    decreases m
  {
    if m > 0 {
      PrelimKsMeet(bounds, alphas, el, m - 1);
      var pre := PrelimKs(bounds, alphas, el, m).value;
      assert pre[..m] == PrelimKs(bounds, alphas, el, m - 1).value;
    }
  }

  /** The stored ks are the preliminary ones times the common factor of `__ComputeKs`. */
  lemma KsScaled(mtot: real, bounds: seq<real>, alphas: seq<real>, el: Elementary) returns (pre: seq<real>, factor: real)
    requires |bounds| == |alphas| + 1 && Ks(mtot, bounds, alphas, el).Ok?
    ensures PrelimKs(bounds, alphas, el, |alphas| - 1) == Ok(pre)
    ensures Sum(SegmentMasses(bounds, alphas, pre, el, |alphas|)) != 0.0
    ensures factor == (mtot - bounds[|bounds| - 1]) / Sum(SegmentMasses(bounds, alphas, pre, el, |alphas|))
    ensures var ks := Ks(mtot, bounds, alphas, el).value;
      |ks| == |pre| && forall i :: 0 <= i < |pre| ==> ks[i] == factor * pre[i]
  {
    pre := PrelimKs(bounds, alphas, el, |alphas| - 1).value;
    factor := (mtot - bounds[|bounds| - 1]) / Sum(SegmentMasses(bounds, alphas, pre, el, |alphas|));
  }

  lemma PowerLawScales(el: Elementary, k: real, alpha: real, m: real, factor: real)
    ensures PowerLaw(el, factor * k, alpha, m) == factor * PowerLaw(el, k, alpha, m)
  {
    var p := el.pow(m, -alpha);
    assert (factor * k) * p == factor * (k * p);
  }

  /**
   * The stored ks make the mass function continuous: at every interior bound the power laws of
   * the two neighbouring segments give the same value.
   */
  lemma {:induction false} KsContinuous(mtot: real, bounds: seq<real>, alphas: seq<real>, el: Elementary)
    requires |bounds| == |alphas| + 1 && Ks(mtot, bounds, alphas, el).Ok?
    ensures var ks := Ks(mtot, bounds, alphas, el).value;
      forall n :: 0 <= n < |alphas| - 1 ==> PowerLawsMeet(el, bounds[n + 1], ks[n], alphas[n], ks[n + 1], alphas[n + 1])
  {
    var pre, factor := KsScaled(mtot, bounds, alphas, el);
    PrelimKsMeet(bounds, alphas, el, |alphas| - 1);
    ScaledKsMeet(bounds, alphas, el, pre, Ks(mtot, bounds, alphas, el).value, factor);
  }

  /** Scaling every k by one factor keeps the power laws meeting at the bounds. */
  lemma ScaledKsMeet(bounds: seq<real>, alphas: seq<real>, el: Elementary, pre: seq<real>, ks: seq<real>, factor: real)
    requires |bounds| == |alphas| + 1 && |pre| == |ks| == |alphas|
    requires forall i :: 0 <= i < |pre| ==> ks[i] == factor * pre[i]
    requires forall n :: 0 <= n < |alphas| - 1 ==> PowerLawsMeet(el, bounds[n + 1], pre[n], alphas[n], pre[n + 1], alphas[n + 1])
    ensures forall n :: 0 <= n < |alphas| - 1 ==> PowerLawsMeet(el, bounds[n + 1], ks[n], alphas[n], ks[n + 1], alphas[n + 1])
  {
    forall n | 0 <= n < |alphas| - 1
      ensures PowerLawsMeet(el, bounds[n + 1], ks[n], alphas[n], ks[n + 1], alphas[n + 1])
    {
      PowerLawScales(el, pre[n], alphas[n], bounds[n + 1], factor);
      PowerLawScales(el, pre[n + 1], alphas[n + 1], bounds[n + 1], factor);
    }
  }

  lemma {:induction false} SumScaled(xs: seq<real>, ys: seq<real>, c: real)
    requires |xs| == |ys| && forall i :: 0 <= i < |xs| ==> ys[i] == c * xs[i]
    ensures Sum(ys) == c * Sum(xs)
    decreases |xs|
  {
    if xs != [] {
      SumScaled(xs[..|xs| - 1], ys[..|ys| - 1], c);
    }
  }

  /**
   * The stored ks normalise the function: the segment masses add up to Mtot minus the mass of
   * the most massive star, bounds[-1].
   */
  lemma {:induction false} KsNormalised(mtot: real, bounds: seq<real>, alphas: seq<real>, el: Elementary)
    requires |bounds| == |alphas| + 1 && Ks(mtot, bounds, alphas, el).Ok?
    ensures Sum(SegmentMasses(bounds, alphas, Ks(mtot, bounds, alphas, el).value, el, |alphas|)) == mtot - bounds[|bounds| - 1]
  {
    var pre, factor := KsScaled(mtot, bounds, alphas, el);
    ScaledMassesSum(bounds, alphas, pre, Ks(mtot, bounds, alphas, el).value, factor, el, mtot - bounds[|bounds| - 1]);
  }

  /** Scaling the ks by target / (total mass) makes the total mass the target. */
  lemma ScaledMassesSum(bounds: seq<real>, alphas: seq<real>, pre: seq<real>, ks: seq<real>, factor: real, el: Elementary, target: real)
    requires |bounds| == |alphas| + 1 && |pre| == |ks| == |alphas|
    requires forall i :: 0 <= i < |pre| ==> ks[i] == factor * pre[i]
    requires Sum(SegmentMasses(bounds, alphas, pre, el, |alphas|)) != 0.0
    requires factor == target / Sum(SegmentMasses(bounds, alphas, pre, el, |alphas|))
    ensures Sum(SegmentMasses(bounds, alphas, ks, el, |alphas|)) == target
  {
    SegmentMassesScale(bounds, alphas, pre, ks, factor, el);
    DivideBack(target, Sum(SegmentMasses(bounds, alphas, pre, el, |alphas|)), factor);
  }

  lemma SegmentMassesScale(bounds: seq<real>, alphas: seq<real>, pre: seq<real>, ks: seq<real>, factor: real, el: Elementary)
    requires |bounds| == |alphas| + 1 && |pre| == |ks| == |alphas|
    requires forall i :: 0 <= i < |pre| ==> ks[i] == factor * pre[i]
    ensures Sum(SegmentMasses(bounds, alphas, ks, el, |alphas|)) == factor * Sum(SegmentMasses(bounds, alphas, pre, el, |alphas|))
  {
    SegmentMassesScaleEach(bounds, alphas, pre, ks, factor, el);
    SumScaled(SegmentMasses(bounds, alphas, pre, el, |alphas|), SegmentMasses(bounds, alphas, ks, el, |alphas|), factor);
  }

  lemma SegmentMassesScaleEach(bounds: seq<real>, alphas: seq<real>, pre: seq<real>, ks: seq<real>, factor: real, el: Elementary)
    requires |bounds| == |alphas| + 1 && |pre| == |ks| == |alphas|
    requires forall i :: 0 <= i < |pre| ==> ks[i] == factor * pre[i]
    ensures var xs, ys := SegmentMasses(bounds, alphas, pre, el, |alphas|), SegmentMasses(bounds, alphas, ks, el, |alphas|);
      forall i :: 0 <= i < |alphas| ==> ys[i] == factor * xs[i]
  {
    forall i | 0 <= i < |alphas|
      ensures SegmentMass(bounds, alphas, ks[i], el, i) == factor * SegmentMass(bounds, alphas, pre[i], el, i)
    {
      SegmentMassScales(bounds, alphas, pre[i], ks[i], factor, el, i);
    }
  }

  lemma SegmentMassScales(bounds: seq<real>, alphas: seq<real>, k: real, k2: real, factor: real, el: Elementary, n: nat)
    requires |bounds| == |alphas| + 1 && n < |alphas| && k2 == factor * k
    ensures SegmentMass(bounds, alphas, k2, el, n) == factor * SegmentMass(bounds, alphas, k, el, n)
  {
    var a := alphas[n];
    if 2.0 == a {
      var d := el.ln(bounds[n + 1]) - el.ln(bounds[n]);
      assert (factor * k) * d == factor * (k * d);
    } else {
      var d := el.pow(bounds[n + 1], 2.0 - a) - el.pow(bounds[n], 2.0 - a);
      assert (factor * k) * d == factor * (k * d);
      ScaleQuotient(factor, k * d, 2.0 - a);
    }
  }

  /** Multiplying a quotient's numerator scales the quotient. */
  lemma ScaleQuotient(f: real, x: real, c: real)
    requires c != 0.0
    ensures (f * x) / c == f * (x / c)
  {
    var q, p := x / c, (f * x) / c;
    assert q * c == x && p * c == f * x;
    assert (f * q) * c == f * (q * c);
    assert (p - f * q) * c == 0.0;
  }

  /** A factor may move out of a quotient's numerator. */
  lemma QuotientTimes(k: real, d: real, c: real)
    requires c != 0.0
    ensures k / c * d == k * d / c
  {
    var q, p := k / c, k * d / c;
    assert q * c == k && p * c == k * d;
    assert (q * d) * c == (q * c) * d;
    assert (q * d - p) * c == 0.0;
  }

  lemma QuotientOfItself(x: real)
    requires x != 0.0
    ensures x / x == 1.0
  {}

  lemma DivideBack(x: real, y: real, q: real)
    requires y != 0.0 && q == x / y
    ensures q * y == x
  {}

  /** The ks that the unit tests pin, given the values of the powers and logarithms involved. */
  lemma KsTestValues(el: Elementary)
    requires el.pow(1.0, 1.0) == 1.0 && el.pow(0.08, 1.0) == 0.08
    requires el.pow(1.0, -1.0) == 1.0 && el.pow(1.0, -2.0) == 1.0
    requires el.ln(1.0) == 0.0 && el.ln(2.0) > 0.0
    ensures Ks(1.0, [0.08, 1.0], [1.0], el) == Ok([0.0])
    ensures Ks(2.0, [0.08, 1.0], [1.0], el) == Ok([1.0 / 0.92])
    ensures var k := 1.0 / (0.92 + el.ln(2.0));
      Ks(3.0, [0.08, 1.0, 2.0], [1.0, 2.0], el) == Ok([k, k])
  {
    KsOneSegmentValues(el);
    KsTwoSegmentValues(el);
  }

  /** The one-segment cases of `KsTestValues`. */
  lemma KsOneSegmentValues(el: Elementary)
    requires el.pow(1.0, 1.0) == 1.0 && el.pow(0.08, 1.0) == 0.08
    ensures Ks(1.0, [0.08, 1.0], [1.0], el) == Ok([0.0])
    ensures Ks(2.0, [0.08, 1.0], [1.0], el) == Ok([1.0 / 0.92])
  {
    var b1, a1 := [0.08, 1.0], [1.0];
    assert PrelimKs(b1, a1, el, 0) == Ok([1.0]);
    assert SegmentMass(b1, a1, 1.0, el, 0) == 0.92;
    assert SegmentMasses(b1, a1, [1.0], el, 1) == [0.92];
    assert Sum([0.92]) == 0.92;
    var r1 := Ks(1.0, b1, a1, el).value;
    assert r1[0] == 0.0 && r1 == [0.0];
    var r2 := Ks(2.0, b1, a1, el).value;
    assert r2[0] == 1.0 / 0.92 && r2 == [1.0 / 0.92];
  }

  /** The two-segment case of `KsTestValues`. */
  lemma KsTwoSegmentValues(el: Elementary)
    requires el.pow(1.0, 1.0) == 1.0 && el.pow(0.08, 1.0) == 0.08
    requires el.pow(1.0, -1.0) == 1.0 && el.pow(1.0, -2.0) == 1.0
    requires el.ln(1.0) == 0.0 && el.ln(2.0) > 0.0
    ensures var k := 1.0 / (0.92 + el.ln(2.0));
      Ks(3.0, [0.08, 1.0, 2.0], [1.0, 2.0], el) == Ok([k, k])
  {
    var b3, a3 := [0.08, 1.0, 2.0], [1.0, 2.0];
    assert MatchedK(el, 1.0, 1.0, 1.0, 2.0) == 1.0;
    PrelimKsSnoc(b3, a3, el, 0, [1.0]);
    assert [1.0] + [1.0] == [1.0, 1.0];
    assert PrelimKs(b3, a3, el, 1) == Ok([1.0, 1.0]);
    assert SegmentMass(b3, a3, 1.0, el, 0) == 0.92;
    assert SegmentMass(b3, a3, 1.0, el, 1) == el.ln(2.0);
    SegmentMassesSnoc(b3, a3, [1.0, 1.0], el, 1);
    assert SegmentMasses(b3, a3, [1.0, 1.0], el, 1) == [0.92];
    assert SegmentMasses(b3, a3, [1.0, 1.0], el, 2) == [0.92, el.ln(2.0)];
    assert [0.92, el.ln(2.0)][..1] == [0.92];
    assert Sum([0.92]) == 0.92;
    assert Sum([0.92, el.ln(2.0)]) == 0.92 + el.ln(2.0);
    var k := 1.0 / (0.92 + el.ln(2.0));
    var r3 := Ks(3.0, b3, a3, el).value;
    assert r3[0] == k && r3[1] == k && r3 == [k, k];
  }

  /** The first segment, at or after `i`, whose upper bound is not below `mass`. */
  function FirstSegmentFrom(bounds: seq<real>, mass: real, i: nat): (a: nat)
    requires i < |bounds| - 1 && mass <= bounds[|bounds| - 1]
    ensures i <= a < |bounds| - 1 && mass <= bounds[a + 1]
    ensures forall j :: i < j <= a ==> bounds[j] < mass
    decreases |bounds| - i
  {
    if mass <= bounds[i + 1] then i else FirstSegmentFrom(bounds, mass, i + 1)
  }

  /**
   * The segment the loops of `GetFunctionValue`, `GetMassDensity` and `GetMassStarMinX` pick:
   * the first whose upper bound is at least `mass`.
   */
  function Segment(mf: MassFunction, mass: real): (a: nat)
    requires WellFormed(mf) && mass <= mf.bounds[|mf.bounds| - 1]
    ensures a < |mf.alphas| && mass <= mf.bounds[a + 1]
    ensures forall j :: 0 < j <= a ==> mf.bounds[j] < mass
  {
    FirstSegmentFrom(mf.bounds, mass, 0)
  }

  /** With increasing bounds the segment is the one whose half-open range (b_a, b_a+1] holds `mass`; an interior bound belongs to the segment below it. */
  lemma SegmentOfSorted(mf: MassFunction, mass: real, a: int)
    requires WellFormed(mf) && StrictlyIncreasing(mf.bounds)
    requires 0 <= a < |mf.alphas| && mf.bounds[a] <= mass <= mf.bounds[a + 1]
    ensures mass > mf.bounds[a] || a == 0 ==> Segment(mf, mass) == a
    ensures mass == mf.bounds[a] && a > 0 ==> Segment(mf, mass) == a - 1
  {
    var s := Segment(mf, mass);
    assert mass <= mf.bounds[s + 1];
    assert s + 1 >= a;
  }

  /** `GetFunctionValue`: xi(mass), or the out-of-bounds ValueError. */
  function GetFunctionValue(mf: MassFunction, el: Elementary, mass: real): (r: Result<real>)
    requires WellFormed(mf)
    ensures r.Err? <==> mass < mf.bounds[0] || mass > mf.bounds[|mf.bounds| - 1]
    ensures r.Err? ==> r.error == ValueError("massfunction: GetFunctionValue: mass out of bounds!")
  {
    if mass < mf.bounds[0] || mass > mf.bounds[|mf.bounds| - 1] then
      Err(ValueError("massfunction: GetFunctionValue: mass out of bounds!"))
    else
      var a := Segment(mf, mass);
      Ok(PowerLaw(el, mf.ks[a], mf.alphas[a], mass))
  }

  /** `GetMassDensity`: mass times xi(mass), with its own out-of-bounds message. */
  function GetMassDensity(mf: MassFunction, el: Elementary, mass: real): (r: Result<real>)
    requires WellFormed(mf)
    ensures r.Err? <==> GetFunctionValue(mf, el, mass).Err?
    ensures r.Err? ==> r.error == ValueError("massfunction: GetMassDensity: mass out of bounds!")
    ensures r.Ok? ==> r.value == mass * GetFunctionValue(mf, el, mass).value
  {
    if mass < mf.bounds[0] || mass > mf.bounds[|mf.bounds| - 1] then
      Err(ValueError("massfunction: GetMassDensity: mass out of bounds!"))
    else
      var a := Segment(mf, mass);
      Ok(mass * PowerLaw(el, mf.ks[a], mf.alphas[a], mass))
  }

  /**
   * For a constructed function with increasing bounds, the value at an interior bound (taken
   * from the segment below) equals what the segment above gives there.
   */
  lemma FunctionValueContinuous(mf: MassFunction, el: Elementary, n: int)
    requires WellFormed(mf) && Constructed(mf, el) && StrictlyIncreasing(mf.bounds)
    requires 0 <= n < |mf.alphas| - 1
    ensures GetFunctionValue(mf, el, mf.bounds[n + 1]) ==
      Ok(PowerLaw(el, mf.ks[n + 1], mf.alphas[n + 1], mf.bounds[n + 1]))
  {
    FunctionValueAtBound(mf, el, n);
    ConstructedMeet(mf, el, n);
  }

  /** At an interior bound, `GetFunctionValue` uses the segment below it. */
  lemma FunctionValueAtBound(mf: MassFunction, el: Elementary, n: int)
    requires WellFormed(mf) && StrictlyIncreasing(mf.bounds) && 0 <= n < |mf.alphas| - 1
    ensures GetFunctionValue(mf, el, mf.bounds[n + 1]) == Ok(PowerLaw(el, mf.ks[n], mf.alphas[n], mf.bounds[n + 1]))
  {
    var b := mf.bounds[n + 1];
    assert mf.bounds[0] <= mf.bounds[n] < b < mf.bounds[|mf.bounds| - 1];
    SegmentOfSorted(mf, b, n);
    assert Segment(mf, b) == n;
  }

  lemma ConstructedMeet(mf: MassFunction, el: Elementary, n: int)
    requires Constructed(mf, el) && 0 <= n < |mf.alphas| - 1
    ensures PowerLawsMeet(el, mf.bounds[n + 1], mf.ks[n], mf.alphas[n], mf.ks[n + 1], mf.alphas[n + 1])
  {
    KsContinuous(mf.mtot, mf.bounds, mf.alphas, el);
  }

  /** `GetAlpha`: the slope of segment `index`, which must be a valid non-negative index. */
  function GetAlpha(mf: MassFunction, index: int): (r: Result<real>)
    ensures r.Ok? <==> 0 <= index < |mf.alphas|
    ensures r.Ok? ==> r.value == mf.alphas[index]
    ensures r.Err? ==> r.error == ValueError("massfunction: GetAlpha: index out of bounds!")
  {
    if index >= |mf.alphas| || 0 > index then Err(ValueError("massfunction: GetAlpha: index out of bounds!"))
    else Ok(mf.alphas[index])
  }

  /** `GetK`: the constant of segment `index`, which must be a valid non-negative index. */
  function GetK(mf: MassFunction, index: int): (r: Result<real>)
    ensures r.Ok? <==> 0 <= index < |mf.ks|
    ensures r.Ok? ==> r.value == mf.ks[index]
    ensures r.Err? ==> r.error == ValueError("massfunction: GetK: index out of bounds!")
  {
    if index >= |mf.ks| || 0 > index then Err(ValueError("massfunction: GetK: index out of bounds!"))
    else Ok(mf.ks[index])
  }

  /** The getters return the constructor's inputs, and report the two test errors for indices -1 and 3. */
  lemma GetterTestValues(el: Elementary, mf: MassFunction)
    requires Constructed(mf, el) && mf.mtot == 3.0 && mf.bounds == [0.08, 1.0, 2.0] && mf.alphas == [1.0, 2.0]
    ensures GetAlpha(mf, 0) == Ok(1.0) && GetAlpha(mf, 1) == Ok(2.0)
    ensures GetAlpha(mf, -1).Err? && GetAlpha(mf, 3).Err?
    ensures GetFunctionValue(mf, el, 0.05).Err? && GetFunctionValue(mf, el, 3.0).Err?
    ensures GetMassDensity(mf, el, 0.05).Err? && GetMassDensity(mf, el, 3.0).Err?
  {}

  /**
   * The `IntRan` lambda of `ComputeIntegral`: the integral of k m^(summand - alpha) from m1 to
   * m2, the logarithmic form when the exponent is -1.
   */
  function IntRan(el: Elementary, summand: real, m1: real, m2: real, alpha: real, k: real): real {
    if summand + 1.0 == alpha then k * (el.ln(m2) - el.ln(m1))
    else k / (1.0 + summand - alpha) * (el.pow(m2, 1.0 + summand - alpha) - el.pow(m1, 1.0 + summand - alpha))
  }

  /** Integrals over adjacent ranges add up, for either closed form. */
  lemma IntRanAdditive(el: Elementary, summand: real, x: real, y: real, z: real, alpha: real, k: real)
    ensures IntRan(el, summand, x, y, alpha, k) + IntRan(el, summand, y, z, alpha, k) == IntRan(el, summand, x, z, alpha, k)
  {
    if summand + 1.0 != alpha {
      var c, e := k / (1.0 + summand - alpha), 1.0 + summand - alpha;
      assert c * (el.pow(y, e) - el.pow(x, e)) + c * (el.pow(z, e) - el.pow(y, e)) == c * (el.pow(z, e) - el.pow(x, e));
    }
  }

  /** `IntRan` with segment `n`'s slope and constant. */
  function SegInt(mf: MassFunction, el: Elementary, summand: real, n: nat, lo: real, hi: real): real
    requires WellFormed(mf) && n < |mf.alphas|
  {
    IntRan(el, summand, lo, hi, mf.alphas[n], mf.ks[n])
  }

  /**
   * The loop of `ComputeIntegral` from iteration `n` on, with `Int` = `acc` and `InRange` =
   * `inRange`, over the already clipped interval [m1, m2].
   */
  function Walk(mf: MassFunction, el: Elementary, summand: real, m1: real, m2: real, n: nat, acc: real, inRange: bool): real
    requires WellFormed(mf) && n <= |mf.alphas|
    decreases |mf.alphas| - n
  {
    if n == |mf.alphas| then acc
    else
      var lo, hi := mf.bounds[n], mf.bounds[n + 1];
      if lo <= m1 && m1 < hi then
        if lo < m2 && m2 <= hi then SegInt(mf, el, summand, n, m1, m2)
        else Walk(mf, el, summand, m1, m2, n + 1, acc + SegInt(mf, el, summand, n, m1, hi), true)
      else if inRange then
        if lo < m2 && m2 <= hi then acc + SegInt(mf, el, summand, n, lo, m2)
        else Walk(mf, el, summand, m1, m2, n + 1, acc + SegInt(mf, el, summand, n, lo, hi), true)
      else Walk(mf, el, summand, m1, m2, n + 1, acc, false)
  }

  /** `ComputeIntegral(mass1, mass2, summand)` as a function: clip to [bounds[0], bounds[-1]], then the walk. */
  function Integral(mf: MassFunction, el: Elementary, summand: real, mass1: real, mass2: real): real
    requires WellFormed(mf)
  {
    var m1 := if mass1 < mf.bounds[0] then mf.bounds[0] else mass1;
    var m2 := if mass2 > mf.bounds[|mf.bounds| - 1] then mf.bounds[|mf.bounds| - 1] else mass2;
    Walk(mf, el, summand, m1, m2, 0, 0.0, false)
  }

  /** `ComputeIntegral`: the segment walk accumulating `Int` under the `InRange` flag. */
  method ComputeIntegral(mf: MassFunction, el: Elementary, mass1: real, mass2: real, summand: real) returns (total: real)
    requires WellFormed(mf)
    ensures total == Integral(mf, el, summand, mass1, mass2)
  {
    var bounds := mf.bounds;
    total := 0.0;
    var inRange := false;
    var m1, m2 := mass1, mass2;
    if m1 < bounds[0] {
      m1 := bounds[0];
    }
    if m2 > bounds[|bounds| - 1] {
      m2 := bounds[|bounds| - 1];
    }
    for n := 0 to |bounds| - 1
      invariant Walk(mf, el, summand, m1, m2, n, total, inRange) == Integral(mf, el, summand, mass1, mass2)
    {
      if bounds[n] <= m1 && m1 < bounds[n + 1] {
        if bounds[n] < m2 && m2 <= bounds[n + 1] {
          total := IntRan(el, summand, m1, m2, mf.alphas[n], mf.ks[n]);
          return;
        }
        total := total + IntRan(el, summand, m1, bounds[n + 1], mf.alphas[n], mf.ks[n]);
        inRange := true;
        continue;
      }
      if inRange {
        if bounds[n] < m2 && m2 <= bounds[n + 1] {
          total := total + IntRan(el, summand, bounds[n], m2, mf.alphas[n], mf.ks[n]);
          inRange := false;
          return;
        } else {
          total := total + IntRan(el, summand, bounds[n], bounds[n + 1], mf.alphas[n], mf.ks[n]);
        }
      }
    }
  }

  /** The integral over the first `j` whole segments: the reference the walk is compared with. */
  function Prefix(mf: MassFunction, el: Elementary, summand: real, j: nat): real
    requires WellFormed(mf) && j <= |mf.alphas|
  {
    if j == 0 then 0.0
    else Prefix(mf, el, summand, j - 1) + SegInt(mf, el, summand, j - 1, mf.bounds[j - 1], mf.bounds[j])
  }

  /** The integral from bounds[0] up to `x`, through the segment that holds `x`. */
  function Cum(mf: MassFunction, el: Elementary, summand: real, x: real): real
    requires WellFormed(mf) && mf.bounds[0] <= x <= mf.bounds[|mf.bounds| - 1]
  {
    var a := Segment(mf, x);
    Prefix(mf, el, summand, a) + SegInt(mf, el, summand, a, mf.bounds[a], x)
  }

  /** `Cum` may be read through any segment whose closed range holds `x`. */
  lemma CumThrough(mf: MassFunction, el: Elementary, summand: real, x: real, a: int)
    requires WellFormed(mf) && StrictlyIncreasing(mf.bounds)
    requires 0 <= a < |mf.alphas| && mf.bounds[a] <= x <= mf.bounds[a + 1]
    ensures mf.bounds[0] <= x <= mf.bounds[|mf.bounds| - 1]
    ensures Cum(mf, el, summand, x) == Prefix(mf, el, summand, a) + SegInt(mf, el, summand, a, mf.bounds[a], x)
  {
    assert mf.bounds[0] <= mf.bounds[a] && mf.bounds[a + 1] <= mf.bounds[|mf.bounds| - 1];
    SegmentOfSorted(mf, x, a);
    if x == mf.bounds[a] && a > 0 {
      IntRanAdditive(el, summand, x, x, x, mf.alphas[a], mf.ks[a]);
    }
  }

  /** Before the segment holding m1, the walk only moves on. */
  lemma {:induction false} WalkSkips(mf: MassFunction, el: Elementary, summand: real, m1: real, m2: real, n: nat, i: nat)
    requires WellFormed(mf) && StrictlyIncreasing(mf.bounds)
    requires n <= i < |mf.alphas| && mf.bounds[i] <= m1
    ensures Walk(mf, el, summand, m1, m2, n, 0.0, false) == Walk(mf, el, summand, m1, m2, i, 0.0, false)
    decreases i - n
  {
    if n < i {
      assert mf.bounds[n + 1] <= mf.bounds[i];
      WalkSkips(mf, el, summand, m1, m2, n + 1, i);
    }
  }

  /** Past the segment holding m1, the walk adds whole segments until the one holding m2. */
  lemma {:induction false} WalkInRange(mf: MassFunction, el: Elementary, summand: real, m1: real, m2: real,
                                      n: nat, acc: real, j: nat)
    requires WellFormed(mf) && StrictlyIncreasing(mf.bounds)
    requires 0 < n <= j < |mf.alphas| && m1 < mf.bounds[n] && mf.bounds[j] < m2 <= mf.bounds[j + 1]
    ensures Walk(mf, el, summand, m1, m2, n, acc, true) ==
      acc + (Prefix(mf, el, summand, j) - Prefix(mf, el, summand, n)) + SegInt(mf, el, summand, j, mf.bounds[j], m2)
    decreases j - n
  {
    if n < j {
      assert mf.bounds[n + 1] <= mf.bounds[j] && mf.bounds[n] < mf.bounds[n + 1];
      WalkInRange(mf, el, summand, m1, m2, n + 1, acc + SegInt(mf, el, summand, n, mf.bounds[n], mf.bounds[n + 1]), j);
    }
  }

  /** Every mass in [bounds[0], bounds[-1]) lies in exactly one half-open segment [b_i, b_i+1). */
  lemma HalfOpenSegment(mf: MassFunction, x: real) returns (i: nat)
    requires WellFormed(mf) && StrictlyIncreasing(mf.bounds)
    requires mf.bounds[0] <= x < mf.bounds[|mf.bounds| - 1]
    ensures i < |mf.alphas| && mf.bounds[i] <= x < mf.bounds[i + 1]
  {
    var a := Segment(mf, x);
    if a > 0 {
      assert mf.bounds[a] < x;
    }
    if x < mf.bounds[a + 1] {
      i := a;
    } else {
      i := a + 1;
    }
  }

  /**
   * For increasing bounds, `ComputeIntegral` over a non-empty clipped interval is the difference
   * of the cumulative integral at its two ends: it adds a partial first segment, whole middle
   * segments and a partial last segment, or one piece when both ends share a segment.
   */
  lemma {:induction false} IntegralIsCumDifference(mf: MassFunction, el: Elementary, summand: real, mass1: real, mass2: real)
    requires WellFormed(mf) && StrictlyIncreasing(mf.bounds)
    requires Max(mass1, mf.bounds[0]) < Min(mass2, mf.bounds[|mf.bounds| - 1])
    ensures var m1, m2 := Max(mass1, mf.bounds[0]), Min(mass2, mf.bounds[|mf.bounds| - 1]);
      Integral(mf, el, summand, mass1, mass2) == Cum(mf, el, summand, m2) - Cum(mf, el, summand, m1)
  {
    var top := mf.bounds[|mf.bounds| - 1];
    var m1, m2 := Max(mass1, mf.bounds[0]), Min(mass2, top);
    assert Integral(mf, el, summand, mass1, mass2) == Walk(mf, el, summand, m1, m2, 0, 0.0, false);
    WalkIsCumDifference(mf, el, summand, m1, m2);
  }

  /** The walk over an already clipped, non-empty interval [m1, m2]. */
  lemma WalkIsCumDifference(mf: MassFunction, el: Elementary, summand: real, m1: real, m2: real)
    requires WellFormed(mf) && StrictlyIncreasing(mf.bounds)
    requires mf.bounds[0] <= m1 < m2 <= mf.bounds[|mf.bounds| - 1]
    ensures Walk(mf, el, summand, m1, m2, 0, 0.0, false) == Cum(mf, el, summand, m2) - Cum(mf, el, summand, m1)
  {
    var i := HalfOpenSegment(mf, m1);
    var j := Segment(mf, m2);
    assert mf.bounds[i] < mf.bounds[j + 1];
    assert i <= j;
    WalkSkips(mf, el, summand, m1, m2, 0, i);
    CumThrough(mf, el, summand, m1, i);
    if i == j {
      WalkSameSegment(mf, el, summand, m1, m2, i);
    } else {
      WalkAcrossSegments(mf, el, summand, m1, m2, i, j);
    }
  }

  lemma WalkSameSegment(mf: MassFunction, el: Elementary, summand: real, m1: real, m2: real, i: nat)
    requires WellFormed(mf) && StrictlyIncreasing(mf.bounds) && i < |mf.alphas|
    requires mf.bounds[i] <= m1 < m2 <= mf.bounds[i + 1]
    ensures mf.bounds[0] <= m1 && m2 <= mf.bounds[|mf.bounds| - 1]
    ensures Walk(mf, el, summand, m1, m2, i, 0.0, false) == Cum(mf, el, summand, m2) - Cum(mf, el, summand, m1)
  {
    CumThrough(mf, el, summand, m1, i);
    CumThrough(mf, el, summand, m2, i);
    IntRanAdditive(el, summand, mf.bounds[i], m1, m2, mf.alphas[i], mf.ks[i]);
  }

  lemma WalkAcrossSegments(mf: MassFunction, el: Elementary, summand: real, m1: real, m2: real, i: nat, j: nat)
    requires WellFormed(mf) && StrictlyIncreasing(mf.bounds) && i < j < |mf.alphas|
    requires mf.bounds[i] <= m1 < mf.bounds[i + 1] && mf.bounds[j] < m2 <= mf.bounds[j + 1]
    ensures mf.bounds[0] <= m1 && m2 <= mf.bounds[|mf.bounds| - 1]
    ensures Walk(mf, el, summand, m1, m2, i, 0.0, false) == Cum(mf, el, summand, m2) - Cum(mf, el, summand, m1)
  {
    assert mf.bounds[i + 1] <= mf.bounds[j];
    CumThrough(mf, el, summand, m1, i);
    CumThrough(mf, el, summand, m2, j);
    var first := SegInt(mf, el, summand, i, m1, mf.bounds[i + 1]);
    assert Walk(mf, el, summand, m1, m2, i, 0.0, false) == Walk(mf, el, summand, m1, m2, i + 1, 0.0 + first, true);
    WalkInRange(mf, el, summand, m1, m2, i + 1, 0.0 + first, j);
    IntRanAdditive(el, summand, mf.bounds[i], m1, mf.bounds[i + 1], mf.alphas[i], mf.ks[i]);
  }

  /**
   * `ComputeIntegral(b_i, b_i)` at a bound below the top does not give 0: its inner test
   * `bounds[n] < mass2` is strict, so the walk runs on to the top bound and returns the integral
   * from b_i to bounds[-1].
   */
  lemma {:induction false} IntegralAtBound(mf: MassFunction, el: Elementary, summand: real, i: nat)
    requires WellFormed(mf) && StrictlyIncreasing(mf.bounds) && i < |mf.alphas|
    ensures Integral(mf, el, summand, mf.bounds[i], mf.bounds[i]) ==
      Prefix(mf, el, summand, |mf.alphas|) - Prefix(mf, el, summand, i)
  {
    var b := mf.bounds[i];
    assert mf.bounds[0] <= b < mf.bounds[|mf.bounds| - 1];
    WalkSkips(mf, el, summand, b, b, 0, i);
    WalkPastTop(mf, el, summand, b, i + 1, SegInt(mf, el, summand, i, b, mf.bounds[i + 1]));
  }

  lemma {:induction false} WalkPastTop(mf: MassFunction, el: Elementary, summand: real, b: real, n: nat, acc: real)
    requires WellFormed(mf) && StrictlyIncreasing(mf.bounds) && 0 < n <= |mf.alphas| && b < mf.bounds[n]
    ensures Walk(mf, el, summand, b, b, n, acc, true) ==
      acc + Prefix(mf, el, summand, |mf.alphas|) - Prefix(mf, el, summand, n)
    decreases |mf.alphas| - n
  {
    if n < |mf.alphas| {
      assert mf.bounds[n] < mf.bounds[n + 1];
      WalkPastTop(mf, el, summand, b, n + 1, acc + SegInt(mf, el, summand, n, mf.bounds[n], mf.bounds[n + 1]));
    }
  }

  /**
   * `GetNumbers`: the number of stars in [mass1, mass2], counting the most massive star when
   * mass2 reaches the top bound. For increasing bounds and a non-empty clipped interval it is
   * the cumulative difference plus exactly one star if and only if mass2 reaches bounds[-1].
   */
  function GetNumbers(mf: MassFunction, el: Elementary, mass1: real, mass2: real): (r: real)
    requires WellFormed(mf)
    ensures var top := mf.bounds[|mf.bounds| - 1];
      StrictlyIncreasing(mf.bounds) && Max(mass1, mf.bounds[0]) < Min(mass2, top) ==>
        r == Cum(mf, el, 0.0, Min(mass2, top)) - Cum(mf, el, 0.0, Max(mass1, mf.bounds[0])) + (if mass2 >= top then 1.0 else 0.0)
  {
    IntegralCum(mf, el, 0.0, mass1, mass2);
    var number := Integral(mf, el, 0.0, mass1, mass2);
    if mass2 >= mf.bounds[|mf.bounds| - 1] then number + 1.0 else number
  }

  /** `GetTotNumbers`: the number of stars over the whole range, the integral over all segments plus the most massive star. */
  function GetTotNumbers(mf: MassFunction, el: Elementary): (r: real)
    requires WellFormed(mf)
    ensures StrictlyIncreasing(mf.bounds) ==> r == Prefix(mf, el, 0.0, |mf.alphas|) + 1.0
  {
    WholeRangeWhenIncreasing(mf, el, 0.0);
    GetNumbers(mf, el, mf.bounds[0], mf.bounds[|mf.bounds| - 1])
  }

  /**
   * `GetMass`: the mass in [mass1, mass2], adding the most massive star when mass2 reaches the
   * top bound. For increasing bounds and a non-empty clipped interval it is the cumulative
   * difference plus bounds[-1] if and only if mass2 reaches bounds[-1].
   */
  function GetMass(mf: MassFunction, el: Elementary, mass1: real, mass2: real): (r: real)
    requires WellFormed(mf)
    ensures var top := mf.bounds[|mf.bounds| - 1];
      StrictlyIncreasing(mf.bounds) && Max(mass1, mf.bounds[0]) < Min(mass2, top) ==>
        r == Cum(mf, el, 1.0, Min(mass2, top)) - Cum(mf, el, 1.0, Max(mass1, mf.bounds[0])) + (if mass2 >= top then top else 0.0)
  {
    IntegralCum(mf, el, 1.0, mass1, mass2);
    var mass := Integral(mf, el, 1.0, mass1, mass2);
    if mass2 >= mf.bounds[|mf.bounds| - 1] then mass + mf.bounds[|mf.bounds| - 1] else mass
  }

  /** `IntegralIsCumDifference` wherever its hypotheses hold. */
  lemma IntegralCum(mf: MassFunction, el: Elementary, summand: real, mass1: real, mass2: real)
    requires WellFormed(mf)
    ensures var top := mf.bounds[|mf.bounds| - 1];
      StrictlyIncreasing(mf.bounds) && Max(mass1, mf.bounds[0]) < Min(mass2, top) ==>
        Integral(mf, el, summand, mass1, mass2) == Cum(mf, el, summand, Min(mass2, top)) - Cum(mf, el, summand, Max(mass1, mf.bounds[0]))
  {
    if StrictlyIncreasing(mf.bounds) && Max(mass1, mf.bounds[0]) < Min(mass2, mf.bounds[|mf.bounds| - 1]) {
      IntegralIsCumDifference(mf, el, summand, mass1, mass2);
    }
  }

  /** `WholeRange` wherever its hypothesis holds. */
  lemma WholeRangeWhenIncreasing(mf: MassFunction, el: Elementary, summand: real)
    requires WellFormed(mf)
    ensures StrictlyIncreasing(mf.bounds) ==>
      Integral(mf, el, summand, mf.bounds[0], mf.bounds[|mf.bounds| - 1]) == Prefix(mf, el, summand, |mf.alphas|)
  {
    if StrictlyIncreasing(mf.bounds) {
      WholeRange(mf, el, summand);
    }
  }

  /** `GetMassPortion`: the share of Mtot in [mass1, mass2]. */
  function GetMassPortion(mf: MassFunction, el: Elementary, mass1: real, mass2: real): (r: Result<real>)
    requires WellFormed(mf)
    ensures r.Err? <==> mf.mtot == 0.0
    ensures r.Ok? ==> r.value * mf.mtot == GetMass(mf, el, mass1, mass2)
  {
    if mf.mtot == 0.0 then Err(ZeroDivisionError) else Ok(GetMass(mf, el, mass1, mass2) / mf.mtot)
  }

  /** Over the whole range the cumulative integral is the sum of the whole segments. */
  lemma WholeRange(mf: MassFunction, el: Elementary, summand: real)
    requires WellFormed(mf) && StrictlyIncreasing(mf.bounds)
    ensures mf.bounds[0] < mf.bounds[|mf.bounds| - 1]
    ensures Integral(mf, el, summand, mf.bounds[0], mf.bounds[|mf.bounds| - 1]) == Prefix(mf, el, summand, |mf.alphas|)
  {
    var top := mf.bounds[|mf.bounds| - 1];
    assert mf.bounds[0] < top;
    IntegralIsCumDifference(mf, el, summand, mf.bounds[0], top);
    CumThrough(mf, el, summand, mf.bounds[0], 0);
    IntRanAdditive(el, summand, mf.bounds[0], mf.bounds[0], mf.bounds[0], mf.alphas[0], mf.ks[0]);
    CumThrough(mf, el, summand, top, |mf.alphas| - 1);
  }

  lemma {:induction false} PrefixIsSegmentMassSum(mf: MassFunction, el: Elementary, j: nat)
    requires WellFormed(mf) && j <= |mf.alphas|
    ensures Prefix(mf, el, 1.0, j) == Sum(SegmentMasses(mf.bounds, mf.alphas, mf.ks, el, j))
  {
    if j > 0 {
      PrefixIsSegmentMassSum(mf, el, j - 1);
      var ms := SegmentMasses(mf.bounds, mf.alphas, mf.ks, el, j);
      assert ms[..j - 1] == SegmentMasses(mf.bounds, mf.alphas, mf.ks, el, j - 1);
      var a, k := mf.alphas[j - 1], mf.ks[j - 1];
      if 2.0 != a {
        var e := 1.0 + 1.0 - a;
        assert e == 2.0 - a;
        var d := el.pow(mf.bounds[j], e) - el.pow(mf.bounds[j - 1], e);
        QuotientTimes(k, d, e);
        assert SegInt(mf, el, 1.0, j - 1, mf.bounds[j - 1], mf.bounds[j]) == k / e * d;
        assert ms[j - 1] == SegmentMass(mf.bounds, mf.alphas, k, el, j - 1);
        assert d == el.pow(mf.bounds[j], 2.0 - a) - el.pow(mf.bounds[j - 1], 2.0 - a);
      }
    }
  }

  /**
   * A constructed mass function with increasing bounds holds its total mass: `GetMass` over the
   * whole range, the integral of m xi(m) plus the most massive star, is Mtot.
   */
  lemma TotalMassIsMtot(mf: MassFunction, el: Elementary)
    requires WellFormed(mf) && Constructed(mf, el) && StrictlyIncreasing(mf.bounds)
    ensures GetMass(mf, el, mf.bounds[0], mf.bounds[|mf.bounds| - 1]) == mf.mtot
    ensures mf.mtot != 0.0 ==> GetMassPortion(mf, el, mf.bounds[0], mf.bounds[|mf.bounds| - 1]) == Ok(1.0)
  {
    WholeRange(mf, el, 1.0);
    PrefixIsSegmentMassSum(mf, el, |mf.alphas|);
    KsNormalised(mf.mtot, mf.bounds, mf.alphas, el);
    assert GetMass(mf, el, mf.bounds[0], mf.bounds[|mf.bounds| - 1]) == mf.mtot;
    if mf.mtot != 0.0 {
      QuotientOfItself(mf.mtot);
    }
  }

  /**
   * The exceptions `GetMassStarMinX` can raise: the bounds check, a search nested too deep, and
   * a zero k in the closed form.
   */
  predicate SearchError(e: Failure) {
    e == ValueError("massfunction: GetMassStarMinX: mass out of bounds!") || e == RecursionError || e == ZeroDivisionError
  }

  /** The depth of nested `GetMassStarMinX` calls after which Python raises RecursionError. */
  const RecursionLimit: nat := 1000

  /**
   * `GetMassStarMinX(mass, NumStars)` with `depth` nested calls still allowed: the mass of the
   * star `numStars` stars below `mass`. When fewer stars than asked lie between the segment's
   * lower bound and `mass`, the search restarts from that bound with the remainder; otherwise
   * the segment's closed form inverts its star count.
   */
  function MassStarMinX(mf: MassFunction, el: Elementary, mass: real, numStars: real, depth: nat): (r: Result<real>)
    requires WellFormed(mf)
    ensures mass > mf.bounds[|mf.bounds| - 1] || mass < mf.bounds[0] ==>
      r == Err(ValueError("massfunction: GetMassStarMinX: mass out of bounds!"))
    ensures r.Err? ==> SearchError(r.error)
    decreases depth
  {
    if mass > mf.bounds[|mf.bounds| - 1] || mass < mf.bounds[0] then
      Err(ValueError("massfunction: GetMassStarMinX: mass out of bounds!"))
    else
      var a := Segment(mf, mass);
      var numToBound := GetNumbers(mf, el, mf.bounds[a], mass);
      if numToBound < numStars then
        if depth == 0 then Err(RecursionError)
        else MassStarMinX(mf, el, mf.bounds[a], numStars - numToBound, depth - 1)
      else if mf.ks[a] == 0.0 then Err(ZeroDivisionError)
      else Ok(InvertCount(el, mass, numStars, mf.ks[a], mf.alphas[a]))
  }

  /**
   * The closed form of `GetMassStarMinX` within one segment: the mass below `mass` such that
   * `numStars` stars of the power law k m^(-alpha) lie between the two.
   */
  function InvertCount(el: Elementary, mass: real, numStars: real, k: real, alpha: real): real
    requires k != 0.0
  {
    if alpha == 1.0 then el.exp(el.ln(mass) - numStars / k)
    else
      var e := 1.0 - alpha;
      el.pow(el.pow(mass, e) - numStars * e / k, 1.0 / e)
  }

  /** The abstract exponential and power undo the logarithm and the power at the point `InvertCount` uses. */
  ghost predicate InverseAt(el: Elementary, mass: real, numStars: real, k: real, alpha: real)
    requires k != 0.0
  {
    if alpha == 1.0 then
      var y := el.ln(mass) - numStars / k;
      el.ln(el.exp(y)) == y
    else
      var e := 1.0 - alpha;
      var y := el.pow(mass, e) - numStars * e / k;
      el.pow(el.pow(y, 1.0 / e), e) == y
  }

  /** `InvertCount` inverts the star count of the segment's power law between the result and `mass`. */
  lemma InvertCountInverts(el: Elementary, mass: real, numStars: real, k: real, alpha: real)
    requires k != 0.0 && InverseAt(el, mass, numStars, k, alpha)
    ensures IntRan(el, 0.0, InvertCount(el, mass, numStars, k, alpha), mass, alpha, k) == numStars
  {
    var m := InvertCount(el, mass, numStars, k, alpha);
    if alpha == 1.0 {
      assert el.ln(m) == el.ln(mass) - numStars / k;
      assert k * (numStars / k) == numStars;
    } else {
      var e := 1.0 - alpha;
      var d := numStars * e / k;
      assert el.pow(m, e) == el.pow(mass, e) - d;
      assert 1.0 + 0.0 - alpha == e;
      assert el.pow(m, 1.0 + 0.0 - alpha) == el.pow(m, e);
      assert el.pow(mass, 1.0 + 0.0 - alpha) == el.pow(mass, e);
      QuotientTimes(k, d, e);
      assert k * d == numStars * e;
    }
  }

  function GetMassStarMinX(mf: MassFunction, el: Elementary, mass: real, numStars: real): Result<real>
    requires WellFormed(mf)
  {
    MassStarMinX(mf, el, mass, numStars, RecursionLimit)
  }

  /**
   * When the count down to the segment's lower bound suffices, `GetMassStarMinX` stops in the
   * segment of `mass`, and its result `m` has exactly `numStars` stars of that segment's power
   * law between itself and `mass` (given the pointwise inverse of the abstract power).
   */
  lemma ClosedFormInverts(mf: MassFunction, el: Elementary, mass: real, numStars: real, depth: nat)
    requires WellFormed(mf) && mf.bounds[0] <= mass <= mf.bounds[|mf.bounds| - 1]
    requires var a := Segment(mf, mass); numStars <= GetNumbers(mf, el, mf.bounds[a], mass) && mf.ks[a] != 0.0
    requires var a := Segment(mf, mass); InverseAt(el, mass, numStars, mf.ks[a], mf.alphas[a])
    ensures MassStarMinX(mf, el, mass, numStars, depth).Ok?
    ensures SegInt(mf, el, 0.0, Segment(mf, mass), MassStarMinX(mf, el, mass, numStars, depth).value, mass) == numStars
  {
    var a := Segment(mf, mass);
    InvertCountInverts(el, mass, numStars, mf.ks[a], mf.alphas[a]);
  }

  /**
   * Restarting from the segment's lower bound skips exactly the stars between that bound and
   * `mass` (the most massive star included when `mass` is the top bound); below the lowest
   * segment the restart stays at bounds[0].
   */
  lemma MassStarMinXRestarts(mf: MassFunction, el: Elementary, mass: real, numStars: real, depth: nat)
    requires WellFormed(mf) && StrictlyIncreasing(mf.bounds)
    requires mf.bounds[0] < mass <= mf.bounds[|mf.bounds| - 1] && depth > 0
    requires var a := Segment(mf, mass); GetNumbers(mf, el, mf.bounds[a], mass) < numStars
    ensures var a := Segment(mf, mass);
      var skipped := Cum(mf, el, 0.0, mass) - Cum(mf, el, 0.0, mf.bounds[a]) +
                     (if mass == mf.bounds[|mf.bounds| - 1] then 1.0 else 0.0);
      && GetNumbers(mf, el, mf.bounds[a], mass) == skipped
      && MassStarMinX(mf, el, mass, numStars, depth) == MassStarMinX(mf, el, mf.bounds[a], numStars - skipped, depth - 1)
      && (a > 0 ==> Segment(mf, mf.bounds[a]) == a - 1)
  {
    var a := Segment(mf, mass);
    var lo := mf.bounds[a];
    CountToLowerBound(mf, el, mass);
    var skipped := Cum(mf, el, 0.0, mass) - Cum(mf, el, 0.0, lo) + (if mass == mf.bounds[|mf.bounds| - 1] then 1.0 else 0.0);
    MassStarMinXStep(mf, el, mass, numStars, depth, numStars - skipped);
    assert MassStarMinX(mf, el, mass, numStars, depth) == MassStarMinX(mf, el, lo, numStars - skipped, depth - 1);
    if a > 0 {
      SegmentOfSorted(mf, mf.bounds[a], a - 1);
    }
  }

  lemma MassStarMinXStep(mf: MassFunction, el: Elementary, mass: real, numStars: real, depth: nat, rest: real)
    requires WellFormed(mf)
    requires mf.bounds[0] <= mass <= mf.bounds[|mf.bounds| - 1] && depth > 0
    requires var a := Segment(mf, mass); GetNumbers(mf, el, mf.bounds[a], mass) < numStars
    requires rest == numStars - GetNumbers(mf, el, mf.bounds[Segment(mf, mass)], mass)
    ensures MassStarMinX(mf, el, mass, numStars, depth) == MassStarMinX(mf, el, mf.bounds[Segment(mf, mass)], rest, depth - 1)
  {
  }

  lemma CountToLowerBound(mf: MassFunction, el: Elementary, mass: real)
    requires WellFormed(mf) && StrictlyIncreasing(mf.bounds)
    requires mf.bounds[0] < mass <= mf.bounds[|mf.bounds| - 1]
    ensures var a := Segment(mf, mass);
      && mf.bounds[a] < mass
      && GetNumbers(mf, el, mf.bounds[a], mass) == Cum(mf, el, 0.0, mass) - Cum(mf, el, 0.0, mf.bounds[a]) +
                     (if mass == mf.bounds[|mf.bounds| - 1] then 1.0 else 0.0)
  {
    var a := Segment(mf, mass);
    assert mf.bounds[a] < mass;
  }

  /**
   * At bounds[0] itself the count to the bound is not 0 but, through the degenerate interval
   * of `ComputeIntegral`, the count over the whole range without the most massive star.
   */
  lemma MassStarMinXAtLowestBound(mf: MassFunction, el: Elementary)
    requires WellFormed(mf) && StrictlyIncreasing(mf.bounds)
    ensures Segment(mf, mf.bounds[0]) == 0
    ensures GetNumbers(mf, el, mf.bounds[0], mf.bounds[0]) == Prefix(mf, el, 0.0, |mf.alphas|)
  {
    IntegralAtBound(mf, el, 0.0, 0);
  }

  // ---------------------------------------------------------------------------------------
  // The search across segments
  // ---------------------------------------------------------------------------------------

  /** The segment integral over an empty range is zero. */
  lemma IntRanEmpty(el: Elementary, summand: real, x: real, alpha: real, k: real)
    ensures IntRan(el, summand, x, x, alpha, k) == 0.0
  {
    IntRanAdditive(el, summand, x, x, x, alpha, k);
  }

  /**
   * The star count of a power law grows with its range: every range of positive masses
   * 0 < x < y holds a positive number of stars. The true powers and logarithms give this for
   * k > 0; here they are abstract, so it is a hypothesis.
   */
  ghost predicate CountIncreasing(el: Elementary, alpha: real, k: real) {
    forall x, y :: 0.0 < x < y ==> 0.0 < IntRan(el, 0.0, x, y, alpha, k)
  }

  /**
   * Under an increasing count, a non-negative count between two positive masses means an
   * ordered range, and a positive one a strictly ordered range.
   */
  lemma CountOrders(el: Elementary, alpha: real, k: real, x: real, y: real)
    requires CountIncreasing(el, alpha, k) && 0.0 < x && 0.0 < y
    ensures 0.0 <= IntRan(el, 0.0, x, y, alpha, k) ==> x <= y
    ensures 0.0 < IntRan(el, 0.0, x, y, alpha, k) ==> x < y
  {
    IntRanAdditive(el, 0.0, x, y, x, alpha, k);
    IntRanEmpty(el, 0.0, x, alpha, k);
    if y < x {
      assert 0.0 < IntRan(el, 0.0, y, x, alpha, k);
    }
  }

  /** The masses are positive, and every segment has a non-zero k and a star count that grows with its range. */
  ghost predicate PowerLawsIncreasing(mf: MassFunction, el: Elementary)
    requires WellFormed(mf)
  {
    && 0.0 < mf.bounds[0]
    && forall j :: 0 <= j < |mf.alphas| ==> mf.ks[j] != 0.0 && CountIncreasing(el, mf.alphas[j], mf.ks[j])
  }

  /**
   * The search of `GetMassStarMinX` from `mass` for `numStars` stars ends, within `depth`
   * restarts and without restarting from bounds[0], at a point where the abstract powers invert
   * the segment's closed form and give a positive mass.
   */
  ghost predicate Reaches(mf: MassFunction, el: Elementary, mass: real, numStars: real, depth: nat)
    requires WellFormed(mf)
    decreases depth
  {
    && mf.bounds[0] <= mass <= mf.bounds[|mf.bounds| - 1]
    && var a := Segment(mf, mass);
    && var num := GetNumbers(mf, el, mf.bounds[a], mass);
    && if num < numStars then depth > 0 && a > 0 && Reaches(mf, el, mf.bounds[a], numStars - num, depth - 1)
       else
         && mf.ks[a] != 0.0 && InverseAt(el, mass, numStars, mf.ks[a], mf.alphas[a])
         && 0.0 < InvertCount(el, mass, numStars, mf.ks[a], mf.alphas[a])
  }

  /**
   * `GetMassStarMinX` across segments: the mass it returns lies below `mass`, not below
   * bounds[0], and exactly `numStars` stars of the mass function lie between the two, however
   * many segment bounds the search crosses. From the top bound the top segment itself must
   * hold the stars asked for, since the count to the lower bound there includes the top star.
   */
  lemma {:induction false} MassStarMinXCount(mf: MassFunction, el: Elementary, mass: real, numStars: real, depth: nat)
    requires WellFormed(mf) && StrictlyIncreasing(mf.bounds) && PowerLawsIncreasing(mf, el)
    requires mf.bounds[0] < mass <= mf.bounds[|mf.bounds| - 1] && 0.0 < numStars
    requires mass == mf.bounds[|mf.bounds| - 1] ==>
      numStars <= SegInt(mf, el, 0.0, Segment(mf, mass), mf.bounds[Segment(mf, mass)], mass)
    requires Reaches(mf, el, mass, numStars, depth)
    ensures MassStarMinX(mf, el, mass, numStars, depth).Ok?
    ensures var r := MassStarMinX(mf, el, mass, numStars, depth).value;
      && mf.bounds[0] <= r < mass
      && Cum(mf, el, 0.0, mass) - Cum(mf, el, 0.0, r) == numStars
    decreases depth
  {
    var a := Segment(mf, mass);
    var lo := mf.bounds[a];
    var num := GetNumbers(mf, el, lo, mass);
    CountToLowerBound(mf, el, mass);
    assert mf.bounds[0] <= lo;
    CumThrough(mf, el, 0.0, lo, a);
    CumThrough(mf, el, 0.0, mass, a);
    IntRanEmpty(el, 0.0, lo, mf.alphas[a], mf.ks[a]);
    if num < numStars {
      MassStarMinXRestarts(mf, el, mass, numStars, depth);
      assert mf.bounds[0] < lo;
      MassStarMinXCount(mf, el, lo, numStars - num, depth - 1);
    } else {
      ClosedFormInverts(mf, el, mass, numStars, depth);
      var r := MassStarMinX(mf, el, mass, numStars, depth).value;
      CountOrders(el, mf.alphas[a], mf.ks[a], r, mass);
      IntRanAdditive(el, 0.0, lo, r, mass, mf.alphas[a], mf.ks[a]);
      CountOrders(el, mf.alphas[a], mf.ks[a], lo, r);
      CumThrough(mf, el, 0.0, r, a);
    }
  }
}
