/**
 * The shared helpers of src/common.py: the number test on column suffixes and the
 * two-point linear inter/extrapolation that every table lookup of the system rests on.
 * Also the vocabulary (ordering, nearest entry) that the lookups are specified in.
 */
module Common {
  import opened Wrappers

  /** Python's `float(text)`: the number a string spells, if it spells one. Parsing is left to the caller. */
  type FloatParser = string -> Option<real>

  /** `IsNumber`: whether `float(text)` succeeds. */
  predicate IsNumber(parse: FloatParser, text: string) {
    parse(text).Some?
  }

  datatype Point = Point(x: real, y: real)

  /** `q` lies on the straight line through `p1` and `p2`, stated without division. */
  ghost predicate OnLine(p1: Point, p2: Point, q: Point) {
    (q.y - p1.y) * (p2.x - p1.x) == (p2.y - p1.y) * (q.x - p1.x)
  }

  /** `LinInterExtrapolate` divides by X2 - X1 unless X3 hits one of the two abscissae first. */
  predicate Interpolable(p1: Point, p2: Point, x3: real) {
    x3 == p1.x || x3 == p2.x || p1.x != p2.x
  }

  /**
   * The y value at `x3` of the line through `p1` and `p2`, inside or outside [x1, x2];
   * an exact hit on either abscissa returns that point's y without arithmetic.
   */
  function LinInterExtrapolate(p1: Point, p2: Point, x3: real): (y3: real)
    requires Interpolable(p1, p2, x3)
    ensures x3 == p1.x ==> y3 == p1.y
    ensures x3 != p1.x && x3 == p2.x ==> y3 == p2.y
    ensures OnLine(p1, p2, Point(x3, y3))
  {
    if x3 == p1.x then p1.y
    else if x3 == p2.x then p2.y
    else
      var dy, dx, d3 := p2.y - p1.y, p2.x - p1.x, x3 - p1.x;
      assert (dy * d3 / dx) * dx == dy * d3;
      dy * d3 / dx + p1.y
  }

  /** With distinct abscissae, one point of the line sits above each x. */
  lemma OnLineUnique(p1: Point, p2: Point, q1: Point, q2: Point)
    requires p1.x != p2.x && q1.x == q2.x
    requires OnLine(p1, p2, q1) && OnLine(p1, p2, q2)
    ensures q1.y == q2.y
  {
    var dx := p2.x - p1.x;
    assert (q1.y - q2.y) * dx == 0.0;
  }

  /** The line through p1 and p2 is the line through p2 and p1. */
  lemma OnLineSymmetric(p1: Point, p2: Point, q: Point)
    ensures OnLine(p1, p2, q) <==> OnLine(p2, p1, q)
  {
    var a, b := q.y - p1.y, p2.y - p1.y;
    var c, d := q.x - p1.x, p2.x - p1.x;
    assert (q.y - p2.y) * (p1.x - p2.x) - (p1.y - p2.y) * (q.x - p2.x) == b * c - a * d;
  }

  /** Swapping the two points does not change the result (for distinct abscissae). */
  lemma LinInterSymmetric(p1: Point, p2: Point, x3: real)
    requires p1.x != p2.x
    ensures LinInterExtrapolate(p1, p2, x3) == LinInterExtrapolate(p2, p1, x3)
  {
    var q1 := Point(x3, LinInterExtrapolate(p1, p2, x3));
    var q2 := Point(x3, LinInterExtrapolate(p2, p1, x3));
    OnLineSymmetric(p1, p2, q2);
    OnLineUnique(p1, p2, q1, q2);
  }

  /** Any point on the line is what the function returns at its abscissa. */
  lemma LinInterOfOnLine(p1: Point, p2: Point, q: Point)
    requires p1.x != p2.x && OnLine(p1, p2, q)
    ensures LinInterExtrapolate(p1, p2, q.x) == q.y
  {
    OnLineUnique(p1, p2, q, Point(q.x, LinInterExtrapolate(p1, p2, q.x)));
  }

  /** Two equal ordinates give a horizontal line. */
  lemma LinInterConstant(p1: Point, p2: Point, x3: real)
    requires Interpolable(p1, p2, x3) && p1.y == p2.y
    ensures LinInterExtrapolate(p1, p2, x3) == p1.y
  {}

  /** Strictly between the two abscissae the result lies between the two ordinates. */
  lemma {:induction false} LinInterBetween(p1: Point, p2: Point, x3: real)
    requires p1.x < x3 < p2.x
    ensures Min(p1.y, p2.y) <= LinInterExtrapolate(p1, p2, x3) <= Max(p1.y, p2.y)
  {
    var dy, dx, d3 := p2.y - p1.y, p2.x - p1.x, x3 - p1.x;
    var t := d3 / dx;
    DivideInUnitInterval(d3, dx);
    assert dy * d3 / dx == dy * t;
    if dy >= 0.0 {
      assert 0.0 <= dy * t <= dy;
    } else {
      assert dy <= dy * t <= 0.0;
    }
  }

  lemma DivideInUnitInterval(a: real, b: real)
    requires 0.0 < a < b
    ensures 0.0 < a / b < 1.0
  {
    var t := a / b;
    assert t * b == a;
    PositiveFactor(t, b);
    PositiveFactor(1.0 - t, b);
  }

  lemma PositiveFactor(x: real, b: real)
    requires b > 0.0 && x * b > 0.0
    ensures x > 0.0
  {}

  /** The inter- and extrapolation values that the unit tests pin. */
  lemma LinInterTestValues()
    ensures LinInterExtrapolate(Point(0.5, 1.0), Point(0.8, 9.2), 0.5) == 1.0
    ensures LinInterExtrapolate(Point(0.5, 1.0), Point(0.8, 9.2), 0.8) == 9.2
    ensures LinInterExtrapolate(Point(0.5, 1.0), Point(0.8, 1.6), 1.0) == 2.0
    ensures LinInterExtrapolate(Point(0.5, -1.0), Point(0.8, 1.4), 0.6) == -0.2
    ensures LinInterExtrapolate(Point(0.5, -1.0), Point(0.8, 1.4), 1.0) == 3.0
  {}

  function Min(a: real, b: real): real { if a <= b then a else b }
  function Max(a: real, b: real): real { if a >= b then a else b }

  /** Python's `abs` on floats. */
  function Abs(x: real): (r: real)
    ensures r >= 0.0 && (r == x || r == -x)
  {
    if x >= 0.0 then x else -x
  }

  ghost predicate StrictlyIncreasing(s: seq<real>) {
    forall i, j :: 0 <= i < j < |s| ==> s[i] < s[j]
  }

  ghost predicate StrictlyDecreasing(s: seq<real>) {
    forall i, j :: 0 <= i < j < |s| ==> s[i] > s[j]
  }

  /**
   * `k` is the index of the entry nearest to `val`, and the earliest one when several are
   * equally near.
   */
  ghost predicate IsFirstClosest(s: seq<real>, val: real, k: int) {
    && 0 <= k < |s|
    && (forall i :: 0 <= i < |s| ==> Abs(val - s[k]) <= Abs(val - s[i]))
    && (forall i :: 0 <= i < k ==> Abs(val - s[k]) < Abs(val - s[i]))
  }

  /** At most one index is the first nearest one. */
  lemma FirstClosestUnique(s: seq<real>, val: real, k1: int, k2: int)
    requires IsFirstClosest(s, val, k1) && IsFirstClosest(s, val, k2)
    ensures k1 == k2
  {
    assert Abs(val - s[k1]) == Abs(val - s[k2]);
  }

  /**
   * In a strictly increasing sequence, the entry nearest to a value lying in [s[j], s[j+1]]
   * is s[j+1] when that is strictly nearer and s[j] otherwise.
   */
  lemma {:induction false} FirstClosestInBracket(s: seq<real>, val: real, j: int)
    requires StrictlyIncreasing(s)
    requires 0 <= j < |s| - 1 && s[j] <= val <= s[j + 1]
    ensures IsFirstClosest(s, val, if s[j + 1] - val < val - s[j] then j + 1 else j)
  {
    forall i | 0 <= i < |s|
      ensures i <= j ==> Abs(val - s[i]) >= val - s[j]
      ensures i > j ==> Abs(val - s[i]) >= s[j + 1] - val
      ensures i < j ==> Abs(val - s[i]) > val - s[j]
    {
      if i < j { assert s[i] < s[j]; }
      if i > j + 1 { assert s[j + 1] < s[i]; }
    }
  }

  /** In a strictly increasing sequence, the first entry is nearest to every value at or below it. */
  lemma FirstClosestBelow(s: seq<real>, val: real)
    requires StrictlyIncreasing(s) && |s| > 0 && val <= s[0]
    ensures IsFirstClosest(s, val, 0)
  {
    forall i | 0 <= i < |s| ensures Abs(val - s[0]) <= Abs(val - s[i]) {
      if i > 0 { assert s[0] < s[i]; }
    }
  }

  /** In a strictly increasing sequence, the last entry is nearest to every value at or above it. */
  lemma FirstClosestAbove(s: seq<real>, val: real)
    requires StrictlyIncreasing(s) && |s| > 0 && val >= s[|s| - 1]
    ensures IsFirstClosest(s, val, |s| - 1)
  {
    forall i | 0 <= i < |s| - 1 ensures Abs(val - s[|s| - 1]) < Abs(val - s[i]) {
      assert s[i] < s[|s| - 1];
    }
  }

  /** In a strictly decreasing sequence, the first entry is nearest to every value above it. */
  lemma FirstClosestAboveDecreasing(s: seq<real>, val: real)
    requires StrictlyDecreasing(s) && |s| > 0 && val > s[0]
    ensures IsFirstClosest(s, val, 0)
  {
    forall i | 0 <= i < |s| ensures Abs(val - s[0]) <= Abs(val - s[i]) {
      if i > 0 { assert s[i] < s[0]; }
    }
  }

  /** In a strictly decreasing sequence, the last entry is nearest to every value at or below it. */
  lemma FirstClosestBelowDecreasing(s: seq<real>, val: real)
    requires StrictlyDecreasing(s) && |s| > 0 && val <= s[|s| - 1]
    ensures IsFirstClosest(s, val, |s| - 1)
  {
    forall i | 0 <= i < |s| - 1 ensures Abs(val - s[|s| - 1]) < Abs(val - s[i]) {
      assert s[|s| - 1] < s[i];
    }
  }
}
