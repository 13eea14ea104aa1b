/**
 * src/Data.py: the per-cluster column store (`cData`) with its two stellar lookups, whether a
 * star of a given mass explodes as a supernova and how much iron it ejects. Reading the files
 * (cDataReader), the remnant table and the printing helper are not part of this model: the
 * loaded tables are the inputs.
 */
module Data {
  import opened Wrappers
  import opened Common
  import RemnantCalculator
  import MassFunction

  /** One cell of a cluster column: a name, a number, Python's NaN, or a mass function object. */
  datatype Cell = Text(text: string) | Num(x: real) | NaN | Imf(mf: MassFunction.MassFunction)

  /** The SN table: initial masses [Msun] and, row by row, whether that star explodes. */
  datatype SNTable = SNTable(mass: seq<real>, explodes: seq<bool>)

  predicate SNWellFormed(t: SNTable) {
    |t.mass| > 0 && |t.explodes| == |t.mass|
  }

  /** The ejecta table: initial masses [Msun] and the iron [Msun] each one ejects. */
  datatype EjectaTable = EjectaTable(mass: seq<real>, iron: seq<real>)

  predicate EjectaWellFormed(t: EjectaTable) {
    |t.mass| > 0 && |t.iron| == |t.mass|
  }

  // ---------------------------------------------------------------------------------------
  // SNExplodes
  // ---------------------------------------------------------------------------------------

  /**
   * `SNExplodes`: the first flag at or below the first table mass, the last flag above the
   * last one, and otherwise the flag of the nearer end of the first bracket [m[n], m[n+1]]
   * that holds the mass; the upper end only when it is strictly nearer.
   */
  function SNExplodes(t: SNTable, mass: real): (r: bool)
    requires SNWellFormed(t)
    ensures StrictlyIncreasing(t.mass) ==> forall k :: IsFirstClosest(t.mass, mass, k) ==> r == t.explodes[k]
  {
    SNBranchesNearest(t, mass);
    if mass <= t.mass[0] then t.explodes[0]
    else if mass > t.mass[|t.mass| - 1] then t.explodes[|t.explodes| - 1]
    else SNScan(t, mass, 0)
  }

  /** The loop of `SNExplodes`, from bracket `n` on. */
  function SNScan(t: SNTable, mass: real, n: nat): bool
    requires SNWellFormed(t) && n < |t.mass| - 1 && mass <= t.mass[|t.mass| - 1]
    decreases |t.mass| - n
  {
    if mass <= t.mass[n + 1] then
      if t.mass[n + 1] - mass < mass - t.mass[n] then t.explodes[n + 1] else t.explodes[n]
    else SNScan(t, mass, n + 1)
  }

  lemma {:induction false} SNScanNearest(t: SNTable, mass: real, n: nat) returns (k: nat)
    requires SNWellFormed(t) && StrictlyIncreasing(t.mass)
    requires n < |t.mass| - 1 && t.mass[n] < mass <= t.mass[|t.mass| - 1]
    ensures IsFirstClosest(t.mass, mass, k) && SNScan(t, mass, n) == t.explodes[k]
    decreases |t.mass| - n
  {
    if mass <= t.mass[n + 1] {
      k := if t.mass[n + 1] - mass < mass - t.mass[n] then n + 1 else n;
      FirstClosestInBracket(t.mass, mass, n);
    } else {
      k := SNScanNearest(t, mass, n + 1);
    }
  }

  /** On a table sorted by mass, each branch of `SNExplodes` takes the flag of the first nearest table mass. */
  lemma SNBranchesNearest(t: SNTable, mass: real)
    requires SNWellFormed(t)
    ensures StrictlyIncreasing(t.mass) ==> forall k :: IsFirstClosest(t.mass, mass, k) ==>
      && (mass <= t.mass[0] ==> k == 0)
      && (mass > t.mass[|t.mass| - 1] ==> k == |t.mass| - 1)
      && (t.mass[0] < mass <= t.mass[|t.mass| - 1] ==> SNScan(t, mass, 0) == t.explodes[k])
  {
    if StrictlyIncreasing(t.mass) {
      forall k | IsFirstClosest(t.mass, mass, k)
        ensures mass <= t.mass[0] ==> k == 0
        ensures mass > t.mass[|t.mass| - 1] ==> k == |t.mass| - 1
        ensures t.mass[0] < mass <= t.mass[|t.mass| - 1] ==> SNScan(t, mass, 0) == t.explodes[k]
      {
        if mass <= t.mass[0] {
          FirstClosestBelow(t.mass, mass);
          FirstClosestUnique(t.mass, mass, k, 0);
        } else if mass > t.mass[|t.mass| - 1] {
          FirstClosestAbove(t.mass, mass);
          FirstClosestUnique(t.mass, mass, k, |t.mass| - 1);
        } else {
          var j := SNScanNearest(t, mass, 0);
          FirstClosestUnique(t.mass, mass, k, j);
        }
      }
    }
  }

  /**
   * On a table sorted by mass, `SNExplodes` answers with the flag of the table mass nearest to
   * `mass`, the lower one of two equally near masses.
   */
  lemma SNExplodesIsNearest(t: SNTable, mass: real) returns (k: nat)
    requires SNWellFormed(t) && StrictlyIncreasing(t.mass)
    ensures IsFirstClosest(t.mass, mass, k) && SNExplodes(t, mass) == t.explodes[k]
    ensures forall i :: IsFirstClosest(t.mass, mass, i) ==> SNExplodes(t, mass) == t.explodes[i]
  {
    var last := |t.mass| - 1;
    if mass <= t.mass[0] {
      k := 0;
      FirstClosestBelow(t.mass, mass);
    } else if mass > t.mass[last] {
      k := last;
      FirstClosestAbove(t.mass, mass);
    } else {
      k := SNScanNearest(t, mass, 0);
    }
  }

  /** A mass exactly halfway between two neighbouring table masses takes the lower one's flag. */
  lemma SNExplodesTie(t: SNTable, j: nat)
    requires SNWellFormed(t) && StrictlyIncreasing(t.mass) && j < |t.mass| - 1
    ensures SNExplodes(t, (t.mass[j] + t.mass[j + 1]) / 2.0) == t.explodes[j]
  {
    var mass := (t.mass[j] + t.mass[j + 1]) / 2.0;
    var k := SNExplodesIsNearest(t, mass);
    FirstClosestInBracket(t.mass, mass, j);
  }

  // ---------------------------------------------------------------------------------------
  // Ejecta
  // ---------------------------------------------------------------------------------------

  /**
   * The extrapolation expression of `Ejecta`: the slope through (x0, y0) and (x1, y1), applied
   * from (x0, y0). Equal abscissae make Python's float division raise.
   */
  function Slope(x0: real, y0: real, x1: real, y1: real, x: real): Result<real> {
    if x0 == x1 then Err(ZeroDivisionError)
    else Ok((y0 - y1) / (x0 - x1) * (x - x0) + y0)
  }

  /** The slope expression is the two-point line of `LinInterExtrapolate`. */
  lemma SlopeIsLine(p0: Point, p1: Point, x: real)
    requires p0.x != p1.x
    ensures Slope(p0.x, p0.y, p1.x, p1.y, x) == Ok(LinInterExtrapolate(p0, p1, x))
  {
    var dx := p0.x - p1.x;
    var s := (p0.y - p1.y) / dx;
    assert s * dx == p0.y - p1.y;
    var r := Slope(p0.x, p0.y, p1.x, p1.y, x);
    var q := Point(x, r.value);
    assert q.y - p0.y == s * (x - p0.x);
    assert (q.y - p0.y) * (p1.x - p0.x) == -(s * dx) * (x - p0.x);
    LinInterOfOnLine(p0, p1, q);
  }

  /** `Ejecta` before its clamp at zero (Data.py:159-182). */
  function RawEjecta(t: EjectaTable, mass: real): Result<real>
    requires EjectaWellFormed(t)
  {
    var m, fe, last := t.mass, t.iron, |t.mass| - 1;
    if |m| == 1 then Ok(fe[0])
    else if mass == m[0] then Ok(fe[0])
    else if mass < m[0] then Slope(m[0], fe[0], m[1], fe[1], mass)
    else if mass > m[last] then Slope(m[last], fe[last], m[last - 1], fe[last - 1], mass)
    else EjectaScan(t, mass, 0)
  }

  /** The loop of `Ejecta`, from bracket `n` on: an exact hit, or the line through the bracket. */
  function EjectaScan(t: EjectaTable, mass: real, n: nat): Result<real>
    requires EjectaWellFormed(t) && n < |t.mass| - 1 && mass <= t.mass[|t.mass| - 1]
    decreases |t.mass| - n
  {
    var m, fe := t.mass, t.iron;
    if mass == m[n + 1] then Ok(fe[n + 1])
    else if mass < m[n + 1] then Slope(m[n], fe[n], m[n + 1], fe[n + 1], mass)
    else EjectaScan(t, mass, n + 1)
  }

  /** The final clamp of `Ejecta`: a negative yield becomes zero. */
  function ClampAtZero(r: Result<real>): Result<real> {
    match r
    case Ok(y) => Ok(if y < 0.0 then 0.0 else y)
    case Err(e) => Err(e)
  }

  /**
   * `Ejecta`: the iron ejected by a star of mass `mass`, never negative; a one-row table
   * gives its one yield for every mass.
   */
  function Ejecta(t: EjectaTable, mass: real): (r: Result<real>)
    requires EjectaWellFormed(t)
    ensures r.Ok? ==> r.value >= 0.0
    ensures |t.mass| == 1 ==> r == Ok(Max(t.iron[0], 0.0))
  {
    ClampAtZero(RawEjecta(t, mass))
  }

  lemma {:induction false} EjectaScanMatches(t: EjectaTable, mass: real, n: nat)
    requires EjectaWellFormed(t) && n < |t.mass| - 1 && t.mass[n] < mass <= t.mass[|t.mass| - 1]
    ensures EjectaScan(t, mass, n) == RemnantCalculator.ScanFrom(mass, t.mass, t.iron, n + 1)
    decreases |t.mass| - n
  {
    var m, fe := t.mass, t.iron;
    if mass == m[n + 1] {
    } else if mass < m[n + 1] {
      SlopeIsLine(Point(m[n], fe[n]), Point(m[n + 1], fe[n + 1]), mass);
    } else {
      EjectaScanMatches(t, mass, n + 1);
    }
  }

  /**
   * For a table of two rows or more whose first mass is not above its last, `Ejecta` is the
   * table lookup `GetValFromList` of RemnantCalculator.py clamped at zero, errors included:
   * the same line through the same pair of rows on every branch.
   */
  lemma EjectaMatchesLookup(t: EjectaTable, mass: real)
    requires EjectaWellFormed(t) && |t.mass| >= 2 && t.mass[0] <= t.mass[|t.mass| - 1]
    ensures RawEjecta(t, mass) == RemnantCalculator.GetValFromList(mass, t.mass, t.iron)
    ensures Ejecta(t, mass) == ClampAtZero(RemnantCalculator.GetValFromList(mass, t.mass, t.iron))
  {
    var m, fe, last := t.mass, t.iron, |t.mass| - 1;
    if mass == m[0] {
    } else if mass < m[0] {
      if m[0] != m[1] {
        SlopeIsLine(Point(m[0], fe[0]), Point(m[1], fe[1]), mass);
      }
    } else if mass > m[last] {
      if m[last] != m[last - 1] {
        SlopeIsLine(Point(m[last], fe[last]), Point(m[last - 1], fe[last - 1]), mass);
      }
    } else {
      EjectaScanMatches(t, mass, 0);
    }
  }

  /** On a table sorted by mass, `Ejecta` at a table mass is that row's yield (clamped). */
  lemma EjectaAtTableMass(t: EjectaTable, k: nat)
    requires EjectaWellFormed(t) && StrictlyIncreasing(t.mass) && k < |t.mass|
    ensures Ejecta(t, t.mass[k]) == Ok(Max(t.iron[k], 0.0))
  {
    if |t.mass| >= 2 {
      assert t.mass[0] < t.mass[|t.mass| - 1];
      EjectaMatchesLookup(t, t.mass[k]);
      RemnantCalculator.GetValFromListExact(t.mass, t.iron, k);
    }
  }

  /**
   * On a table sorted by mass, `Ejecta` follows the line through rows k and k+1 on the
   * bracket [m[k], m[k+1]], and the first (last) pair's line beyond the first (last) mass;
   * clamped at zero.
   */
  lemma EjectaPiecewiseLinear(t: EjectaTable, mass: real, k: nat)
    requires EjectaWellFormed(t) && StrictlyIncreasing(t.mass) && k < |t.mass| - 1
    requires k == 0 || t.mass[k] <= mass
    requires k == |t.mass| - 2 || mass <= t.mass[k + 1]
    ensures Ejecta(t, mass) == Ok(Max(RemnantCalculator.SegmentLine(mass, t.mass, t.iron, k), 0.0))
  {
    assert t.mass[0] < t.mass[|t.mass| - 1];
    EjectaMatchesLookup(t, mass);
    assert RemnantCalculator.OnSegment(mass, t.mass, k);
  }

  // ---------------------------------------------------------------------------------------
  // The cluster column store
  // ---------------------------------------------------------------------------------------

  /** `cData`: the cluster columns, which the processing steps extend, and the two star tables. */
  class ClusterData {
    var gc: map<string, seq<Cell>>
    const sn: SNTable
    const ejecta: EjectaTable

    ghost predicate Valid()
      reads this
    {
      SNWellFormed(sn) && EjectaWellFormed(ejecta) && "Name" in gc
    }

    /** Every column has as many entries as the `Name` column, one per cluster. */
    ghost predicate Aligned()
      reads this
    {
      "Name" in gc && forall c :: c in gc ==> |gc[c]| == |gc["Name"]|
    }

    constructor (gcData: map<string, seq<Cell>>, snTable: SNTable, ejectaTable: EjectaTable)
      ensures gc == gcData && sn == snTable && ejecta == ejectaTable
    {
      gc := gcData;
      sn := snTable;
      ejecta := ejectaTable;
    }

    /**
     * The checks of the `cData` constructor on the loaded tables: an empty SN table, then an
     * empty ejecta table, is a ValueError. The reader supplies the `Name` column and columns
     * of equal length.
     */
    static method Load(gcData: map<string, seq<Cell>>, snTable: SNTable, ejectaTable: EjectaTable)
      returns (r: Result<ClusterData>)
      requires "Name" in gcData
      requires |snTable.explodes| == |snTable.mass| && |ejectaTable.iron| == |ejectaTable.mass|
      ensures r.Err? <==> |snTable.mass| == 0 || |ejectaTable.mass| == 0
      ensures |snTable.mass| == 0 ==> r == Err(ValueError("cData: Empty SN data. Please check your SN file."))
      ensures |snTable.mass| > 0 && |ejectaTable.mass| == 0 ==>
        r == Err(ValueError("cData: Empty Ejecta data. Please check your Ejecta file."))
      ensures r.Ok? ==> fresh(r.value) && r.value.Valid()
      ensures r.Ok? ==> r.value.gc == gcData && r.value.sn == snTable && r.value.ejecta == ejectaTable
    {
      if |snTable.mass| == 0 {
        return Err(ValueError("cData: Empty SN data. Please check your SN file."));
      }
      if |ejectaTable.mass| == 0 {
        return Err(ValueError("cData: Empty Ejecta data. Please check your Ejecta file."));
      }
      var data := new ClusterData(gcData, snTable, ejectaTable);
      r := Ok(data);
    }

    /** `AccessGCData`: one column by name; a missing column is a KeyError. */
    function AccessGCData(name: string): (r: Result<seq<Cell>>)
      reads this
      ensures r.Ok? <==> name in gc
      ensures r.Ok? ==> r.value == gc[name]
      ensures r.Err? ==> r.error == KeyError(name)
    {
      if name in gc then Ok(gc[name]) else Err(KeyError(name))
    }

    /**
     * `AddGCData`: store (or replace) a column whose length matches the `Name` column; any
     * other length is a ValueError that leaves the store as it was.
     */
    method AddGCData(name: string, data: seq<Cell>) returns (o: Outcome)
      requires Valid()
      modifies this
      ensures Valid()
      ensures o.Fail? <==> |data| != |old(gc["Name"])|
      ensures o.Fail? ==> gc == old(gc)
      ensures o.Fail? ==> o.error == ValueError("cData: Attempt to add Column '" + name + "' to GCData failed. Length of data does not match!")
      ensures o.Pass? ==> gc == old(gc)[name := data]
      ensures o.Pass? ==> AccessGCData(name) == Ok(data)
      ensures forall c :: c != name ==> AccessGCData(c) == old(AccessGCData(c))
      ensures old(Aligned()) ==> Aligned()
    {
      if |data| != |gc["Name"]| {
        return Fail(ValueError("cData: Attempt to add Column '" + name + "' to GCData failed. Length of data does not match!"));
      }
      gc := gc[name := data];
      o := Pass;
    }
  }
}
