/**
 * src/RemnantCalculator.py: the stellar-evolution table of one metallicity. The input table
 * holds an initial-mass column "Mstar" and metallicity-tagged columns "t_<Z>" (log lifetime)
 * and "Mfin_<Z>" (log remnant mass); the calculator keeps the columns for the target
 * metallicity, picked or inter/extrapolated from the tagged ones, and answers lookups on them.
 */
module RemnantCalculator {
  import opened Wrappers
  import opened Common

  /** One column of the input table: its heading and its rows, in the table's column order. */
  datatype Column = Column(heading: string, values: seq<real>)

  /** A tagged column as the search remembers it: its metallicity and its rows. */
  datatype Candidate = Candidate(metal: real, values: seq<real>)

  /**
   * The records `Below`, `Below2`, `Above` and `Above2` of the search; `None` stands for a
   * record whose column name is still None. `below2`/`above2` hold the record that the last
   * improvement of `below`/`above` displaced.
   */
  datatype Brackets = Brackets(
    below: Option<Candidate>, below2: Option<Candidate>,
    above: Option<Candidate>, above2: Option<Candidate>)

  const NoBrackets := Brackets(None, None, None, None)

  /** The metallicity a heading carries for `prefix`: its suffix as a number, when it starts with `prefix` and the suffix is one. */
  function Metal(parse: FloatParser, prefix: string, heading: string): Option<real> {
    if |prefix| <= |heading| && heading[..|prefix|] == prefix && IsNumber(parse, heading[|prefix|..])
    then parse(heading[|prefix|..])
    else None
  }

  /** One pass of the search loop over a column tagged `c.metal`, which is not the target. */
  function Visit(b: Brackets, zh: real, c: Candidate): Brackets {
    if c.metal < zh then
      if b.below.None? || c.metal > b.below.value.metal then b.(below2 := b.below, below := Some(c)) else b
    else if c.metal > zh then
      if b.above.None? || c.metal < b.above.value.metal then b.(above2 := b.above, above := Some(c)) else b
    else b
  }

  /** The four records after the search has seen `cols`, skipping untagged headings. */
  function Scan(parse: FloatParser, prefix: string, zh: real, cols: seq<Column>): Brackets
    decreases |cols|
  {
    if cols == [] then NoBrackets
    else
      var b := Scan(parse, prefix, zh, cols[..|cols| - 1]);
      var c := cols[|cols| - 1];
      match Metal(parse, prefix, c.heading)
      case None => b
      case Some(m) => Visit(b, zh, Candidate(m, c.values))
  }

  /** The rows of the first column tagged exactly `zh`, if there is one. */
  function FirstExact(parse: FloatParser, prefix: string, zh: real, cols: seq<Column>): Option<seq<real>> {
    if cols == [] then None
    else if Metal(parse, prefix, cols[0].heading) == Some(zh) then Some(cols[0].values)
    else FirstExact(parse, prefix, zh, cols[1..])
  }

  /** What the search keeps true of its records: each side lies on its side, and a displaced record is worse. */
  ghost predicate Ordered(b: Brackets, zh: real) {
    && (b.below.Some? ==> b.below.value.metal < zh)
    && (b.above.Some? ==> b.above.value.metal > zh)
    && (b.below2.Some? ==> b.below.Some? && b.below2.value.metal < b.below.value.metal)
    && (b.above2.Some? ==> b.above.Some? && b.above2.value.metal > b.above.value.metal)
  }

  lemma {:induction false} ScanOrdered(parse: FloatParser, prefix: string, zh: real, cols: seq<Column>)
    ensures Ordered(Scan(parse, prefix, zh, cols), zh)
    decreases |cols|
  {
    if cols != [] {
      ScanOrdered(parse, prefix, zh, cols[..|cols| - 1]);
    }
  }

  /** The final comprehension: row-wise inter/extrapolation between two columns at `zh`. */
  function Rows(lo: Candidate, hi: Candidate, zh: real, n: nat): (r: Result<seq<real>>)
    requires lo.metal != hi.metal
    ensures r.Ok? <==> n <= |lo.values| && n <= |hi.values|
    ensures r.Ok? ==> |r.value| == n
    ensures r.Ok? ==> forall i :: 0 <= i < n ==>
      OnLine(Point(lo.metal, lo.values[i]), Point(hi.metal, hi.values[i]), Point(zh, r.value[i]))
  {
    if |lo.values| < n || |hi.values| < n then Err(IndexError)
    else Ok(seq(n, i requires 0 <= i < n =>
      LinInterExtrapolate(Point(lo.metal, lo.values[i]), Point(hi.metal, hi.values[i]), zh)))
  }

  /**
   * The special cases after the loop: with no column below, the column above is returned
   * unchanged unless an earlier best column above exists, which then plays the lower part;
   * symmetrically with no column above. No tagged column at all is the KeyError of looking
   * up the heading None.
   */
  function Finish(b: Brackets, zh: real, n: nat): Result<seq<real>>
    requires Ordered(b, zh)
  {
    if b.below.None? && b.above2.None? then
      if b.above.Some? then Ok(b.above.value.values) else Err(KeyError("None"))
    else
      var lo := if b.below.Some? then b.below.value else b.above2.value;
      if b.above.None? && b.below2.None? then Ok(lo.values)
      else
        var hi := if b.above.Some? then b.above.value else b.below2.value;
        Rows(lo, hi, zh, n)
  }

  /** `FindValues(data, ZH, Name)` with `n` = len(Mstar), as a function of the table. */
  function FindValuesSpec(parse: FloatParser, prefix: string, zh: real, n: nat, cols: seq<Column>): Result<seq<real>> {
    match FirstExact(parse, prefix, zh, cols)
    case Some(values) => Ok(values)
    case None =>
      ScanOrdered(parse, prefix, zh, cols);
      Finish(Scan(parse, prefix, zh, cols), zh, n)
  }

  /** The first column tagged exactly `zh` is what `FirstExact` finds. */
  lemma {:induction false} FirstExactAt(parse: FloatParser, prefix: string, zh: real, cols: seq<Column>, k: int)
    requires 0 <= k <= |cols|
    requires forall j :: 0 <= j < k ==> Metal(parse, prefix, cols[j].heading) != Some(zh)
    ensures k < |cols| && Metal(parse, prefix, cols[k].heading) == Some(zh) ==>
      FirstExact(parse, prefix, zh, cols) == Some(cols[k].values)
    ensures k == |cols| ==> FirstExact(parse, prefix, zh, cols) == None
    decreases k
  {
    if k > 0 {
      FirstExactAt(parse, prefix, zh, cols[1..], k - 1);
    }
  }

  /**
   * `FindValues`: the loop over the headings in table order, returning a copy of the first
   * exactly tagged column, else the special cases and the row-wise inter/extrapolation.
   */
  method FindValues(data: seq<Column>, zh: real, name: string, parse: FloatParser, n: nat)
    returns (r: Result<seq<real>>)
    ensures r == FindValuesSpec(parse, name, zh, n, data)
  {
    var below, below2, above, above2 := None, None, None, None;
    for i := 0 to |data|
      invariant Brackets(below, below2, above, above2) == Scan(parse, name, zh, data[..i])
      invariant forall j :: 0 <= j < i ==> Metal(parse, name, data[j].heading) != Some(zh)
    {
      assert data[..i + 1][..i] == data[..i];
      var heading := data[i].heading;
      if !(|name| <= |heading| && heading[..|name|] == name) {
        continue;
      }
      if !IsNumber(parse, heading[|name|..]) {
        continue;
      }
      var columnMetal := parse(heading[|name|..]).value;
      var column := Candidate(columnMetal, data[i].values);
      if columnMetal == zh {
        FirstExactAt(parse, name, zh, data, i);
        return Ok(data[i].values);
      } else if columnMetal < zh {
        if below.None? || columnMetal > below.value.metal {
          below2 := below;
          below := Some(column);
        }
      } else if columnMetal > zh {
        if above.None? || columnMetal < above.value.metal {
          above2 := above;
          above := Some(column);
        }
      }
    }
    assert data[..|data|] == data;
    FirstExactAt(parse, name, zh, data, |data|);
    ScanOrdered(parse, name, zh, data);
    var b := Brackets(below, below2, above, above2);
    if below.None? {
      if above2.None? {
        if above.None? {
          return Err(KeyError("None"));
        }
        return Ok(above.value.values);
      } else {
        below := above2;
      }
    }
    if above.None? {
      if below2.None? {
        return Ok(below.value.values);
      } else {
        above := below2;
      }
    }
    r := Rows(below.value, above.value, zh, n);
  }

  /** The metallicity-tagged columns that lie strictly below `zh`. */
  ghost predicate TaggedBelow(parse: FloatParser, prefix: string, zh: real, cols: seq<Column>, j: int)
    requires 0 <= j < |cols|
  {
    Metal(parse, prefix, cols[j].heading).Some? && Metal(parse, prefix, cols[j].heading).value < zh
  }

  ghost predicate TaggedAbove(parse: FloatParser, prefix: string, zh: real, cols: seq<Column>, j: int)
    requires 0 <= j < |cols|
  {
    Metal(parse, prefix, cols[j].heading).Some? && Metal(parse, prefix, cols[j].heading).value > zh
  }

  /**
   * `Below` ends as the column with the greatest tag strictly below `zh` (the earliest such
   * column on ties), and stays unset exactly when there is none.
   */
  lemma {:induction false} ScanBelowIsBest(parse: FloatParser, prefix: string, zh: real, cols: seq<Column>)
    ensures var below := Scan(parse, prefix, zh, cols).below;
      && (below.None? <==> forall j :: 0 <= j < |cols| ==> !TaggedBelow(parse, prefix, zh, cols, j))
      && (below.Some? ==> exists k :: (0 <= k < |cols| && TaggedBelow(parse, prefix, zh, cols, k)
            && Metal(parse, prefix, cols[k].heading).value == below.value.metal
            && cols[k].values == below.value.values
            && (forall j :: 0 <= j < k && TaggedBelow(parse, prefix, zh, cols, j) ==>
                  Metal(parse, prefix, cols[j].heading).value < below.value.metal)
            && (forall j :: 0 <= j < |cols| && TaggedBelow(parse, prefix, zh, cols, j) ==>
                  Metal(parse, prefix, cols[j].heading).value <= below.value.metal)))
    decreases |cols|
  {
    if cols != [] {
      var init := cols[..|cols| - 1];
      ScanBelowIsBest(parse, prefix, zh, init);
      var last := |cols| - 1;
      forall j | 0 <= j < last
        ensures TaggedBelow(parse, prefix, zh, cols, j) == TaggedBelow(parse, prefix, zh, init, j)
        ensures cols[j] == init[j]
      {}
      var old_ := Scan(parse, prefix, zh, init).below;
      var new_ := Scan(parse, prefix, zh, cols).below;
      if new_ != old_ {
        assert new_ == Some(Candidate(Metal(parse, prefix, cols[last].heading).value, cols[last].values));
        assert TaggedBelow(parse, prefix, zh, cols, last);
      } else if new_.Some? {
        var k :| 0 <= k < |init| && TaggedBelow(parse, prefix, zh, init, k)
          && Metal(parse, prefix, init[k].heading).value == old_.value.metal
          && init[k].values == old_.value.values
          && (forall j :: 0 <= j < k && TaggedBelow(parse, prefix, zh, init, j) ==>
                Metal(parse, prefix, init[j].heading).value < old_.value.metal);
        assert TaggedBelow(parse, prefix, zh, cols, k);
      }
    }
  }

  /**
   * `Above` ends as the column with the smallest tag strictly above `zh` (the earliest such
   * column on ties), and stays unset exactly when there is none.
   */
  lemma {:induction false} ScanAboveIsBest(parse: FloatParser, prefix: string, zh: real, cols: seq<Column>)
    ensures var above := Scan(parse, prefix, zh, cols).above;
      && (above.None? <==> forall j :: 0 <= j < |cols| ==> !TaggedAbove(parse, prefix, zh, cols, j))
      && (above.Some? ==> exists k :: (0 <= k < |cols| && TaggedAbove(parse, prefix, zh, cols, k)
            && Metal(parse, prefix, cols[k].heading).value == above.value.metal
            && cols[k].values == above.value.values
            && (forall j :: 0 <= j < k && TaggedAbove(parse, prefix, zh, cols, j) ==>
                  Metal(parse, prefix, cols[j].heading).value > above.value.metal)
            && (forall j :: 0 <= j < |cols| && TaggedAbove(parse, prefix, zh, cols, j) ==>
                  Metal(parse, prefix, cols[j].heading).value >= above.value.metal)))
    decreases |cols|
  {
    if cols != [] {
      var init := cols[..|cols| - 1];
      ScanAboveIsBest(parse, prefix, zh, init);
      var last := |cols| - 1;
      forall j | 0 <= j < last
        ensures TaggedAbove(parse, prefix, zh, cols, j) == TaggedAbove(parse, prefix, zh, init, j)
        ensures cols[j] == init[j]
      {}
      var old_ := Scan(parse, prefix, zh, init).above;
      var new_ := Scan(parse, prefix, zh, cols).above;
      if new_ != old_ {
        assert new_ == Some(Candidate(Metal(parse, prefix, cols[last].heading).value, cols[last].values));
        assert TaggedAbove(parse, prefix, zh, cols, last);
      } else if new_.Some? {
        var k :| 0 <= k < |init| && TaggedAbove(parse, prefix, zh, init, k)
          && Metal(parse, prefix, init[k].heading).value == old_.value.metal
          && init[k].values == old_.value.values
          && (forall j :: 0 <= j < k && TaggedAbove(parse, prefix, zh, init, j) ==>
                Metal(parse, prefix, init[j].heading).value > old_.value.metal);
        assert TaggedAbove(parse, prefix, zh, cols, k);
      }
    }
  }

  /** A heading without the prefix or without a numeric suffix changes nothing, wherever it stands. */
  lemma {:induction false} UntaggedIgnored(parse: FloatParser, prefix: string, zh: real, n: nat,
                                          xs: seq<Column>, c: Column, ys: seq<Column>)
    requires Metal(parse, prefix, c.heading).None?
    ensures FindValuesSpec(parse, prefix, zh, n, xs + [c] + ys) == FindValuesSpec(parse, prefix, zh, n, xs + ys)
  {
    ScanSkips(parse, prefix, zh, xs, c, ys);
    FirstExactSkips(parse, prefix, zh, xs, c, ys);
  }

  lemma {:induction false} ScanSkips(parse: FloatParser, prefix: string, zh: real,
                                    xs: seq<Column>, c: Column, ys: seq<Column>)
    requires Metal(parse, prefix, c.heading).None?
    ensures Scan(parse, prefix, zh, xs + [c] + ys) == Scan(parse, prefix, zh, xs + ys)
    decreases |ys|
  {
    if ys == [] {
      assert (xs + [c])[..|xs|] == xs;
      assert xs + [c] + ys == xs + [c];
      assert xs + ys == xs;
    } else {
      var init := ys[..|ys| - 1];
      ScanSkips(parse, prefix, zh, xs, c, init);
      assert (xs + [c] + ys)[..|xs + [c] + ys| - 1] == xs + [c] + init;
      assert (xs + ys)[..|xs + ys| - 1] == xs + init;
    }
  }

  lemma {:induction false} FirstExactSkips(parse: FloatParser, prefix: string, zh: real,
                                          xs: seq<Column>, c: Column, ys: seq<Column>)
    requires Metal(parse, prefix, c.heading).None?
    ensures FirstExact(parse, prefix, zh, xs + [c] + ys) == FirstExact(parse, prefix, zh, xs + ys)
    decreases |xs|
  {
    var zs, ws := xs + [c] + ys, xs + ys;
    if xs == [] {
      assert zs[0] == c && zs[1..] == ys == ws;
    } else {
      FirstExactSkips(parse, prefix, zh, xs[1..], c, ys);
      assert zs[0] == xs[0] == ws[0];
      assert zs[1..] == xs[1..] + [c] + ys;
      assert ws[1..] == xs[1..] + ys;
    }
  }

  /**
   * With tagged columns on both sides of `zh` and no exact one, each row of the result is the
   * value at `zh` of the line through the two bracketing columns' rows, so it lies between them;
   * the result has `n` rows when both columns are that long, else the lookup raises IndexError.
   */
  lemma FindValuesInterpolates(parse: FloatParser, prefix: string, zh: real, n: nat, cols: seq<Column>)
    requires FirstExact(parse, prefix, zh, cols).None?
    requires Scan(parse, prefix, zh, cols).below.Some? && Scan(parse, prefix, zh, cols).above.Some?
    ensures var lo, hi := Scan(parse, prefix, zh, cols).below.value, Scan(parse, prefix, zh, cols).above.value;
      var r := FindValuesSpec(parse, prefix, zh, n, cols);
      && (r.Ok? <==> n <= |lo.values| && n <= |hi.values|)
      && (r.Err? ==> r.error == IndexError)
      && (r.Ok? ==> |r.value| == n && forall i :: 0 <= i < n ==>
            Min(lo.values[i], hi.values[i]) <= r.value[i] <= Max(lo.values[i], hi.values[i]))
  {
    var b := Scan(parse, prefix, zh, cols);
    ScanOrdered(parse, prefix, zh, cols);
    var lo, hi := b.below.value, b.above.value;
    var r := FindValuesSpec(parse, prefix, zh, n, cols);
    if r.Ok? {
      forall i | 0 <= i < n
        ensures Min(lo.values[i], hi.values[i]) <= r.value[i] <= Max(lo.values[i], hi.values[i])
      {
        LinInterBetween(Point(lo.metal, lo.values[i]), Point(hi.metal, hi.values[i]), zh);
      }
    }
  }

  /**
   * With tagged columns on one side only: the best column is returned unchanged when it was
   * the first one seen on that side, otherwise the result extrapolates from it and the best
   * column it displaced.
   */
  lemma FindValuesOneSide(parse: FloatParser, prefix: string, zh: real, n: nat, cols: seq<Column>)
    requires FirstExact(parse, prefix, zh, cols).None?
    ensures var b := Scan(parse, prefix, zh, cols);
      var r := FindValuesSpec(parse, prefix, zh, n, cols);
      && (b.below.None? && b.above.Some? && b.above2.None? ==> r == Ok(b.above.value.values))
      && (b.below.None? && b.above2.Some? ==>
            b.above.Some? && b.above2.value.metal > b.above.value.metal > zh &&
            r == Rows(b.above2.value, b.above.value, zh, n))
      && (b.above.None? && b.below.Some? && b.below2.None? ==> r == Ok(b.below.value.values))
      && (b.above.None? && b.below2.Some? ==>
            b.below.Some? && b.below2.value.metal < b.below.value.metal < zh &&
            r == Rows(b.below.value, b.below2.value, zh, n))
      && (b.below.None? && b.above.None? ==> r == Err(KeyError("None")))
  {
    ScanOrdered(parse, prefix, zh, cols);
  }

  /** The column store of the unit test, where headings end in "-1.0" and "0.0". */
  function TestTable(): seq<Column> {
    [Column("Mstar", [1.0, 2.0]), Column("t_-1.0", [6.0, 3.0]), Column("t_0.0", [6.5, 3.2]),
     Column("Mfin_-1.0", [0.8, 1.2]), Column("Mfin_0.0", [0.9, 1.5])]
  }

  /** The value the unit test pins for interpolation: halfway between the columns at -1.0 and 0.0. */
  lemma {:induction false} FindValuesTestInterpolates(parse: FloatParser)
    requires parse("-1.0") == Some(-1.0) && parse("0.0") == Some(0.0)
    ensures FindValuesSpec(parse, "t_", -0.5, 2, TestTable()) == Ok([6.25, 3.1])
  {
    var cols := TestTable();
    assert cols[1].heading[..2] == "t_" && cols[1].heading[2..] == "-1.0";
    assert cols[2].heading[..2] == "t_" && cols[2].heading[2..] == "0.0";
    assert cols[0].heading[..2][0] != "t_"[0];
    assert cols[3].heading[..2] != "t_";
    assert cols[4].heading[..2] != "t_";
    assert cols[..5] == cols && cols[..4][..3] == cols[..3] && cols[..3][..2] == cols[..2];
    assert cols[..2][..1] == cols[..1] && cols[..1][..0] == [];
    var lo, hi := Candidate(-1.0, [6.0, 3.0]), Candidate(0.0, [6.5, 3.2]);
    assert Scan(parse, "t_", -0.5, cols[..1]) == NoBrackets;
    assert Scan(parse, "t_", -0.5, cols[..2]) == Brackets(Some(lo), None, None, None);
    assert Scan(parse, "t_", -0.5, cols[..3]) == Brackets(Some(lo), None, Some(hi), None);
    assert Scan(parse, "t_", -0.5, cols[..4]) == Brackets(Some(lo), None, Some(hi), None);
    assert Scan(parse, "t_", -0.5, cols) == Brackets(Some(lo), None, Some(hi), None);
    assert Rows(lo, hi, -0.5, 2).value == [LinInterExtrapolate(Point(-1.0, 6.0), Point(0.0, 6.5), -0.5),
                                          LinInterExtrapolate(Point(-1.0, 3.0), Point(0.0, 3.2), -0.5)];
  }

  /** The value the unit test pins for a metallicity that is a column's own: that column's rows. */
  lemma {:induction false} FindValuesTestExactHit(parse: FloatParser)
    requires parse("-1.0") == Some(-1.0) && parse("0.0") == Some(0.0)
    ensures FindValuesSpec(parse, "Mfin_", -1.0, 2, TestTable()) == Ok([0.8, 1.2])
  {
    var cols := TestTable();
    assert cols[3].heading[..5] == "Mfin_" && cols[3].heading[5..] == "-1.0";
    assert cols[0].heading[..5][1] != "Mfin_"[1];
    assert cols[1].heading[..5] != "Mfin_";
    assert cols[2].heading[..5] != "Mfin_";
    assert cols[1..][1..][1..][1..][1..] == [];
    assert cols[..5] == cols && cols[..4][..3] == cols[..3] && cols[..3][..2] == cols[..2];
    assert cols[..2][..1] == cols[..1] && cols[..1][..0] == [];
  }

  /** Python's `data["Mstar"]`: the rows of the first column with that heading. */
  function Lookup(data: seq<Column>, key: string): Option<seq<real>> {
    if data == [] then None
    else if data[0].heading == key then Some(data[0].values)
    else Lookup(data[1..], key)
  }

  /** A constructed calculator: the initial masses and the lifetime and remnant-mass columns for its metallicity. */
  datatype Calculator = Calculator(mstar: seq<real>, t: seq<real>, mfin: seq<real>)

  /**
   * `cRemnantCalculator(data, ZH)`: copies "Mstar", then fills the lifetime and the remnant-mass
   * columns for `zh`; the KeyError of a missing "Mstar" and any failure of the two searches
   * propagate.
   */
  method Construct(data: seq<Column>, zh: real, parse: FloatParser) returns (r: Result<Calculator>)
    ensures Lookup(data, "Mstar").None? ==> r == Err(KeyError("Mstar"))
    ensures r.Ok? ==> && Lookup(data, "Mstar") == Some(r.value.mstar)
                      && FindValuesSpec(parse, "t_", zh, |r.value.mstar|, data) == Ok(r.value.t)
                      && FindValuesSpec(parse, "Mfin_", zh, |r.value.mstar|, data) == Ok(r.value.mfin)
    ensures r.Err? && Lookup(data, "Mstar").Some? ==>
      var n := |Lookup(data, "Mstar").value|;
      || FindValuesSpec(parse, "t_", zh, n, data) == Err(r.error)
      || (FindValuesSpec(parse, "t_", zh, n, data).Ok? && FindValuesSpec(parse, "Mfin_", zh, n, data) == Err(r.error))
  {
    var mstar := Lookup(data, "Mstar");
    if mstar.None? {
      return Err(KeyError("Mstar"));
    }
    var t := FindValues(data, zh, "t_", parse, |mstar.value|);
    if t.Err? {
      return Err(t.error);
    }
    var mfin := FindValues(data, zh, "Mfin_", parse, |mstar.value|);
    if mfin.Err? {
      return Err(mfin.error);
    }
    r := Ok(Calculator(mstar.value, t.value, mfin.value));
  }

  /**
   * The walk of `GetValFromList` from index `i` on, once `val` is known to lie within
   * [vs[0], vs[-1]] and above every entry before `i`.
   */
  function ScanFrom(val: real, vs: seq<real>, ds: seq<real>, i: nat): Result<real>
    requires i < |vs| && val <= vs[|vs| - 1]
    requires 0 < i ==> vs[i - 1] < val
    requires i == 0 ==> vs[0] <= val
    decreases |vs| - i
  {
    if val == vs[i] then
      if i < |ds| then Ok(ds[i]) else Err(IndexError)
    else if vs[i] < val then
      ScanFrom(val, vs, ds, i + 1)
    else if i < |ds| then
      Ok(LinInterExtrapolate(Point(vs[i - 1], ds[i - 1]), Point(vs[i], ds[i]), val))
    else Err(IndexError)
  }

  /**
   * `GetValFromList(val, valList, dataList)`: extrapolation from the first two points below
   * the first entry and from the last two above the last one, otherwise the scan. Out-of-range
   * indices are IndexError and two equal abscissae in an extrapolation are ZeroDivisionError.
   */
  function GetValFromList(val: real, vs: seq<real>, ds: seq<real>): (r: Result<real>)
    ensures StrictlyIncreasing(vs) && |vs| >= 2 && |ds| == |vs| ==>
      forall k :: OnSegment(val, vs, k) ==> r == Ok(SegmentLine(val, vs, ds, k))
  {
    LookupBranchesOnSegments(val, vs, ds);
    if |vs| == 0 then Err(IndexError)
    else if val < vs[0] then
      if |vs| < 2 || |ds| < 2 then Err(IndexError)
      else if !Interpolable(Point(vs[0], ds[0]), Point(vs[1], ds[1]), val) then Err(ZeroDivisionError)
      else Ok(LinInterExtrapolate(Point(vs[0], ds[0]), Point(vs[1], ds[1]), val))
    else if val > vs[|vs| - 1] then
      if |vs| < 2 || |ds| < 2 then Err(IndexError)
      else
        var p1, p2 := Point(vs[|vs| - 1], ds[|ds| - 1]), Point(vs[|vs| - 2], ds[|ds| - 2]);
        if !Interpolable(p1, p2, val) then Err(ZeroDivisionError)
        else Ok(LinInterExtrapolate(p1, p2, val))
    else ScanFrom(val, vs, ds, 0)
  }

  /** The line through the table points `k` and `k+1`, evaluated at `val`. */
  function SegmentLine(val: real, vs: seq<real>, ds: seq<real>, k: int): real
    requires 0 <= k < |vs| - 1 && |ds| == |vs| && vs[k] < vs[k + 1]
  {
    LinInterExtrapolate(Point(vs[k], ds[k]), Point(vs[k + 1], ds[k + 1]), val)
  }

  /**
   * Segment `k` of the axis holds `val` in its closed range, the first segment extended below
   * the table and the last one above it.
   */
  predicate OnSegment(val: real, vs: seq<real>, k: int) {
    && 0 <= k < |vs| - 1
    && (k == 0 || vs[k] <= val)
    && (k == |vs| - 2 || val <= vs[k + 1])
  }

  /**
   * On a strictly increasing axis with one data entry per axis entry, each branch of
   * `GetValFromList` is on the line of every segment that holds `val`.
   */
  lemma LookupBranchesOnSegments(val: real, vs: seq<real>, ds: seq<real>)
    ensures StrictlyIncreasing(vs) && |vs| >= 2 && |ds| == |vs| ==>
      forall k :: OnSegment(val, vs, k) ==>
        && (val < vs[0] ==> k == 0)
        && (val > vs[|vs| - 1] ==> k == |vs| - 2)
        && (val > vs[|vs| - 1] ==>
              LinInterExtrapolate(Point(vs[|vs| - 1], ds[|ds| - 1]), Point(vs[|vs| - 2], ds[|ds| - 2]), val) == SegmentLine(val, vs, ds, k))
        && (vs[0] <= val <= vs[|vs| - 1] ==> ScanFrom(val, vs, ds, 0) == Ok(SegmentLine(val, vs, ds, k)))
  {
    if StrictlyIncreasing(vs) && |vs| >= 2 && |ds| == |vs| {
      var last := |vs| - 1;
      forall k | OnSegment(val, vs, k)
        ensures val < vs[0] ==> k == 0
        ensures val > vs[last] ==> k == last - 1
        ensures val > vs[last] ==>
          LinInterExtrapolate(Point(vs[last], ds[last]), Point(vs[last - 1], ds[last - 1]), val) == SegmentLine(val, vs, ds, k)
        ensures vs[0] <= val <= vs[last] ==> ScanFrom(val, vs, ds, 0) == Ok(SegmentLine(val, vs, ds, k))
      {
        if val < vs[0] {
        } else if val > vs[last] {
          LinInterSymmetric(Point(vs[last], ds[last]), Point(vs[last - 1], ds[last - 1]), val);
        } else {
          ScanFromOnSegment(val, vs, ds, 0, k);
        }
      }
    }
  }

  lemma {:induction false} ScanFromOnSegment(val: real, vs: seq<real>, ds: seq<real>, i: nat, k: int)
    requires StrictlyIncreasing(vs) && |vs| >= 2 && |ds| == |vs|
    requires i <= k < |vs| - 1 && vs[0] <= val && vs[k] <= val <= vs[k + 1]
    requires 0 < i ==> vs[i - 1] < val
    ensures ScanFrom(val, vs, ds, i) == Ok(SegmentLine(val, vs, ds, k))
    decreases |vs| - i
  {
    assert vs[k] < vs[k + 1] && vs[i] <= vs[k];
    if val == vs[i] {
      assert i == k;
    } else if i < k {
      ScanFromOnSegment(val, vs, ds, i + 1, k);
    } else {
      ScanFromPast(val, vs, ds, i + 1, k);
    }
  }

  /** Entering the segment above `k` from below: the scan stops at k+1 on the same line. */
  lemma ScanFromPast(val: real, vs: seq<real>, ds: seq<real>, i: nat, k: int)
    requires StrictlyIncreasing(vs) && |vs| >= 2 && |ds| == |vs|
    requires i == k + 1 && 0 <= k && k + 1 < |vs| && vs[k] < val <= vs[k + 1]
    ensures ScanFrom(val, vs, ds, i) == Ok(SegmentLine(val, vs, ds, k))
  {}

  /** At an entry of a strictly increasing axis, the lookup returns the matching data entry. */
  lemma GetValFromListExact(vs: seq<real>, ds: seq<real>, k: int)
    requires StrictlyIncreasing(vs) && |vs| >= 2 && |ds| == |vs| && 0 <= k < |vs|
    ensures GetValFromList(vs[k], vs, ds) == Ok(ds[k])
  {
    var j := if k < |vs| - 1 then k else k - 1;
    assert OnSegment(vs[k], vs, j);
    assert GetValFromList(vs[k], vs, ds) == Ok(SegmentLine(vs[k], vs, ds, j));
  }

  /** For a two-entry table, every branch of the lookup follows the one line through both points. */
  lemma TwoEntryLine(val: real, a: Point, b: Point)
    requires a.x != b.x
    ensures GetValFromList(val, [a.x, b.x], [a.y, b.y]) == Ok(LinInterExtrapolate(a, b, val))
  {
    var vs, ds := [a.x, b.x], [a.y, b.y];
    if val < a.x {
    } else if val > b.x {
      LinInterSymmetric(b, a, val);
    } else if val == a.x {
    } else {
      assert ScanFrom(val, vs, ds, 0) == ScanFrom(val, vs, ds, 1);
    }
  }

  /**
   * A two-row table read forwards and then backwards returns the input: looking up the data
   * value of `x` on the swapped table gives `x` again, when both columns have distinct entries.
   */
  lemma TwoEntryRoundTrip(x: real, a: Point, b: Point)
    requires a.x != b.x && a.y != b.y
    ensures GetValFromList(x, [a.x, b.x], [a.y, b.y]).Ok?
    ensures GetValFromList(GetValFromList(x, [a.x, b.x], [a.y, b.y]).value, [a.y, b.y], [a.x, b.x]) == Ok(x)
  {
    TwoEntryLine(x, a, b);
    var y := LinInterExtrapolate(a, b, x);
    var a', b' := Point(a.y, a.x), Point(b.y, b.x);
    TwoEntryLine(y, a', b');
    assert OnLine(a', b', Point(y, x));
    LinInterOfOnLine(a', b', Point(y, x));
  }

  /** The lookups the unit test pins on the table [-1, 1, 3, 6] -> [2, 2.5, 3.1, 4]. */
  lemma GetValFromListTestValues()
    ensures GetValFromList(-2.0, [-1.0, 1.0, 3.0, 6.0], [2.0, 2.5, 3.1, 4.0]) == Ok(1.75)
    ensures GetValFromList(-1.0, [-1.0, 1.0, 3.0, 6.0], [2.0, 2.5, 3.1, 4.0]) == Ok(2.0)
    ensures GetValFromList(0.0, [-1.0, 1.0, 3.0, 6.0], [2.0, 2.5, 3.1, 4.0]) == Ok(2.25)
    ensures GetValFromList(2.5, [-1.0, 1.0, 3.0, 6.0], [2.0, 2.5, 3.1, 4.0]) == Ok(2.95)
    ensures GetValFromList(3.0, [-1.0, 1.0, 3.0, 6.0], [2.0, 2.5, 3.1, 4.0]) == Ok(3.1)
    ensures GetValFromList(7.0, [-1.0, 1.0, 3.0, 6.0], [2.0, 2.5, 3.1, 4.0]) == Ok(4.3)
  {
    var vs, ds := [-1.0, 1.0, 3.0, 6.0], [2.0, 2.5, 3.1, 4.0];
    assert ScanFrom(0.0, vs, ds, 0) == ScanFrom(0.0, vs, ds, 1);
    assert ScanFrom(2.5, vs, ds, 0) == ScanFrom(2.5, vs, ds, 1) == ScanFrom(2.5, vs, ds, 2);
    assert ScanFrom(3.0, vs, ds, 0) == ScanFrom(3.0, vs, ds, 1) == ScanFrom(3.0, vs, ds, 2);
  }
}
