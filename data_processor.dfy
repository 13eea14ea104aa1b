/**
 * src/DataProcessor.py: the three processing steps run on every cluster. The initial mass
 * function comes from the Newton-Raphson solver of IMFGenerator.py and the star formation
 * duration from `GetTimeFromMass` of RemnantCalculator.py; neither is part of this model,
 * and both enter as functions passed in. The enrichment loop of `ComputeSNe` draws stars from
 * the most massive down and lets each supernova pay part of the iron budget of the cluster.
 */
module DataProcessor {
  import opened Wrappers
  import opened Common
  import opened MassFunction
  import opened Data
  import StarExtractor

  /** Stars below this mass [Msun] do not explode; reaching one ends the search. */
  const SNMassLimit: real := 8.0

  /** What the enrichment loop of one cluster ends with. */
  datatype Enrichment =
    /** The budget is paid: supernovae counted, last exploding mass, what is left of the budget. */
    | Enriched(nsn: nat, mlast: real, remaining: real)
    /** A star below `SNMassLimit` was drawn first (NSN and mlast become NaN). */
    | TooLight

  function Top(mf: MassFunction): real
    requires WellFormed(mf)
  {
    mf.bounds[|mf.bounds| - 1]
  }

  /** The `w`-th draw from the mass function fails or is below the supernova limit. */
  ghost predicate StopsBy(mf: MassFunction, el: Elementary, w: nat)
    requires WellFormed(mf)
  {
    var s := StarExtractor.NthStar(mf, el, w);
    s.Err? || s.value < SNMassLimit
  }

  /** One draw of the enrichment loop: a star too light, a star that does not explode, or a supernova. */
  datatype Draw = Light | Dud | Supernova(mass: real, ejected: real)

  /**
   * The loop body on a drawn star of mass `m`: below the supernova limit the search ends;
   * otherwise `SNExplodes` decides, and only an exploding star asks `Ejecta`, whose error is
   * the round's error.
   */
  function Classify(sn: SNTable, ej: EjectaTable, m: real): (r: Result<Draw>)
    requires SNWellFormed(sn) && EjectaWellFormed(ej)
    ensures r == Ok(Light) <==> m < SNMassLimit
    ensures r == Ok(Dud) <==> m >= SNMassLimit && !SNExplodes(sn, m)
    ensures r.Ok? && r.value.Supernova? ==>
      m >= SNMassLimit && SNExplodes(sn, m) && r.value.mass == m && Ejecta(ej, m) == Ok(r.value.ejected)
    ensures r.Err? ==> m >= SNMassLimit && SNExplodes(sn, m) && Ejecta(ej, m) == Err(r.error)
  {
    if m < SNMassLimit then Ok(Light)
    else if !SNExplodes(sn, m) then Ok(Dud)
    else
      match Ejecta(ej, m)
      case Err(e) => Err(e)
      case Ok(y) => Ok(Supernova(m, y))
  }

  /** Draw `i` of a cluster: the `i`-th star of a fresh extractor, classified; the extractor's error ends it. */
  function DrawAt(sn: SNTable, ej: EjectaTable, mf: MassFunction, el: Elementary, i: nat): (r: Result<Draw>)
    requires SNWellFormed(sn) && EjectaWellFormed(ej) && WellFormed(mf)
    ensures r.Ok? && !r.value.Light? ==>
      StarExtractor.NthStar(mf, el, i).Ok? && StarExtractor.NthStar(mf, el, i).value >= SNMassLimit
  {
    match StarExtractor.NthStar(mf, el, i)
    case Err(e) => Err(e)
    case Ok(m) => Classify(sn, ej, m)
  }

  /** The stream of draws of one cluster. */
  function Draws(sn: SNTable, ej: EjectaTable, mf: MassFunction, el: Elementary): nat -> Result<Draw>
    requires SNWellFormed(sn) && EjectaWellFormed(ej) && WellFormed(mf)
  {
    (i: nat) => DrawAt(sn, ej, mf, el, i)
  }

  /** Draw `w` of the stream ends the loop whatever the budget: it fails or is too light. */
  predicate Halts(draws: nat -> Result<Draw>, w: nat) {
    draws(w).Err? || draws(w).value.Light?
  }

  lemma StopsByHalts(sn: SNTable, ej: EjectaTable, mf: MassFunction, el: Elementary, w: nat)
    requires SNWellFormed(sn) && EjectaWellFormed(ej) && WellFormed(mf) && StopsBy(mf, el, w)
    ensures Halts(Draws(sn, ej, mf, el), w)
  {
    assert Draws(sn, ej, mf, el)(w) == DrawAt(sn, ej, mf, el, w);
  }

  /**
   * The enrichment loop from draw `i` on, with `budget` iron still to produce, `nsn`
   * supernovae so far and `mlast` the last exploding mass. The loop ends at the latest at draw
   * `w`, which fails or is too light.
   */
  function Burn(draws: nat -> Result<Draw>, ghost w: nat, i: nat, budget: real, nsn: nat, mlast: real): (r: Result<Enrichment>)
    requires i <= w && Halts(draws, w)
    ensures r.Ok? && r.value.Enriched? ==> r.value.remaining <= 0.0 && r.value.nsn >= nsn
    ensures r.Ok? && r.value.Enriched? && r.value.nsn == nsn ==> r.value.mlast == mlast && r.value.remaining == budget
    decreases w - i
  {
    if budget <= 0.0 then Ok(Enriched(nsn, mlast, budget))
    else
      match draws(i)
      case Err(e) => Err(e)
      case Ok(Light) => Ok(TooLight)
      case Ok(Dud) => Burn(draws, w, i + 1, budget, nsn, mlast)
      case Ok(Supernova(m, y)) => Burn(draws, w, i + 1, budget - y, nsn + 1, m)
  }

  /** `draws` is the stream of draws of one cluster. */
  ghost predicate IsDrawStream(draws: nat -> Result<Draw>, sn: SNTable, ej: EjectaTable, mf: MassFunction, el: Elementary)
    requires SNWellFormed(sn) && EjectaWellFormed(ej) && WellFormed(mf)
  {
    forall i: nat {:trigger DrawAt(sn, ej, mf, el, i)} :: draws(i) == DrawAt(sn, ej, mf, el, i)
  }

  lemma DrawsIsDrawStream(sn: SNTable, ej: EjectaTable, mf: MassFunction, el: Elementary)
    requires SNWellFormed(sn) && EjectaWellFormed(ej) && WellFormed(mf)
    ensures IsDrawStream(Draws(sn, ej, mf, el), sn, ej, mf, el)
  {
  }

  /** Draw `d` of the stream is the extractor's error or the classification of its star. */
  lemma DrawOfStar(draws: nat -> Result<Draw>, sn: SNTable, ej: EjectaTable, mf: MassFunction, el: Elementary, d: nat)
    requires SNWellFormed(sn) && EjectaWellFormed(ej) && WellFormed(mf) && IsDrawStream(draws, sn, ej, mf, el)
    ensures var s := StarExtractor.NthStar(mf, el, d);
      && (s.Err? ==> draws(d) == Err(s.error))
      && (s.Ok? ==> draws(d) == Classify(sn, ej, s.value))
  {
    assert draws(d) == DrawAt(sn, ej, mf, el, d);
  }

  /** One round of the loop with budget left: what draw `d` does to the rest of the loop. */
  lemma BurnStep(draws: nat -> Result<Draw>, w: nat, d: nat, budget: real, nsn: nat, mlast: real)
    requires d <= w && Halts(draws, w) && budget > 0.0
    ensures var b := Burn(draws, w, d, budget, nsn, mlast);
      && (draws(d).Err? ==> b == Err(draws(d).error))
      && (draws(d) == Ok(Light) ==> b == Ok(TooLight))
      && (draws(d) == Ok(Dud) ==> d < w && b == Burn(draws, w, d + 1, budget, nsn, mlast))
      && (draws(d).Ok? && draws(d).value.Supernova? ==>
            d < w && b == Burn(draws, w, d + 1, budget - draws(d).value.ejected, nsn + 1, draws(d).value.mass))
  {
  }

  /**
   * The head of the loop body of `ComputeSNe`: the extractor's next star, classified. The
   * extractor advances whenever it returns a star, whatever the classification.
   */
  method NextDraw(extractor: StarExtractor.StarExtractor, sn: SNTable, ej: EjectaTable,
                  ghost draws: nat -> Result<Draw>) returns (draw: Result<Draw>)
    requires extractor.Valid() && SNWellFormed(sn) && EjectaWellFormed(ej)
    requires IsDrawStream(draws, sn, ej, extractor.massFunction, extractor.el)
    modifies extractor
    ensures extractor.Valid()
    ensures draw == draws(old(extractor.drawn))
    ensures draw.Ok? ==> extractor.drawn == old(extractor.drawn) + 1
  {
    ghost var d := extractor.drawn;
    var next := extractor.GetNextMostMassiveStar();
    DrawOfStar(draws, sn, ej, extractor.massFunction, extractor.el, d);
    if next.Err? {
      return Err(next.error);
    }
    draw := Classify(sn, ej, next.value);
  }

  /**
   * The `while` loop of `ComputeSNe` for one cluster: a fresh extractor on the cluster's mass
   * function, NSN = 0, mlast = the top bound, and draws until the produced iron is paid for.
   */
  method CountSupernovae(sn: SNTable, ej: EjectaTable, mf: MassFunction, el: Elementary, producedIron: real,
                         ghost draws: nat -> Result<Draw>, ghost w: nat)
    returns (r: Result<Enrichment>)
    requires SNWellFormed(sn) && EjectaWellFormed(ej) && WellFormed(mf)
    requires IsDrawStream(draws, sn, ej, mf, el) && Halts(draws, w)
    ensures r == Burn(draws, w, 0, producedIron, 0, Top(mf))
  {
    var extractor := new StarExtractor.StarExtractor(mf, el);
    var nsn: nat := 0;
    var mlast := Top(mf);
    var budget := producedIron;
    ghost var total := Burn(draws, w, 0, producedIron, 0, Top(mf));
    while budget > 0.0
      invariant extractor.Valid() && extractor.massFunction == mf && extractor.el == el
      invariant extractor.drawn <= w
      invariant total == Burn(draws, w, extractor.drawn, budget, nsn, mlast)
      decreases w - extractor.drawn
    {
      ghost var d := extractor.drawn;
      var draw := NextDraw(extractor, sn, ej, draws);
      BurnStep(draws, w, d, budget, nsn, mlast);
      match draw
      case Err(e) =>
        return Err(e);
      case Ok(Light) =>
        return Ok(TooLight);
      case Ok(Dud) =>
        assert total == Burn(draws, w, d + 1, budget, nsn, mlast);
      case Ok(Supernova(m, y)) =>
        assert total == Burn(draws, w, d + 1, budget - y, nsn + 1, m);
        budget := budget - y;
        nsn := nsn + 1;
        mlast := m;
    }
    r := Ok(Enriched(nsn, mlast, budget));
  }

  // ---------------------------------------------------------------------------------------
  // Properties of the enrichment loop
  // ---------------------------------------------------------------------------------------

  /** Where the loop is known to stop does not change what it computes. */
  lemma {:induction false} BurnWitnessIrrelevant(draws: nat -> Result<Draw>, w1: nat, w2: nat,
                                                i: nat, budget: real, nsn: nat, mlast: real)
    requires i <= w1 && Halts(draws, w1) && i <= w2 && Halts(draws, w2)
    ensures Burn(draws, w1, i, budget, nsn, mlast) == Burn(draws, w2, i, budget, nsn, mlast)
    decreases w1 - i
  {
    if budget > 0.0 {
      match draws(i)
      case Err(_) =>
      case Ok(Light) =>
      case Ok(Dud) => BurnWitnessIrrelevant(draws, w1, w2, i + 1, budget, nsn, mlast);
      case Ok(Supernova(m, y)) => BurnWitnessIrrelevant(draws, w1, w2, i + 1, budget - y, nsn + 1, m);
    }
  }

  /** The enrichment of one cluster, for a mass function whose star stream is known to stop. */
  ghost function Enrich(sn: SNTable, ej: EjectaTable, mf: MassFunction, el: Elementary, producedIron: real): Result<Enrichment>
    requires SNWellFormed(sn) && EjectaWellFormed(ej) && WellFormed(mf)
    requires exists w :: StopsBy(mf, el, w)
  {
    var w :| StopsBy(mf, el, w);
    StopsByHalts(sn, ej, mf, el, w);
    Burn(Draws(sn, ej, mf, el), w, 0, producedIron, 0, Top(mf))
  }

  lemma EnrichIsBurn(sn: SNTable, ej: EjectaTable, mf: MassFunction, el: Elementary, producedIron: real, w: nat)
    requires SNWellFormed(sn) && EjectaWellFormed(ej) && WellFormed(mf) && Halts(Draws(sn, ej, mf, el), w)
    requires exists w :: StopsBy(mf, el, w)
    ensures Enrich(sn, ej, mf, el, producedIron) == Burn(Draws(sn, ej, mf, el), w, 0, producedIron, 0, Top(mf))
  {
    var draws := Draws(sn, ej, mf, el);
    forall w1 | StopsBy(mf, el, w1)
      ensures Halts(draws, w1)
      ensures Burn(draws, w1, 0, producedIron, 0, Top(mf)) == Burn(draws, w, 0, producedIron, 0, Top(mf))
    {
      StopsByHalts(sn, ej, mf, el, w1);
      BurnWitnessIrrelevant(draws, w1, w, 0, producedIron, 0, Top(mf));
    }
  }

  /**
   * A loop that ends normally has paid its budget (nothing is left) and never lowers the count.
   * When it counted no new supernova, mlast and the budget are untouched; otherwise mlast is the
   * mass of a supernova draw `j` of the stream, between `i` and the stop.
   */
  lemma {:induction false} BurnPaysOff(draws: nat -> Result<Draw>, w: nat, i: nat, budget: real, nsn: nat, mlast: real)
    returns (j: nat)
    requires i <= w && Halts(draws, w)
    ensures budget <= 0.0 ==> Burn(draws, w, i, budget, nsn, mlast) == Ok(Enriched(nsn, mlast, budget))
    ensures var b := Burn(draws, w, i, budget, nsn, mlast);
      b.Ok? && b.value.Enriched? ==>
        && b.value.remaining <= 0.0
        && b.value.nsn >= nsn
        && (b.value.nsn == nsn ==> b.value.mlast == mlast && b.value.remaining == budget)
        && (b.value.nsn > nsn ==> i <= j < w && draws(j).Ok? && draws(j).value.Supernova? && draws(j).value.mass == b.value.mlast)
    decreases w - i
  {
    j := i;
    if budget > 0.0 {
      match draws(i)
      case Err(_) =>
      case Ok(Light) =>
      case Ok(Dud) =>
        j := BurnPaysOff(draws, w, i + 1, budget, nsn, mlast);
      case Ok(Supernova(m, y)) =>
        j := BurnPaysOff(draws, w, i + 1, budget - y, nsn + 1, m);
        if Burn(draws, w, i + 1, budget - y, nsn + 1, m).Ok? && Burn(draws, w, i + 1, budget - y, nsn + 1, m).value.Enriched? &&
           Burn(draws, w, i + 1, budget - y, nsn + 1, m).value.nsn == nsn + 1 {
          j := i;
        }
    }
  }

  /** How many of the first `d` draws are supernovae, the iron they eject, and the last of them. */
  datatype Tally = Tally(exploded: nat, iron: real, last: real)

  /**
   * The first `d` draws counted one by one, starting from no supernova, no iron and `top` as
   * the last mass: each supernova adds one, adds its ejecta and becomes the last; the other
   * draws change nothing.
   */
  function TallyOf(draws: nat -> Result<Draw>, top: real, d: nat): Result<Tally>
  {
    if d == 0 then Ok(Tally(0, 0.0, top))
    else
      match TallyOf(draws, top, d - 1)
      case Err(e) => Err(e)
      case Ok(t) =>
        match draws(d - 1)
        case Err(e) => Err(e)
        case Ok(Supernova(m, y)) => Ok(Tally(t.exploded + 1, t.iron + y, m))
        case Ok(_) => Ok(t)
  }

  lemma {:induction false} BurnFollowsTally(draws: nat -> Result<Draw>, top: real, w: nat, i: nat, produced: real, t: Tally)
    returns (d: nat)
    requires i <= w && Halts(draws, w)
    requires TallyOf(draws, top, i) == Ok(t)
    ensures var b := Burn(draws, w, i, produced - t.iron, t.exploded, t.last);
      b.Ok? && b.value.Enriched? ==>
        && i <= d <= w
        && TallyOf(draws, top, d) == Ok(Tally(b.value.nsn, produced - b.value.remaining, b.value.mlast))
        && forall j :: i <= j < d ==> draws(j).Ok? && !draws(j).value.Light?
    decreases w - i
  {
    d := i;
    var budget := produced - t.iron;
    if budget > 0.0 {
      match draws(i)
      case Err(_) =>
      case Ok(Light) =>
      case Ok(Dud) =>
        assert TallyOf(draws, top, i + 1) == Ok(t);
        d := BurnFollowsTally(draws, top, w, i + 1, produced, t);
      case Ok(Supernova(m, y)) =>
        var t' := Tally(t.exploded + 1, t.iron + y, m);
        assert TallyOf(draws, top, i + 1) == Ok(t');
        assert produced - t'.iron == budget - y;
        d := BurnFollowsTally(draws, top, w, i + 1, produced, t');
    }
  }

  /**
   * NSN is the number of supernovae among the first d draws, none of which was too light; the
   * iron they eject is what the loop took off the budget, and mlast is the last of them (the
   * top bound when none exploded).
   */
  lemma BurnIsTally(draws: nat -> Result<Draw>, top: real, w: nat, produced: real) returns (d: nat)
    requires Halts(draws, w)
    ensures var b := Burn(draws, w, 0, produced, 0, top);
      b.Ok? && b.value.Enriched? ==>
        && d <= w
        && TallyOf(draws, top, d) == Ok(Tally(b.value.nsn, produced - b.value.remaining, b.value.mlast))
        && forall j :: 0 <= j < d ==> draws(j).Ok? && !draws(j).value.Light?
  {
    assert produced - 0.0 == produced;
    d := BurnFollowsTally(draws, top, w, 0, produced, Tally(0, 0.0, top));
  }

  /**
   * When every draw up to the stop is a supernova with the same yield y > 0 and the stars
   * suffice, the loop counts the least number of supernovae whose yields cover the budget:
   * ceil(budget / y) more supernovae.
   */
  lemma {:induction false} BurnConstantYield(draws: nat -> Result<Draw>, w: nat, i: nat, budget: real, nsn: nat, mlast: real, y: real)
    requires i <= w && Halts(draws, w)
    requires y > 0.0
    requires forall j :: i <= j < w ==> draws(j).Ok? && draws(j).value.Supernova? && draws(j).value.ejected == y
    requires budget <= (w - i) as real * y
    ensures var b := Burn(draws, w, i, budget, nsn, mlast);
      && b.Ok? && b.value.Enriched? && b.value.nsn >= nsn
      && var c := b.value.nsn - nsn;
      && c as real * y >= budget
      && (c == 0 || (c - 1) as real * y < budget)
    decreases w - i
  {
    if budget > 0.0 {
      assert i < w;
      var m := draws(i).value.mass;
      assert (w - i) as real * y == (w - (i + 1)) as real * y + y;
      BurnConstantYield(draws, w, i + 1, budget - y, nsn + 1, m, y);
      var c' := Burn(draws, w, i + 1, budget - y, nsn + 1, m).value.nsn - (nsn + 1);
      assert (c' + 1) as real * y == c' as real * y + y;
      if c' > 0 {
        assert c' as real * y == (c' - 1) as real * y + y;
      }
    }
  }

  // ---------------------------------------------------------------------------------------
  // The three steps
  // ---------------------------------------------------------------------------------------

  /** Every cell of `col` is a number. */
  predicate AllNumbers(col: seq<Cell>) {
    forall i :: 0 <= i < |col| ==> col[i].Num?
  }

  /**
   * Row `k` of `ComputeIMF`: the solver's mass function for the row's metallicity
   * [Z/H] = [Fe/H] + 0.3, present-day mass, age and orbit, and that function's total mass.
   */
  ghost predicate IMFRow(solve: (real, real, real, real, real) -> MassFunction,
                         fehs: seq<Cell>, masses: seq<Cell>, ages: seq<Cell>, rapos: seq<Cell>, rperis: seq<Cell>,
                         k: int, imfs: seq<Cell>, minis: seq<Cell>)
  {
    && 0 <= k < |masses| && k < |fehs| && k < |ages| && k < |rapos| && k < |rperis| && k < |imfs| && k < |minis|
    && fehs[k].Num? && masses[k].Num? && ages[k].Num? && rapos[k].Num? && rperis[k].Num?
    && var mf := solve(fehs[k].x + 0.3, masses[k].x, ages[k].x, rapos[k].x, rperis[k].x);
    && imfs[k] == Imf(mf)
    && minis[k] == Num(mf.mtot)
  }

  /**
   * What a successful `ComputeIMF` leaves: the input columns were there, and the table gained
   * the columns `IMF` and `Mini`, one row per cluster as `IMFRow` says, and nothing else.
   */
  ghost predicate IMFStep(g0: map<string, seq<Cell>>, g1: map<string, seq<Cell>>,
                          solve: (real, real, real, real, real) -> MassFunction) {
    && "Fe-H" in g0 && "Mass" in g0 && "Age" in g0 && "R_a" in g0 && "R_p" in g0
    && "IMF" in g1 && "Mini" in g1
    && |g1["IMF"]| == |g0["Mass"]| && |g1["Mini"]| == |g0["Mass"]|
    && g1 == g0["IMF" := g1["IMF"]]["Mini" := g1["Mini"]]
    && forall k :: 0 <= k < |g0["Mass"]| ==>
         IMFRow(solve, g0["Fe-H"], g0["Mass"], g0["Age"], g0["R_a"], g0["R_p"], k, g1["IMF"], g1["Mini"])
  }

  /** Row `k` of the `Mass` column has its age and orbit, and all four are numbers. */
  predicate IMFRowReady(fehs: seq<Cell>, masses: seq<Cell>, ages: seq<Cell>, rapos: seq<Cell>, rperis: seq<Cell>, k: int)
    requires 0 <= k < |masses|
  {
    && k < |fehs| && k < |ages| && k < |rapos| && k < |rperis|
    && masses[k].Num? && ages[k].Num? && rapos[k].Num? && rperis[k].Num?
  }

  /**
   * The tables on which `ComputeIMF` raises nothing: the five input columns exist, every
   * [Fe/H] is a number, every row of `Mass` is ready, and `Mass` has one row per cluster (so
   * that both new columns are accepted).
   */
  predicate IMFInputs(g: map<string, seq<Cell>>) {
    && "Name" in g && "Fe-H" in g && "Mass" in g && "Age" in g && "R_a" in g && "R_p" in g
    && AllNumbers(g["Fe-H"])
    && (forall k :: 0 <= k < |g["Mass"]| ==> IMFRowReady(g["Fe-H"], g["Mass"], g["Age"], g["R_a"], g["R_p"], k))
    && |g["Mass"]| == |g["Name"]|
  }

  /** The solver's mass function for row `k` of ready inputs. */
  function RowIMF(g: map<string, seq<Cell>>, solve: (real, real, real, real, real) -> MassFunction, k: int): MassFunction
    requires IMFInputs(g) && 0 <= k < |g["Mass"]|
  {
    var fehs, masses, ages, rapos, rperis := g["Fe-H"], g["Mass"], g["Age"], g["R_a"], g["R_p"];
    assert IMFRowReady(fehs, masses, ages, rapos, rperis, k);
    assert fehs[k].Num?;
    solve(fehs[k].x + 0.3, masses[k].x, ages[k].x, rapos[k].x, rperis[k].x)
  }

  /** The table `ComputeIMF` leaves on such inputs. */
  function AfterIMF(g: map<string, seq<Cell>>, solve: (real, real, real, real, real) -> MassFunction): map<string, seq<Cell>>
    requires IMFInputs(g)
  {
    var n := |g["Mass"]|;
    g["IMF" := seq(n, k requires 0 <= k < n => Imf(RowIMF(g, solve, k)))]
     ["Mini" := seq(n, k requires 0 <= k < n => Num(RowIMF(g, solve, k).mtot))]
  }

  /** `IMFStep` leaves no choice: on ready inputs, the table it describes is `AfterIMF`. */
  lemma IMFStepDetermines(g0: map<string, seq<Cell>>, g1: map<string, seq<Cell>>, solve: (real, real, real, real, real) -> MassFunction)
    requires IMFInputs(g0) && IMFStep(g0, g1, solve)
    ensures g1 == AfterIMF(g0, solve)
  {
    var after := AfterIMF(g0, solve);
    forall k | 0 <= k < |g0["Mass"]|
      ensures g1["IMF"][k] == after["IMF"][k] && g1["Mini"][k] == after["Mini"][k]
    {
      assert IMFRow(solve, g0["Fe-H"], g0["Mass"], g0["Age"], g0["R_a"], g0["R_p"], k, g1["IMF"], g1["Mini"]);
    }
    assert g1["IMF"] == after["IMF"];
    assert g1["Mini"] == after["Mini"];
  }

  /**
   * `ComputeIMF`: one mass function per cluster from the solver, stored as the column `IMF`,
   * and its total mass as the column `Mini`. The solver (cIMFGenerator over a cRemnantCalculator
   * for the row's metallicity) is the function `solve`. It raises exactly when the inputs are
   * not ready.
   */
  method ComputeIMF(data: Data.ClusterData, solve: (real, real, real, real, real) -> MassFunction) returns (o: Outcome)
    requires data.Valid()
    modifies data
    ensures data.Valid()
    ensures o.Pass? <==> IMFInputs(old(data.gc))
    ensures o.Fail? ==> data.gc == old(data.gc)
    ensures o.Pass? ==> IMFStep(old(data.gc), data.gc, solve)
  {
    var fehCol := data.AccessGCData("Fe-H");
    if fehCol.Err? { return Fail(fehCol.error); }
    if !AllNumbers(fehCol.value) { return Fail(TypeError); }
    var massCol := data.AccessGCData("Mass");
    if massCol.Err? { return Fail(massCol.error); }
    var ageCol := data.AccessGCData("Age");
    if ageCol.Err? { return Fail(ageCol.error); }
    var rapoCol := data.AccessGCData("R_a");
    if rapoCol.Err? { return Fail(rapoCol.error); }
    var rperiCol := data.AccessGCData("R_p");
    if rperiCol.Err? { return Fail(rperiCol.error); }
    var fehs, masses, ages, rapos, rperis := fehCol.value, massCol.value, ageCol.value, rapoCol.value, rperiCol.value;
    var imfs, minis := [], [];
    for k := 0 to |masses|
      invariant data.gc == old(data.gc)
      invariant |imfs| == k && |minis| == k
      invariant forall j :: 0 <= j < k ==> IMFRow(solve, fehs, masses, ages, rapos, rperis, j, imfs, minis)
      invariant forall j :: 0 <= j < k ==> IMFRowReady(fehs, masses, ages, rapos, rperis, j)
    {
      if k >= |fehs| || k >= |ages| || k >= |rapos| || k >= |rperis| {
        assert !IMFRowReady(fehs, masses, ages, rapos, rperis, k);
        return Fail(IndexError);
      }
      if !masses[k].Num? || !ages[k].Num? || !rapos[k].Num? || !rperis[k].Num? {
        assert !IMFRowReady(fehs, masses, ages, rapos, rperis, k);
        return Fail(TypeError);
      }
      var mf := solve(fehs[k].x + 0.3, masses[k].x, ages[k].x, rapos[k].x, rperis[k].x);
      forall j | 0 <= j < k
        ensures IMFRow(solve, fehs, masses, ages, rapos, rperis, j, imfs + [Imf(mf)], minis + [Num(mf.mtot)])
      {
        assert IMFRow(solve, fehs, masses, ages, rapos, rperis, j, imfs, minis);
        assert (imfs + [Imf(mf)])[j] == imfs[j] && (minis + [Num(mf.mtot)])[j] == minis[j];
      }
      imfs, minis := imfs + [Imf(mf)], minis + [Num(mf.mtot)];
    }
    o := data.AddGCData("IMF", imfs);
    if o.Fail? { return; }
    // Both columns have one entry per row of `Mass`: once the first is accepted, so is the second.
    o := data.AddGCData("Mini", minis);
  }

  /**
   * The iron a cluster had to produce to explain its iron spread: solar iron abundance times
   * the difference of the two bracketing [Fe/H] values, times the initial mass and the gas
   * left over per unit of stars formed. SFE = 0 divides by zero.
   */
  function ProducedIron(el: Elementary, ironSun: real, feh: real, spread: real, mini: real, sfe: real): (r: Result<real>)
    ensures r.Err? <==> sfe == 0.0
    ensures spread == 0.0 ==> r.Ok? ==> r.value == 0.0
    ensures sfe == 1.0 ==> r == Ok(0.0)
  {
    if sfe == 0.0 then Err(ZeroDivisionError)
    else Ok(ironSun * (el.pow(10.0, feh + spread) - el.pow(10.0, feh - spread)) * mini * (1.0 / sfe - 1.0))
  }

  /** Row `k` of `ComputeIron`. */
  ghost predicate IronRow(el: Elementary, ironSun: real, minis: seq<Cell>, sfes: seq<Cell>, fehs: seq<Cell>,
                          spreads: seq<Cell>, k: int, irons: seq<Cell>)
  {
    && 0 <= k < |minis| && k < |sfes| && k < |fehs| && k < |spreads| && k < |irons|
    && minis[k].Num? && sfes[k].Num? && fehs[k].Num? && spreads[k].Num?
    && var r := ProducedIron(el, ironSun, fehs[k].x, spreads[k].x, minis[k].x, sfes[k].x);
    && r.Ok? && irons[k] == Num(r.value)
  }

  /** What a successful `ComputeIron` leaves: the column `ProducedIron`, one row per cluster as `IronRow` says, and nothing else. */
  ghost predicate IronStep(g1: map<string, seq<Cell>>, g2: map<string, seq<Cell>>, el: Elementary, ironSun: real) {
    && "Mini" in g1 && "SFE" in g1 && "Fe-H" in g1 && "FeSpread" in g1
    && "ProducedIron" in g2 && |g2["ProducedIron"]| == |g1["Mini"]|
    && g2 == g1["ProducedIron" := g2["ProducedIron"]]
    && forall k :: 0 <= k < |g1["Mini"]| ==>
         IronRow(el, ironSun, g1["Mini"], g1["SFE"], g1["Fe-H"], g1["FeSpread"], k, g2["ProducedIron"])
  }

  /** Row `k` of the `Mini` column has its SFE, [Fe/H] and spread, all numbers, and a non-zero SFE. */
  predicate IronRowReady(minis: seq<Cell>, sfes: seq<Cell>, fehs: seq<Cell>, spreads: seq<Cell>, k: int)
    requires 0 <= k < |minis|
  {
    && k < |sfes| && k < |fehs| && k < |spreads|
    && minis[k].Num? && sfes[k].Num? && fehs[k].Num? && spreads[k].Num?
    && sfes[k].x != 0.0
  }

  /**
   * The tables on which `ComputeIron` raises nothing: the four input columns exist, every row
   * of `Mini` is ready, and `Mini` has one row per cluster.
   */
  predicate IronInputs(g: map<string, seq<Cell>>) {
    && "Name" in g && "Mini" in g && "SFE" in g && "Fe-H" in g && "FeSpread" in g
    && (forall k :: 0 <= k < |g["Mini"]| ==> IronRowReady(g["Mini"], g["SFE"], g["Fe-H"], g["FeSpread"], k))
    && |g["Mini"]| == |g["Name"]|
  }

  /** The table `ComputeIron` leaves on such inputs. */
  function AfterIron(g: map<string, seq<Cell>>, el: Elementary, ironSun: real): map<string, seq<Cell>>
    requires IronInputs(g)
  {
    var minis, sfes, fehs, spreads := g["Mini"], g["SFE"], g["Fe-H"], g["FeSpread"];
    g["ProducedIron" := seq(|minis|, k requires 0 <= k < |minis| =>
      assert IronRowReady(minis, sfes, fehs, spreads, k);
      Num(ProducedIron(el, ironSun, fehs[k].x, spreads[k].x, minis[k].x, sfes[k].x).value))]
  }

  /** `IronStep` leaves no choice: on ready inputs, the table it describes is `AfterIron`. */
  lemma IronStepDetermines(g1: map<string, seq<Cell>>, g2: map<string, seq<Cell>>, el: Elementary, ironSun: real)
    requires IronInputs(g1) && IronStep(g1, g2, el, ironSun)
    ensures g2 == AfterIron(g1, el, ironSun)
  {
    var after := AfterIron(g1, el, ironSun);
    forall k | 0 <= k < |g1["Mini"]|
      ensures g2["ProducedIron"][k] == after["ProducedIron"][k]
    {
      assert IronRow(el, ironSun, g1["Mini"], g1["SFE"], g1["Fe-H"], g1["FeSpread"], k, g2["ProducedIron"]);
    }
    assert g2["ProducedIron"] == after["ProducedIron"];
  }

  /**
   * `ComputeIron`: the column `ProducedIron` from `Mini`, `SFE`, `Fe-H` and `FeSpread`. The
   * value of the solar iron abundance is not given in the source and is the parameter `ironSun`.
   * It raises exactly when the inputs are not ready.
   */
  method ComputeIron(data: Data.ClusterData, el: Elementary, ironSun: real) returns (o: Outcome)
    requires data.Valid()
    modifies data
    ensures data.Valid()
    ensures o.Pass? <==> IronInputs(old(data.gc))
    ensures o.Fail? ==> data.gc == old(data.gc)
    ensures o.Pass? ==> IronStep(old(data.gc), data.gc, el, ironSun)
  {
    var miniCol := data.AccessGCData("Mini");
    if miniCol.Err? { return Fail(miniCol.error); }
    var sfeCol := data.AccessGCData("SFE");
    if sfeCol.Err? { return Fail(sfeCol.error); }
    var fehCol := data.AccessGCData("Fe-H");
    if fehCol.Err? { return Fail(fehCol.error); }
    var spreadCol := data.AccessGCData("FeSpread");
    if spreadCol.Err? { return Fail(spreadCol.error); }
    var minis, sfes, fehs, spreads := miniCol.value, sfeCol.value, fehCol.value, spreadCol.value;
    var irons := [];
    for k := 0 to |minis|
      invariant data.gc == old(data.gc)
      invariant |irons| == k
      invariant forall j :: 0 <= j < k ==> IronRow(el, ironSun, minis, sfes, fehs, spreads, j, irons)
      invariant forall j :: 0 <= j < k ==> IronRowReady(minis, sfes, fehs, spreads, j)
    {
      if k >= |sfes| || k >= |fehs| || k >= |spreads| {
        assert !IronRowReady(minis, sfes, fehs, spreads, k);
        return Fail(IndexError);
      }
      if !minis[k].Num? || !sfes[k].Num? || !fehs[k].Num? || !spreads[k].Num? {
        assert !IronRowReady(minis, sfes, fehs, spreads, k);
        return Fail(TypeError);
      }
      var r := ProducedIron(el, ironSun, fehs[k].x, spreads[k].x, minis[k].x, sfes[k].x);
      if r.Err? {
        assert !IronRowReady(minis, sfes, fehs, spreads, k);
        return Fail(r.error);
      }
      forall j | 0 <= j < k
        ensures IronRow(el, ironSun, minis, sfes, fehs, spreads, j, irons + [Num(r.value)])
      {
        assert IronRow(el, ironSun, minis, sfes, fehs, spreads, j, irons);
        assert (irons + [Num(r.value)])[j] == irons[j];
      }
      irons := irons + [Num(r.value)];
    }
    o := data.AddGCData("ProducedIron", irons);
  }

  /** NSN, mlast and SFD of one cluster; NaN in all three when the search reached a light star. */
  function SNeCells(e: Enrichment, zh: real, timeFromMass: (real, real) -> real): (cells: (Cell, Cell, Cell))
    ensures cells.2 == NaN <==> cells.1 == NaN
    ensures cells.1 == NaN <==> cells.0 == NaN
    ensures cells.1 == NaN <==> e.TooLight?
  {
    match e
    case TooLight => (NaN, NaN, NaN)
    case Enriched(n, ml, _) => (Num(n as real), Num(ml), Num(timeFromMass(zh, ml)))
  }

  /** Every mass function in the column `IMF` is well-formed and its star stream stops. */
  ghost predicate IMFsReady(gc: map<string, seq<Cell>>, el: Elementary) {
    "IMF" in gc ==> forall c :: c in gc["IMF"] && c.Imf? ==>
      WellFormed(c.mf) && exists w :: StopsBy(c.mf, el, w)
  }

  /** Every mass function the solver returns is well-formed and its star stream stops. */
  ghost predicate SolverReady(solve: (real, real, real, real, real) -> MassFunction, el: Elementary) {
    forall zh, m, age, ra, rp :: WellFormed(solve(zh, m, age, ra, rp)) &&
      exists w :: StopsBy(solve(zh, m, age, ra, rp), el, w)
  }

  /** A column written by `ComputeIMF` holds only mass functions the solver returned. */
  lemma IMFsReadyFromRows(gc: map<string, seq<Cell>>, el: Elementary, solve: (real, real, real, real, real) -> MassFunction)
    requires SolverReady(solve, el)
    requires "IMF" in gc && "Mass" in gc && "Fe-H" in gc && "Age" in gc && "R_a" in gc && "R_p" in gc && "Mini" in gc
    requires |gc["IMF"]| == |gc["Mass"]|
    requires forall k :: 0 <= k < |gc["Mass"]| ==>
      IMFRow(solve, gc["Fe-H"], gc["Mass"], gc["Age"], gc["R_a"], gc["R_p"], k, gc["IMF"], gc["Mini"])
    ensures IMFsReady(gc, el)
  {
    forall c | c in gc["IMF"] && c.Imf?
      ensures WellFormed(c.mf) && exists w :: StopsBy(c.mf, el, w)
    {
      var k :| 0 <= k < |gc["IMF"]| && gc["IMF"][k] == c;
      assert IMFRow(solve, gc["Fe-H"], gc["Mass"], gc["Age"], gc["R_a"], gc["R_p"], k, gc["IMF"], gc["Mini"]);
    }
  }

  /** Row `k` of `ComputeSNe`. */
  ghost predicate SNeRow(sn: SNTable, ej: EjectaTable, el: Elementary, timeFromMass: (real, real) -> real,
                         imfs: seq<Cell>, irons: seq<Cell>, fehs: seq<Cell>,
                         k: int, nsns: seq<Cell>, mlasts: seq<Cell>, sfds: seq<Cell>)
    requires SNWellFormed(sn) && EjectaWellFormed(ej)
  {
    && 0 <= k < |imfs| && k < |irons| && k < |fehs| && k < |nsns| && k < |mlasts| && k < |sfds|
    && imfs[k].Imf? && WellFormed(imfs[k].mf) && (exists w :: StopsBy(imfs[k].mf, el, w))
    && irons[k].Num? && fehs[k].Num?
    && var e := Enrich(sn, ej, imfs[k].mf, el, irons[k].x);
    && e.Ok?
    && (nsns[k], mlasts[k], sfds[k]) == SNeCells(e.value, fehs[k].x + 0.3, timeFromMass)
  }

  lemma SNeRowExtend(sn: SNTable, ej: EjectaTable, el: Elementary, timeFromMass: (real, real) -> real,
                     imfs: seq<Cell>, irons: seq<Cell>, fehs: seq<Cell>, k: int,
                     nsns: seq<Cell>, mlasts: seq<Cell>, sfds: seq<Cell>, cells: (Cell, Cell, Cell))
    requires SNWellFormed(sn) && EjectaWellFormed(ej)
    requires SNeRow(sn, ej, el, timeFromMass, imfs, irons, fehs, k, nsns, mlasts, sfds)
    ensures SNeRow(sn, ej, el, timeFromMass, imfs, irons, fehs, k, nsns + [cells.0], mlasts + [cells.1], sfds + [cells.2])
  {
    assert (nsns + [cells.0])[k] == nsns[k];
    assert (mlasts + [cells.1])[k] == mlasts[k];
    assert (sfds + [cells.2])[k] == sfds[k];
  }

  /**
   * The rows before `k` stay `SNeRow`s when a ready row's cells are appended as row `k`, and
   * that row becomes one.
   */
  lemma SNeRowsAppend(sn: SNTable, ej: EjectaTable, el: Elementary, timeFromMass: (real, real) -> real,
                      imfs: seq<Cell>, irons: seq<Cell>, fehs: seq<Cell>, k: int,
                      nsns: seq<Cell>, mlasts: seq<Cell>, sfds: seq<Cell>, cells: (Cell, Cell, Cell))
    requires SNWellFormed(sn) && EjectaWellFormed(ej) && 0 <= k < |imfs|
    requires |nsns| == k && |mlasts| == k && |sfds| == k
    requires forall j :: 0 <= j < k ==> SNeRow(sn, ej, el, timeFromMass, imfs, irons, fehs, j, nsns, mlasts, sfds)
    requires SNeRowReady(sn, ej, el, imfs, irons, fehs, k) && fehs[k].Num?
    requires cells == SNeCells(Enrich(sn, ej, imfs[k].mf, el, irons[k].x).value, fehs[k].x + 0.3, timeFromMass)
    ensures forall j :: 0 <= j <= k ==>
      SNeRow(sn, ej, el, timeFromMass, imfs, irons, fehs, j, nsns + [cells.0], mlasts + [cells.1], sfds + [cells.2])
  {
    forall j | 0 <= j < k
      ensures SNeRow(sn, ej, el, timeFromMass, imfs, irons, fehs, j, nsns + [cells.0], mlasts + [cells.1], sfds + [cells.2])
    {
      SNeRowExtend(sn, ej, el, timeFromMass, imfs, irons, fehs, j, nsns, mlasts, sfds, cells);
    }
  }

  /**
   * What a successful `ComputeSNe` leaves: the columns `NSN`, `mlast` and `SFD`, one row per
   * mass function as `SNeRow` says, and nothing else.
   */
  ghost predicate SNeStep(g2: map<string, seq<Cell>>, g3: map<string, seq<Cell>>, sn: SNTable, ej: EjectaTable,
                          el: Elementary, timeFromMass: (real, real) -> real)
    requires SNWellFormed(sn) && EjectaWellFormed(ej)
  {
    && "IMF" in g2 && "ProducedIron" in g2 && "Fe-H" in g2
    && "NSN" in g3 && "mlast" in g3 && "SFD" in g3
    && |g3["NSN"]| == |g2["IMF"]| && |g3["mlast"]| == |g2["IMF"]| && |g3["SFD"]| == |g2["IMF"]|
    && g3 == g2["NSN" := g3["NSN"]]["mlast" := g3["mlast"]]["SFD" := g3["SFD"]]
    && forall k :: 0 <= k < |g2["IMF"]| ==>
         SNeRow(sn, ej, el, timeFromMass, g2["IMF"], g2["ProducedIron"], g2["Fe-H"], k, g3["NSN"], g3["mlast"], g3["SFD"])
  }

  /**
   * Row `k` of the `IMF` column is a mass function whose stream stops, with its produced iron
   * and [Fe/H], and its enrichment loop raises nothing.
   */
  ghost predicate SNeRowReady(sn: SNTable, ej: EjectaTable, el: Elementary, imfs: seq<Cell>, irons: seq<Cell>,
                              fehs: seq<Cell>, k: int)
    requires SNWellFormed(sn) && EjectaWellFormed(ej) && 0 <= k < |imfs|
  {
    && k < |irons| && k < |fehs|
    && imfs[k].Imf? && irons[k].Num?
    && WellFormed(imfs[k].mf) && (exists w :: StopsBy(imfs[k].mf, el, w))
    && Enrich(sn, ej, imfs[k].mf, el, irons[k].x).Ok?
  }

  /**
   * The tables on which `ComputeSNe` raises nothing: the three input columns exist, every
   * [Fe/H] is a number, every row of `IMF` is ready, and `IMF` has one row per cluster.
   */
  ghost predicate SNeInputs(g: map<string, seq<Cell>>, sn: SNTable, ej: EjectaTable, el: Elementary)
    requires SNWellFormed(sn) && EjectaWellFormed(ej)
  {
    && "Name" in g && "IMF" in g && "ProducedIron" in g && "Fe-H" in g
    && AllNumbers(g["Fe-H"])
    && (forall k :: 0 <= k < |g["IMF"]| ==> SNeRowReady(sn, ej, el, g["IMF"], g["ProducedIron"], g["Fe-H"], k))
    && |g["IMF"]| == |g["Name"]|
  }

  /**
   * The body of the loop of `ComputeSNe` for row `k`: the row's produced iron and mass
   * function, the enrichment loop on them and the three cells it yields; it raises exactly when
   * the row is not ready.
   */
  method EnrichRow(sn: SNTable, ej: EjectaTable, el: Elementary, timeFromMass: (real, real) -> real,
                   imfs: seq<Cell>, irons: seq<Cell>, fehs: seq<Cell>, k: int)
    returns (r: Result<(Cell, Cell, Cell)>)
    requires SNWellFormed(sn) && EjectaWellFormed(ej) && 0 <= k < |imfs| && AllNumbers(fehs)
    requires imfs[k].Imf? ==> WellFormed(imfs[k].mf) && exists w :: StopsBy(imfs[k].mf, el, w)
    ensures r.Ok? <==> SNeRowReady(sn, ej, el, imfs, irons, fehs, k)
    ensures k >= |irons| || k >= |fehs| ==> r == Err(IndexError)
    ensures k < |irons| && k < |fehs| && !imfs[k].Imf? ==> r == Err(AttributeError)
    ensures k < |irons| && k < |fehs| && imfs[k].Imf? && !irons[k].Num? ==> r == Err(TypeError)
    ensures r.Ok? ==> fehs[k].Num?
    ensures r.Ok? ==> r.value == SNeCells(Enrich(sn, ej, imfs[k].mf, el, irons[k].x).value, fehs[k].x + 0.3, timeFromMass)
  {
    if k >= |irons| || k >= |fehs| {
      return Err(IndexError);
    }
    if !imfs[k].Imf? {
      return Err(AttributeError);
    }
    if !irons[k].Num? {
      return Err(TypeError);
    }
    var mf := imfs[k].mf;
    ghost var w :| StopsBy(mf, el, w);
    StopsByHalts(sn, ej, mf, el, w);
    DrawsIsDrawStream(sn, ej, mf, el);
    var e := CountSupernovae(sn, ej, mf, el, irons[k].x, Draws(sn, ej, mf, el), w);
    EnrichIsBurn(sn, ej, mf, el, irons[k].x, w);
    if e.Err? {
      return Err(e.error);
    }
    r := Ok(SNeCells(e.value, fehs[k].x + 0.3, timeFromMass));
  }

  /**
   * The loop of `ComputeSNe` over the mass functions: one `EnrichRow` per row, collected into
   * the three new columns; the first row that raises ends it, and it raises exactly when some
   * row is not ready.
   */
  method EnrichRows(sn: SNTable, ej: EjectaTable, el: Elementary, timeFromMass: (real, real) -> real,
                    imfs: seq<Cell>, irons: seq<Cell>, fehs: seq<Cell>)
    returns (r: Result<(seq<Cell>, seq<Cell>, seq<Cell>)>)
    requires SNWellFormed(sn) && EjectaWellFormed(ej) && AllNumbers(fehs)
    requires forall c :: c in imfs && c.Imf? ==> WellFormed(c.mf) && exists w :: StopsBy(c.mf, el, w)
    ensures r.Ok? <==> forall k :: 0 <= k < |imfs| ==> SNeRowReady(sn, ej, el, imfs, irons, fehs, k)
    ensures r.Ok? ==> |r.value.0| == |imfs| && |r.value.1| == |imfs| && |r.value.2| == |imfs|
    ensures r.Ok? ==> forall k :: 0 <= k < |imfs| ==>
      SNeRow(sn, ej, el, timeFromMass, imfs, irons, fehs, k, r.value.0, r.value.1, r.value.2)
  {
    var nsns, mlasts, sfds := [], [], [];
    for k := 0 to |imfs|
      invariant |nsns| == k && |mlasts| == k && |sfds| == k
      invariant forall j :: 0 <= j < k ==> SNeRow(sn, ej, el, timeFromMass, imfs, irons, fehs, j, nsns, mlasts, sfds)
      invariant forall j :: 0 <= j < k ==> SNeRowReady(sn, ej, el, imfs, irons, fehs, j)
    {
      assert imfs[k] in imfs;
      var row := EnrichRow(sn, ej, el, timeFromMass, imfs, irons, fehs, k);
      if row.Err? {
        return Err(row.error);
      }
      var cells := row.value;
      SNeRowsAppend(sn, ej, el, timeFromMass, imfs, irons, fehs, k, nsns, mlasts, sfds, cells);
      nsns, mlasts, sfds := nsns + [cells.0], mlasts + [cells.1], sfds + [cells.2];
    }
    r := Ok((nsns, mlasts, sfds));
  }

  /**
   * `ComputeSNe`: per cluster, the enrichment loop over its mass function and produced iron,
   * then the columns `NSN`, `mlast` and `SFD` with one entry per mass function; SFD is the
   * star formation duration `timeFromMass([Z/H], mlast)`, NaN exactly when mlast is NaN. It
   * raises exactly when the inputs are not ready.
   */
  method ComputeSNe(data: Data.ClusterData, el: Elementary, timeFromMass: (real, real) -> real) returns (o: Outcome)
    requires data.Valid() && IMFsReady(data.gc, el)
    modifies data
    ensures data.Valid()
    ensures o.Fail? ==> data.gc == old(data.gc)
    ensures o.Pass? <==> SNeInputs(old(data.gc), data.sn, data.ejecta, el)
    ensures "IMF" !in old(data.gc) ==> o == Fail(KeyError("IMF"))
    ensures o.Pass? ==> SNeStep(old(data.gc), data.gc, data.sn, data.ejecta, el, timeFromMass)
  {
    var imfCol := data.AccessGCData("IMF");
    if imfCol.Err? { return Fail(imfCol.error); }
    var ironCol := data.AccessGCData("ProducedIron");
    if ironCol.Err? { return Fail(ironCol.error); }
    var fehCol := data.AccessGCData("Fe-H");
    if fehCol.Err? { return Fail(fehCol.error); }
    var imfs, irons, fehs := imfCol.value, ironCol.value, fehCol.value;
    if !AllNumbers(fehs) { return Fail(TypeError); }
    assert forall c :: c in imfs && c.Imf? ==> WellFormed(c.mf) && exists w :: StopsBy(c.mf, el, w);
    var rows := EnrichRows(data.sn, data.ejecta, el, timeFromMass, imfs, irons, fehs);
    if rows.Err? { return Fail(rows.error); }
    var (nsns, mlasts, sfds) := rows.value;
    o := data.AddGCData("NSN", nsns);
    if o.Fail? { return; }
    // The three columns have one entry per mass function: once the first is accepted, so are the others.
    o := data.AddGCData("mlast", mlasts);
    o := data.AddGCData("SFD", sfds);
  }

  /**
   * A fully processed table: the input columns and the six columns the three steps write are
   * all there, and every cluster row satisfies `IMFRow`, `IronRow` and `SNeRow` on them.
   */
  ghost predicate Processed(g: map<string, seq<Cell>>, solve: (real, real, real, real, real) -> MassFunction,
                            el: Elementary, ironSun: real, sn: SNTable, ej: EjectaTable, timeFromMass: (real, real) -> real)
    requires SNWellFormed(sn) && EjectaWellFormed(ej)
  {
    && "Mass" in g && "Fe-H" in g && "Age" in g && "R_a" in g && "R_p" in g && "SFE" in g && "FeSpread" in g
    && "IMF" in g && "Mini" in g && "ProducedIron" in g && "NSN" in g && "mlast" in g && "SFD" in g
    && forall k :: 0 <= k < |g["Mass"]| ==>
         && IMFRow(solve, g["Fe-H"], g["Mass"], g["Age"], g["R_a"], g["R_p"], k, g["IMF"], g["Mini"])
         && IronRow(el, ironSun, g["Mini"], g["SFE"], g["Fe-H"], g["FeSpread"], k, g["ProducedIron"])
         && SNeRow(sn, ej, el, timeFromMass, g["IMF"], g["ProducedIron"], g["Fe-H"], k, g["NSN"], g["mlast"], g["SFD"])
  }

  /** `ComputeIron` leaves the mass functions alone. */
  lemma IronKeepsIMFs(g1: map<string, seq<Cell>>, g2: map<string, seq<Cell>>, el: Elementary, ironSun: real)
    requires IronStep(g1, g2, el, ironSun) && IMFsReady(g1, el)
    ensures IMFsReady(g2, el)
  {
    assert "IMF" in g2 ==> "IMF" in g1 && g2["IMF"] == g1["IMF"];
  }

  /** The three steps one after the other leave a fully processed table. */
  lemma {:induction false} StepsCompose(g0: map<string, seq<Cell>>, g1: map<string, seq<Cell>>, g2: map<string, seq<Cell>>,
                                       g3: map<string, seq<Cell>>, solve: (real, real, real, real, real) -> MassFunction,
                                       el: Elementary, ironSun: real, sn: SNTable, ej: EjectaTable,
                                       timeFromMass: (real, real) -> real)
    requires SNWellFormed(sn) && EjectaWellFormed(ej)
    requires IMFStep(g0, g1, solve) && IronStep(g1, g2, el, ironSun) && SNeStep(g2, g3, sn, ej, el, timeFromMass)
    ensures Processed(g3, solve, el, ironSun, sn, ej, timeFromMass)
  {
    assert g2["IMF"] == g1["IMF"] && g2["Fe-H"] == g1["Fe-H"];
    assert g3["IMF"] == g1["IMF"] && g3["Mini"] == g1["Mini"] && g3["ProducedIron"] == g2["ProducedIron"];
    assert g3["SFE"] == g1["SFE"] && g3["FeSpread"] == g1["FeSpread"] && g3["Fe-H"] == g1["Fe-H"];
    assert g3["Fe-H"] == g0["Fe-H"] && g3["Mass"] == g0["Mass"] && g3["Age"] == g0["Age"];
    assert g3["R_a"] == g0["R_a"] && g3["R_p"] == g0["R_p"];
  }

  /**
   * The tables on which `ProcessData` raises nothing: each step's inputs are ready on the
   * table the step before it left.
   */
  ghost predicate ProcessReady(g: map<string, seq<Cell>>, solve: (real, real, real, real, real) -> MassFunction,
                               el: Elementary, ironSun: real, sn: SNTable, ej: EjectaTable)
    requires SNWellFormed(sn) && EjectaWellFormed(ej)
  {
    && IMFInputs(g)
    && IronInputs(AfterIMF(g, solve))
    && SNeInputs(AfterIron(AfterIMF(g, solve), el, ironSun), sn, ej, el)
  }

  /**
   * `ProcessData`: `ComputeIMF`, then `ComputeIron` on the `Mini` column it wrote, then
   * `ComputeSNe` on the `IMF` and `ProducedIron` columns written before; the first step that
   * raises ends the run and leaves the table as that step left it.
   */
  method ProcessData(data: Data.ClusterData, el: Elementary, solve: (real, real, real, real, real) -> MassFunction,
                     ironSun: real, timeFromMass: (real, real) -> real) returns (o: Outcome)
    requires data.Valid()
    requires SolverReady(solve, el)
    modifies data
    ensures data.Valid()
    ensures o.Pass? <==> ProcessReady(old(data.gc), solve, el, ironSun, data.sn, data.ejecta)
    ensures o.Pass? ==> Processed(data.gc, solve, el, ironSun, data.sn, data.ejecta, timeFromMass)
    ensures !IMFInputs(old(data.gc)) ==> data.gc == old(data.gc)
    ensures IMFInputs(old(data.gc)) && !IronInputs(AfterIMF(old(data.gc), solve)) ==>
      data.gc == AfterIMF(old(data.gc), solve)
    ensures IMFInputs(old(data.gc)) && IronInputs(AfterIMF(old(data.gc), solve)) &&
            !SNeInputs(AfterIron(AfterIMF(old(data.gc), solve), el, ironSun), data.sn, data.ejecta, el) ==>
      data.gc == AfterIron(AfterIMF(old(data.gc), solve), el, ironSun)
  {
    ghost var g0 := data.gc;
    o := ComputeIMF(data, solve);
    if o.Fail? { return; }
    ghost var g1 := data.gc;
    IMFStepDetermines(g0, g1, solve);
    IMFsReadyFromRows(g1, el, solve);
    o := ComputeIron(data, el, ironSun);
    if o.Fail? { return; }
    ghost var g2 := data.gc;
    IronStepDetermines(g1, g2, el, ironSun);
    IronKeepsIMFs(g1, g2, el, ironSun);
    o := ComputeSNe(data, el, timeFromMass);
    if o.Fail? { return; }
    StepsCompose(g0, g1, g2, data.gc, solve, el, ironSun, data.sn, data.ejecta, timeFromMass);
  }
}
