/** What the per-file loop guarantees across files: the masters stay registries
    and only grow, a failing call undoes nothing, reprocessing a file changes
    nothing, and the fact tables collected are exactly those of the files that
    succeeded. */
module Runs {
  import opened Frames
  import opened Registry
  import opened Pipeline
  import Extract

  predicate DistinctDims(dims: seq<Dim>) {
    forall i, j :: 0 <= i < j < |dims| ==> dims[i] != dims[j]
  }

  lemma GrowsRefl(ms: Masters)
    ensures Grows(ms, ms)
  {
    forall d ensures ms.Get(d)[..|ms.Get(d)|] == ms.Get(d) {
      assert ms.Get(d)[..|ms.Get(d)|] == ms.Get(d);
    }
  }

  lemma GrowsTrans(a: Masters, b: Masters, c: Masters)
    requires Grows(a, b) && Grows(b, c)
    ensures Grows(a, c)
  {
    forall d ensures |a.Get(d)| <= |c.Get(d)| && c.Get(d)[..|a.Get(d)|] == a.Get(d) {
      assert c.Get(d)[..|a.Get(d)|] == c.Get(d)[..|b.Get(d)|][..|a.Get(d)|];
    }
  }

  lemma WithSame(ms: Masters, d: Dim)
    ensures ms.With(d, ms.Get(d)) == ms
  {
    match d
    case DateDim =>
    case AirportDim =>
    case AirlineDim =>
    case RouteDim =>
    case FlightTypeDim =>
  }

  lemma EmptyHealthy()
    ensures Healthy(EMPTY)
  {
    forall d ensures IsRegistry(EMPTY.Get(d), |KeyColumns(d)|) {
      assert EMPTY.Get(d) == [];
    }
  }

  /** A dimension that is not among the steps keeps its master. */
  lemma {:induction false} ResolveDimsOthers(f: Frame, ms: Masters, dims: seq<Dim>, d: Dim)
    requires d !in dims
    ensures ResolveDims(f, ms, dims).masters.Get(d) == ms.Get(d)
    decreases |dims|
  {
    if dims != [] {
      ResolveDimsStep(f, ms, dims);
      var r := ResolveStep(f, ms, dims[0]);
      if r.frame.Ok? {
        assert r.masters.Get(d) == ms.Get(d);
        ResolveDimsOthers(r.frame.value, r.masters, dims[1..], d);
      }
    }
  }

  /** The calls of one file keep every master a registry and only ever append to it. */
  lemma {:induction false} ResolveDimsHealthy(f: Frame, ms: Masters, dims: seq<Dim>)
    requires Healthy(ms)
    ensures var r := ResolveDims(f, ms, dims);
      Healthy(r.masters) && Grows(ms, r.masters)
    decreases |dims|
  {
    if dims == [] {
      GrowsRefl(ms);
    } else {
      ResolveDimsStep(f, ms, dims);
      var s := ResolveStep(f, ms, dims[0]);
      if s.frame.Err? {
        GrowsRefl(ms);
      } else {
        StepFacts(ms, dims[0], f);
        ResolveDimsHealthy(s.frame.value, s.masters, dims[1..]);
        GrowsTrans(ms, s.masters, ResolveDims(s.frame.value, s.masters, dims[1..]).masters);
      }
    }
  }

  /** A failing `assign_ids` call does not undo the ones before it: the master of
      the first dimension keeps what its call added, whatever the later calls do,
      including raising. */
  lemma NoRollback(f: Frame, ms: Masters, dims: seq<Dim>)
    requires DistinctDims(dims) && dims != []
    requires ResolveStep(f, ms, dims[0]).frame.Ok?
    ensures ResolveDims(f, ms, dims).masters.Get(dims[0]) == ResolveStep(f, ms, dims[0]).masters.Get(dims[0])
  {
    ResolveDimsStep(f, ms, dims);
    var s := ResolveStep(f, ms, dims[0]);
    assert dims[0] !in dims[1..];
    ResolveDimsOthers(s.frame.value, s.masters, dims[1..], dims[0]);
  }

  /** Resolving a batch again against the masters its first resolution left gives
      the same masters and the same outcome. */
  lemma {:induction false} ResolveDimsIdempotent(f: Frame, ms: Masters, dims: seq<Dim>)
    requires Healthy(ms) && DistinctDims(dims)
    ensures var r := ResolveDims(f, ms, dims);
      ResolveDims(f, r.masters, dims) == r
    decreases |dims|
  {
    if dims != [] {
      var d := dims[0];
      ResolveDimsStep(f, ms, dims);
      var s := ResolveStep(f, ms, d);
      var r := ResolveDims(f, ms, dims);
      if s.frame.Ok? {
        var g := s.frame.value;
        StepFacts(ms, d, f);
        assert DistinctDims(dims[1..]);
        assert d !in dims[1..];
        ResolveDimsIdempotent(g, s.masters, dims[1..]);
        ResolveDimsOthers(g, s.masters, dims[1..], d);
        AssignIdsIdempotent(f, ms.Get(d), KeyColumns(d), IdColumn(d));
        WithSame(r.masters, d);
        ResolveDimsStep(f, r.masters, dims);
      }
    }
  }

  /** Whether the call of dimension `d` can write column `c`: its id column or
      one of the suffixed names. */
  predicate Writes(d: Dim, c: string) {
    c == IdColumn(d) || c == SuffixX(IdColumn(d)) || c == SuffixY(IdColumn(d))
  }

  /** None of the calls writes column `c`. */
  predicate Untouched(c: string, dims: seq<Dim>) {
    forall d :: d in dims ==> !Writes(d, c)
  }

  /** The suffixed id names of each dimension, spelled out. */
  lemma SuffixNames(d: Dim)
    ensures SuffixX(IdColumn(d)) == match d
      case DateDim => "date_id_x"
      case AirportDim => "airport_id_x"
      case AirlineDim => "airline_id_x"
      case RouteDim => "route_id_x"
      case FlightTypeDim => "flight_type_id_x"
    ensures SuffixY(IdColumn(d)) == match d
      case DateDim => "date_id_y"
      case AirportDim => "airport_id_y"
      case AirlineDim => "airline_id_y"
      case RouteDim => "route_id_y"
      case FlightTypeDim => "flight_type_id_y"
  {
    match d
    case DateDim => assert "date_id" + "_x" == "date_id_x" && "date_id" + "_y" == "date_id_y";
    case AirportDim => assert "airport_id" + "_x" == "airport_id_x" && "airport_id" + "_y" == "airport_id_y";
    case AirlineDim => assert "airline_id" + "_x" == "airline_id_x" && "airline_id" + "_y" == "airline_id_y";
    case RouteDim => assert "route_id" + "_x" == "route_id_x" && "route_id" + "_y" == "route_id_y";
    case FlightTypeDim =>
      assert "flight_type_id" + "_x" == "flight_type_id_x" && "flight_type_id" + "_y" == "flight_type_id_y";
  }

  /** No call writes a key column of any dimension. */
  lemma KeysNotWritten(d: Dim, d': Dim)
    ensures forall c :: c in KeyColumns(d) ==> !Writes(d', c)
  {
    SuffixNames(d');
  }

  /** No call writes the id column of another dimension. */
  lemma IdsApart(d: Dim, d': Dim)
    requires d != d'
    ensures !Writes(d', IdColumn(d))
  {
    SuffixNames(d');
  }

  /** The calls of a file leave a column none of them writes as it was, row by row. */
  lemma {:induction false} ResolveKeepsCell(f: Frame, ms: Masters, dims: seq<Dim>, c: string, i: nat)
    requires Healthy(ms) && Untouched(c, dims) && i < |f.rows|
    requires ResolveDims(f, ms, dims).frame.Ok?
    ensures var g := ResolveDims(f, ms, dims).frame.value;
      && |g.rows| == |f.rows| && (c in g.columns <==> c in f.columns)
      && (c in f.columns ==> c in g.rows[i] && g.rows[i][c] == f.rows[i][c])
    decreases |dims|
  {
    if dims != [] {
      var d := dims[0];
      ResolveDimsStep(f, ms, dims);
      var s := ResolveStep(f, ms, d);
      assert s.frame.Ok?;
      assert !Writes(d, c);
      AssignIdsKeepsCell(f, ms.Get(d), KeyColumns(d), IdColumn(d), c, i);
      StepFacts(ms, d, f);
      assert Untouched(c, dims[1..]);
      ResolveKeepsCell(s.frame.value, s.masters, dims[1..], c, i);
    }
  }

  /** A call that met an existing id column leaves none behind, and the later
      calls do not bring one back. */
  lemma ResolveClashedId(f: Frame, ms: Masters, dims: seq<Dim>)
    requires Healthy(ms) && DistinctDims(dims) && dims != [] && IdColumn(dims[0]) in f.columns
    requires ResolveDims(f, ms, dims).frame.Ok?
    ensures IdColumn(dims[0]) !in ResolveDims(f, ms, dims).frame.value.columns
  {
    var d := dims[0];
    ResolveDimsStep(f, ms, dims);
    var s := ResolveStep(f, ms, d);
    AssignIdsIdColumn(f, ms.Get(d), KeyColumns(d), IdColumn(d));
    StepFacts(ms, d, f);
    forall e | e in dims[1..] ensures !Writes(e, IdColumn(d)) {
      IdsApart(d, e);
    }
    if |f.rows| > 0 {
      ResolveKeepsCell(s.frame.value, s.masters, dims[1..], IdColumn(d), 0);
    } else {
      ResolveKeepsCellColumns(s.frame.value, s.masters, dims[1..], IdColumn(d));
    }
  }

  /** The column part of `ResolveKeepsCell`, for a batch of any size. */
  lemma {:induction false} ResolveKeepsCellColumns(f: Frame, ms: Masters, dims: seq<Dim>, c: string)
    requires Healthy(ms) && Untouched(c, dims)
    requires ResolveDims(f, ms, dims).frame.Ok?
    ensures c in ResolveDims(f, ms, dims).frame.value.columns <==> c in f.columns
    decreases |dims|
  {
    if dims != [] {
      var d := dims[0];
      ResolveDimsStep(f, ms, dims);
      var s := ResolveStep(f, ms, d);
      assert s.frame.Ok?;
      assert !Writes(d, c);
      AssignIdsParts(f, ms.Get(d), KeyColumns(d), IdColumn(d));
      JoinColumnsKeep(f.columns, IdColumn(d), c);
      StepFacts(ms, d, f);
      assert Untouched(c, dims[1..]);
      ResolveKeepsCellColumns(s.frame.value, s.masters, dims[1..], c);
    }
  }

  /** One call keeps every key of another dimension, row by row. */
  lemma StepKeepsKey(f: Frame, ms: Masters, e: Dim, d: Dim, i: nat)
    requires Healthy(ms) && ResolveStep(f, ms, e).frame.Ok?
    requires HasColumns(f, KeyColumns(d)) && i < |f.rows|
    ensures var f1 := ResolveStep(f, ms, e).frame.value;
      && |f1.rows| == |f.rows| && HasColumns(f1, KeyColumns(d))
      && KeyOf(f1.rows[i], KeyColumns(d)) == KeyOf(f.rows[i], KeyColumns(d))
  {
    var a := AssignIds(f, ms.Get(e), KeyColumns(e), IdColumn(e));
    var f1 := a.value.0;
    assert ResolveStep(f, ms, e).frame == Ok(f1);
    KeysNotWritten(d, e);
    var k0 := KeyColumns(d)[0];
    assert k0 in KeyColumns(d) && !Writes(e, k0);
    AssignIdsKeepsCell(f, ms.Get(e), KeyColumns(e), IdColumn(e), k0, i);
    assert |f1.rows| == |f.rows|;
    forall c | c in KeyColumns(d) ensures c in f1.columns && c in f1.rows[i] && f1.rows[i][c] == f.rows[i][c] {
      assert c in f.columns && !Writes(e, c);
      AssignIdsKeepsCell(f, ms.Get(e), KeyColumns(e), IdColumn(e), c, i);
    }
    assert RowHas(f.rows[i], KeyColumns(d)) by {
      assert forall c :: c in KeyColumns(d) ==> c in ColumnSet(f.columns);
    }
    KeyOfAgree(f1.rows[i], f.rows[i], KeyColumns(d));
  }

  /** The call of dimension `d` itself, and the later ones: rows with the same key
      end with the same id, and rows with different keys with different ids. */
  lemma ResolveIdHere(f: Frame, ms: Masters, dims: seq<Dim>, i: nat, i': nat)
    requires Healthy(ms) && DistinctDims(dims) && dims != []
    requires i < |f.rows| && i' < |f.rows|
    requires ResolveDims(f, ms, dims).frame.Ok?
    requires IdColumn(dims[0]) in ResolveDims(f, ms, dims).frame.value.columns
    ensures var g := ResolveDims(f, ms, dims).frame.value;
      var d, id := dims[0], IdColumn(dims[0]);
      && HasColumns(f, KeyColumns(d))
      && |g.rows| == |f.rows| && id in g.rows[i] && id in g.rows[i']
      && (g.rows[i][id] == g.rows[i'][id] <==> KeyOf(f.rows[i], KeyColumns(d)) == KeyOf(f.rows[i'], KeyColumns(d)))
  {
    var d := dims[0];
    var id := IdColumn(d);
    ResolveDimsStep(f, ms, dims);
    var s := ResolveStep(f, ms, d);
    assert s.frame.Ok?;
    if id in f.columns {
      ResolveClashedId(f, ms, dims);
      assert false;
    }
    var rest := dims[1..];
    StepFacts(ms, d, f);
    forall e | e in rest ensures !Writes(e, id) { IdsApart(d, e); }
    AssignIdsSameKeySameId(f, ms.Get(d), KeyColumns(d), id, i, i');
    AssignIdsIdColumn(f, ms.Get(d), KeyColumns(d), id);
    ResolveKeepsCell(s.frame.value, s.masters, rest, id, i);
    ResolveKeepsCell(s.frame.value, s.masters, rest, id, i');
  }

  /** Through the calls of one file, two rows end with the same id of dimension
      `d` exactly when they have the same key for `d`. */
  lemma {:induction false} ResolveSameKeySameId(f: Frame, ms: Masters, dims: seq<Dim>, d: Dim, i: nat, i': nat)
    requires Healthy(ms) && DistinctDims(dims) && d in dims
    requires HasColumns(f, KeyColumns(d)) && i < |f.rows| && i' < |f.rows|
    requires ResolveDims(f, ms, dims).frame.Ok?
    requires IdColumn(d) in ResolveDims(f, ms, dims).frame.value.columns
    ensures var g := ResolveDims(f, ms, dims).frame.value;
      && |g.rows| == |f.rows| && IdColumn(d) in g.rows[i] && IdColumn(d) in g.rows[i']
      && (g.rows[i][IdColumn(d)] == g.rows[i'][IdColumn(d)]
          <==> KeyOf(f.rows[i], KeyColumns(d)) == KeyOf(f.rows[i'], KeyColumns(d)))
    decreases |dims|
  {
    if dims[0] == d {
      ResolveIdHere(f, ms, dims, i, i');
    } else {
      var s := ResolveStep(f, ms, dims[0]);
      StepBeforeId(f, ms, dims, d);
      StepKeepsKey(f, ms, dims[0], d, i);
      StepKeepsKey(f, ms, dims[0], d, i');
      ResolveSameKeySameId(s.frame.value, s.masters, dims[1..], d, i, i');
    }
  }

  /** A call of another dimension first: what the remaining calls start from. */
  lemma StepBeforeId(f: Frame, ms: Masters, dims: seq<Dim>, d: Dim)
    requires Healthy(ms) && DistinctDims(dims) && d in dims && dims[0] != d
    requires ResolveDims(f, ms, dims).frame.Ok?
    ensures var s := ResolveStep(f, ms, dims[0]);
      && s.frame.Ok? && Healthy(s.masters)
      && DistinctDims(dims[1..]) && d in dims[1..]
      && ResolveDims(s.frame.value, s.masters, dims[1..]) == ResolveDims(f, ms, dims)
  {
    var e := dims[0];
    ResolveDimsStep(f, ms, dims);
    var s := ResolveStep(f, ms, e);
    assert s.frame.Ok?;
    StepFacts(ms, e, f);
    assert d in dims[1..] && DistinctDims(dims[1..]);
  }

  /** Every id column is one of the fact columns. */
  lemma IdInFacts(d: Dim)
    ensures IdColumn(d) in Extract.FACT_COLUMNS
  {
    assert Extract.FACT_COLUMNS[..5] == ["date_id", "airport_id", "airline_id", "route_id", "flight_type_id"];
  }

  /** In the fact table of a prepared batch, two rows carry the same id of a
      dimension exactly when they have the same key for it: equal cleaned keys
      give equal ids, and different keys different ids. */
  lemma SettleSameKeySameId(ms: Masters, b: Frame, d: Dim, i: nat, i': nat)
    requires Healthy(ms) && Settle(ms, Ok(b)).fact.Ok?
    requires HasColumns(b, KeyColumns(d)) && i < |b.rows| && i' < |b.rows|
    ensures var t := Settle(ms, Ok(b)).fact.value;
      && |t.rows| == |b.rows| && IdColumn(d) in t.rows[i] && IdColumn(d) in t.rows[i']
      && (t.rows[i][IdColumn(d)] == t.rows[i'][IdColumn(d)]
          <==> KeyOf(b.rows[i], KeyColumns(d)) == KeyOf(b.rows[i'], KeyColumns(d)))
  {
    var r := ResolveDims(b, ms, DIMS);
    assert r.frame.Ok?;
    var g := r.frame.value;
    assert Settle(ms, Ok(b)).fact == Extract.Project(g, Extract.FACT_COLUMNS);
    FactHasId(g, d);
    AllDims(d);
    ResolveSameKeySameId(b, ms, DIMS, d, i, i');
    FactKeepsId(g, d, i);
    FactKeepsId(g, d, i');
  }

  /** The script resolves every dimension, each once. */
  lemma AllDims(d: Dim)
    ensures DistinctDims(DIMS) && d in DIMS
  {
    assert DIMS[0] == DateDim && DIMS[1] == AirportDim && DIMS[2] == AirlineDim;
    assert DIMS[3] == RouteDim && DIMS[4] == FlightTypeDim;
  }

  /** A frame that projects onto the fact columns has every dimension's id column. */
  lemma FactHasId(g: Frame, d: Dim)
    requires Extract.Project(g, Extract.FACT_COLUMNS).Ok?
    ensures IdColumn(d) in g.columns
  {
    IdInFacts(d);
    assert IdColumn(d) in ColumnSet(g.columns);
  }

  /** The fact table keeps each dimension's id column of the resolved frame. */
  lemma FactKeepsId(g: Frame, d: Dim, i: nat)
    requires Extract.Project(g, Extract.FACT_COLUMNS).Ok? && i < |g.rows|
    ensures var t := Extract.Project(g, Extract.FACT_COLUMNS).value;
      && IdColumn(d) in g.columns && |t.rows| == |g.rows|
      && IdColumn(d) in t.rows[i] && IdColumn(d) in g.rows[i] && t.rows[i][IdColumn(d)] == g.rows[i][IdColumn(d)]
  {
    IdInFacts(d);
    ProjectKeepsCell(g, Extract.FACT_COLUMNS, IdColumn(d), i);
  }

  /** A projected column is a column of the frame, with each row's value kept. */
  lemma ProjectKeepsCell(g: Frame, cols: seq<string>, c: string, i: nat)
    requires Extract.Project(g, cols).Ok? && c in cols && i < |g.rows|
    ensures var t := Extract.Project(g, cols).value;
      && c in g.columns && |t.rows| == |g.rows|
      && c in t.rows[i] && c in g.rows[i] && t.rows[i][c] == g.rows[i][c]
  {
    assert c in ColumnSet(g.columns);
  }

  /** One file keeps the masters registries, only appends to them, and a fact
      table it produces has the fact columns. */
  lemma FileStepFacts(ms: Masters, file: Option<Frame>)
    requires Healthy(ms)
    ensures var s := FileStep(ms, file);
      && Healthy(s.masters) && Grows(ms, s.masters)
      && (s.fact.Ok? ==> s.fact.value.columns == Extract.FACT_COLUMNS)
  {
    var b := Load(file);
    if b.Ok? {
      ResolveDimsHealthy(b.value, ms, DIMS);
    } else {
      GrowsRefl(ms);
    }
  }

  /** Processing the same file a second time adds no master entry and yields the
      same fact table or the same exception. */
  lemma FileStepIdempotent(ms: Masters, file: Option<Frame>)
    requires Healthy(ms)
    ensures var s := FileStep(ms, file);
      FileStep(s.masters, file) == s
  {
    SettleIdempotent(ms, Load(file));
  }

  lemma SettleIdempotent(ms: Masters, batch: Result<Frame>)
    requires Healthy(ms)
    ensures Settle(Settle(ms, batch).masters, batch) == Settle(ms, batch)
  {
    if batch.Ok? {
      ResolveDimsIdempotent(batch.value, ms, DIMS);
    }
  }

  /** The files of a run keep the masters registries and only append to them;
      every fact table produced has the fact columns. */
  lemma {:induction false} RunFacts(ms: Masters, files: seq<Option<Frame>>)
    requires Healthy(ms)
    ensures var t := Run(ms, files);
      && Healthy(t.masters) && Grows(ms, t.masters)
      && forall i :: 0 <= i < |files| && t.outcomes[i].Ok? ==> t.outcomes[i].value.columns == Extract.FACT_COLUMNS
    decreases |files|
  {
    if files == [] {
      GrowsRefl(ms);
    } else {
      var init, last := files[..|files| - 1], files[|files| - 1];
      assert files == init + [last];
      RunSnoc(ms, init, last);
      RunFacts(ms, init);
      var t := Run(ms, init);
      FileStepFacts(t.masters, last);
      GrowsTrans(ms, t.masters, FileStep(t.masters, last).masters);
    }
  }

  /** Running two lists of files one after the other is running their concatenation. */
  lemma {:induction false} RunAppend(ms: Masters, a: seq<Option<Frame>>, b: seq<Option<Frame>>)
    ensures var t := Run(ms, a);
      var u := Run(t.masters, b);
      Run(ms, a + b) == Trace(u.masters, t.outcomes + u.outcomes)
    decreases |b|
  {
    if b == [] {
      assert a + b == a;
    } else {
      var init, last := b[..|b| - 1], b[|b| - 1];
      assert b == init + [last];
      assert a + b == (a + init) + [last];
      RunSnoc(ms, a + init, last);
      RunAppend(ms, a, init);
      RunSnoc(Run(ms, a).masters, init, last);
      var t := Run(ms, a);
      var u := Run(t.masters, init);
      var s := FileStep(u.masters, last);
      assert t.outcomes + u.outcomes + [s.fact] == t.outcomes + (u.outcomes + [s.fact]);
    }
  }

  /** From the empty masters, every master's ids after a run are exactly 1 .. n. */
  lemma RunDenseIds(files: seq<Option<Frame>>, d: Dim)
    ensures var m := Run(EMPTY, files).masters.Get(d);
      forall i :: i in Ids(m) <==> 1 <= i <= |m|
  {
    EmptyHealthy();
    RunFacts(EMPTY, files);
    DenseIds(Run(EMPTY, files).masters.Get(d));
  }

  /** The successes of two lists, one after the other. */
  lemma {:induction false} SuccessesAppend(a: seq<Result<Frame>>, b: seq<Result<Frame>>)
    ensures Successes(a + b) == Successes(a) + Successes(b)
    decreases |b|
  {
    if b == [] {
      assert a + b == a;
    } else {
      var init := b[..|b| - 1];
      assert (a + b)[..|a + b| - 1] == a + init;
      SuccessesAppend(a, init);
    }
  }

  /** The collected fact tables are exactly the successful outcomes. */
  lemma {:induction false} SuccessesMembers(outcomes: seq<Result<Frame>>)
    ensures forall f :: f in Successes(outcomes) <==> Ok(f) in outcomes
    decreases |outcomes|
  {
    if outcomes != [] {
      var init := outcomes[..|outcomes| - 1];
      assert outcomes == init + [outcomes[|outcomes| - 1]];
      SuccessesMembers(init);
    }
  }

  /** The fact tables of a run from healthy masters all have the fact columns,
      as `Concat` needs. */
  lemma RunSuccessColumns(ms: Masters, files: seq<Option<Frame>>)
    requires Healthy(ms)
    ensures var fs := Successes(Run(ms, files).outcomes);
      forall i :: 0 <= i < |fs| ==> fs[i].columns == Extract.FACT_COLUMNS
  {
    var o := Run(ms, files).outcomes;
    RunFacts(ms, files);
    SuccessesMembers(o);
    var fs := Successes(o);
    forall i | 0 <= i < |fs| ensures fs[i].columns == Extract.FACT_COLUMNS {
      assert Ok(fs[i]) in o;
    }
  }
}
