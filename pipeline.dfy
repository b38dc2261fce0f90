/** The drivers: five dimension masters threaded through every punctuality file,
    the per-file fact tables, their concatenation, and the airport-code pass. */
module Pipeline {
  import opened Frames
  import opened Registry
  import Extract
  import Iata

  /** The five dimensions, in the order each file resolves them. */
  datatype Dim = DateDim | AirportDim | AirlineDim | RouteDim | FlightTypeDim

  const DIMS: seq<Dim> := [DateDim, AirportDim, AirlineDim, RouteDim, FlightTypeDim]

  /** The natural-key columns each `assign_ids` call is given. */
  function KeyColumns(d: Dim): (k: seq<string>)
    ensures k != []
  {
    match d
    case DateDim => ["reporting_period", "period_date"]
    case AirportDim => ["reporting_airport"]
    case AirlineDim => ["airline_name"]
    case RouteDim => ["origin_destination", "origin_destination_country"]
    case FlightTypeDim => ["scheduled_charter"]
  }

  function IdColumn(d: Dim): (c: string)
    ensures c !in KeyColumns(d)
  {
    match d
    case DateDim => "date_id"
    case AirportDim => "airport_id"
    case AirlineDim => "airline_id"
    case RouteDim => "route_id"
    case FlightTypeDim => "flight_type_id"
  }

  /** The five master tables. */
  datatype Masters = Masters(date: Master, airport: Master, airline: Master, route: Master, flightType: Master) {
    function Get(d: Dim): Master {
      match d
      case DateDim => date
      case AirportDim => airport
      case AirlineDim => airline
      case RouteDim => route
      case FlightTypeDim => flightType
    }

    function With(d: Dim, m: Master): (ms: Masters)
      ensures ms.Get(d) == m
      ensures forall d' :: d' != d ==> ms.Get(d') == Get(d')
    {
      match d
      case DateDim => this.(date := m)
      case AirportDim => this.(airport := m)
      case AirlineDim => this.(airline := m)
      case RouteDim => this.(route := m)
      case FlightTypeDim => this.(flightType := m)
    }
  }

  /** The masters before the first file: all empty. */
  const EMPTY := Masters([], [], [], [], [])

  /** Every master is a registry for its key columns. */
  predicate Healthy(ms: Masters) {
    forall d :: IsRegistry(ms.Get(d), |KeyColumns(d)|)
  }

  /** Each master of `ms'` extends the one of `ms`: no entry lost or renumbered. */
  predicate Grows(ms: Masters, ms': Masters) {
    forall d :: |ms.Get(d)| <= |ms'.Get(d)| && ms'.Get(d)[..|ms.Get(d)|] == ms.Get(d)
  }

  // ---------------------------------------------------------------------------
  // One file

  /** The masters after the resolution steps that ran, and the batch with its ids
      or the exception that stopped it. */
  datatype Resolved = Resolved(masters: Masters, frame: Result<Frame>)

  /** One `assign_ids` call: the batch with the dimension's id column and the
      grown master, or the exception with the masters as they were. */
  function ResolveStep(f: Frame, ms: Masters, d: Dim): (r: Resolved)
    ensures r.frame.Err? ==> r.frame.error.MissingColumn? || r.frame.error.SuffixClash?
  {
    var s := AssignIds(f, ms.Get(d), KeyColumns(d), IdColumn(d));
    if s.Err? then Resolved(ms, Err(s.error)) else Resolved(ms.With(d, s.value.1), Ok(s.value.0))
  }

  /** The `assign_ids` calls in order. A failing call ends the file, and the
      masters the earlier calls grew stay grown. */
  function ResolveDims(f: Frame, ms: Masters, dims: seq<Dim>): (r: Resolved)
    ensures r.frame.Err? ==> r.frame.error.MissingColumn? || r.frame.error.SuffixClash?
    decreases |dims|, 1
  {
    if dims == [] then Resolved(ms, Ok(f)) else ResolveFirst(f, ms, dims)
  }

  /** The first call of a non-empty list, then the rest. */
  function ResolveFirst(f: Frame, ms: Masters, dims: seq<Dim>): (r: Resolved)
    requires dims != []
    ensures r.frame.Err? ==> r.frame.error.MissingColumn? || r.frame.error.SuffixClash?
    decreases |dims|, 0
  {
    var r := ResolveStep(f, ms, dims[0]);
    if r.frame.Err? then r else ResolveDims(r.frame.value, r.masters, dims[1..])
  }

  /** Every key column is one of the normalised text columns, or the reporting
      period and the date derived from it. */
  lemma KeysAreCleaned(d: Dim)
    ensures forall c :: c in KeyColumns(d) ==> c in Extract.KEY_TEXT || c == Extract.PERIOD || c == Extract.PERIOD_DATE
  {
    assert Extract.KEY_TEXT == ["reporting_airport", "airline_name", "origin_destination", "origin_destination_country", "scheduled_charter"];
  }

  lemma ResolveDimsStep(f: Frame, ms: Masters, dims: seq<Dim>)
    requires dims != []
    ensures var r := ResolveStep(f, ms, dims[0]);
      ResolveDims(f, ms, dims) == if r.frame.Err? then r else ResolveDims(r.frame.value, r.masters, dims[1..])
  {
  }

  /** The masters after a file, and the file's fact table or its exception. */
  datatype Step = Step(masters: Masters, fact: Result<Frame>)

  /** Reading and preparing one file: an unreadable file or a preparation error
      becomes the file's outcome. */
  function Load(file: Option<Frame>): (r: Result<Frame>)
    ensures r == Err(Unreadable) <==> file.None?
  {
    if file.None? then Err(Unreadable) else Extract.Prepare(file.value)
  }

  /** Resolving and projecting a prepared batch, or passing its error on. */
  function Settle(ms: Masters, batch: Result<Frame>): (s: Step)
    ensures batch.Err? ==> s == Step(ms, Err(batch.error))
    ensures s.fact.Ok? ==> batch.Ok? && s.fact.value.columns == Extract.FACT_COLUMNS
    ensures batch.Ok? && s.fact.Err? ==> s.fact.error.MissingColumn? || s.fact.error.SuffixClash?
  {
    if batch.Err? then Step(ms, Err(batch.error))
    else
      var r := ResolveDims(batch.value, ms, DIMS);
      Step(r.masters, if r.frame.Err? then Err(r.frame.error) else Extract.Project(r.frame.value, Extract.FACT_COLUMNS))
  }

  /** The body of the per-file `try`: any exception becomes the file's outcome. */
  function FileStep(ms: Masters, file: Option<Frame>): (s: Step)
    ensures s.fact == Err(Unreadable) <==> file.None?
    ensures file.None? ==> s.masters == ms
    ensures s.fact.Ok? ==> s.fact.value.columns == Extract.FACT_COLUMNS
  {
    Settle(ms, Load(file))
  }

  /** The masters after a sequence of files, and every file's outcome in order. */
  datatype Trace = Trace(masters: Masters, outcomes: seq<Result<Frame>>)

  function Run(ms: Masters, files: seq<Option<Frame>>): (t: Trace)
    ensures |t.outcomes| == |files|
    decreases |files|, 2
  {
    if files == [] then Trace(ms, []) else RunLast(ms, files)
  }

  /** A non-empty sequence: the last file split off. */
  function RunLast(ms: Masters, files: seq<Option<Frame>>): (t: Trace)
    requires files != []
    ensures |t.outcomes| == |files|
    decreases |files|, 1
  {
    RunThen(ms, files[..|files| - 1], files[|files| - 1])
  }

  /** The files of `init`, then `file` with the masters they left. */
  function RunThen(ms: Masters, init: seq<Option<Frame>>, file: Option<Frame>): (t: Trace)
    ensures |t.outcomes| == |init| + 1
    decreases |init| + 1, 0
  {
    var t := Run(ms, init);
    var s := FileStep(t.masters, file);
    Trace(s.masters, t.outcomes + [s.fact])
  }

  /** One more file extends the run by that file's step. */
  lemma RunSnoc(ms: Masters, init: seq<Option<Frame>>, file: Option<Frame>)
    ensures Run(ms, init + [file]) == RunThen(ms, init, file)
  {
    assert (init + [file])[..|init|] == init;
  }

  lemma SnocPrefix<T>(s: seq<T>, k: nat)
    requires k < |s|
    ensures s[..k] + [s[k]] == s[..k + 1]
  {
  }

  /** The fact tables of the files that succeeded, in processing order. */
  function Successes(outcomes: seq<Result<Frame>>): (r: seq<Frame>)
    ensures |r| <= |outcomes|
  {
    if outcomes == [] then []
    else
      var init := Successes(outcomes[..|outcomes| - 1]);
      var last := outcomes[|outcomes| - 1];
      if last.Ok? then init + [last.value] else init
  }

  /** The rows of every table, table after table. */
  function Flatten(fs: seq<Frame>): seq<Row> {
    if fs == [] then [] else Flatten(fs[..|fs| - 1]) + fs[|fs| - 1].rows
  }

  /** `pd.concat(fact_punctuality_all, ignore_index=True)`: the rows of every fact
      table in order; an empty list raises. */
  function Concat(fs: seq<Frame>): (r: Result<Frame>)
    requires forall i :: 0 <= i < |fs| ==> fs[i].columns == Extract.FACT_COLUMNS
    ensures r.Err? <==> fs == []
    ensures r.Err? ==> r == Err(NothingToConcatenate)
    ensures r.Ok? ==> r.value.columns == Extract.FACT_COLUMNS && r.value.rows == Flatten(fs)
  {
    if fs == [] then Err(NothingToConcatenate)
    else
      FlattenKeys(fs, ColumnSet(Extract.FACT_COLUMNS));
      Ok(Table(Extract.FACT_COLUMNS, Flatten(fs)))
  }

  lemma {:induction false} FlattenKeys(fs: seq<Frame>, keys: set<string>)
    requires forall i :: 0 <= i < |fs| ==> ColumnSet(fs[i].columns) == keys
    ensures forall i :: 0 <= i < |Flatten(fs)| ==> Flatten(fs)[i].Keys == keys
    decreases |fs|
  {
    if fs != [] {
      FlattenKeys(fs[..|fs| - 1], keys);
      var last := fs[|fs| - 1];
      assert forall i :: 0 <= i < |last.rows| ==> last.rows[i].Keys == ColumnSet(last.columns);
    }
  }

  /** One successful `assign_ids` call keeps every master a registry and grows the one it updates. */
  lemma StepFacts(ms: Masters, d: Dim, f: Frame)
    requires Healthy(ms)
    requires AssignIds(f, ms.Get(d), KeyColumns(d), IdColumn(d)).Ok?
    ensures var m := AssignIds(f, ms.Get(d), KeyColumns(d), IdColumn(d)).value.1;
      && Healthy(ms.With(d, m)) && Grows(ms, ms.With(d, m))
      && |m| >= |ms.Get(d)|
  {
    var m := AssignIds(f, ms.Get(d), KeyColumns(d), IdColumn(d)).value.1;
    AssignIdsKeepsRegistry(f, ms.Get(d), KeyColumns(d), IdColumn(d));
    AssignIdsKeepsPrefix(f, ms.Get(d), KeyColumns(d), IdColumn(d));
    var ms' := ms.With(d, m);
    forall d' ensures IsRegistry(ms'.Get(d'), |KeyColumns(d')|) {
      if d' != d { assert ms'.Get(d') == ms.Get(d'); }
    }
    forall d' ensures |ms.Get(d')| <= |ms'.Get(d')| && ms'.Get(d')[..|ms.Get(d')|] == ms.Get(d') {
      if d' != d { assert ms'.Get(d') == ms.Get(d'); }
    }
  }

  /** The codes of `n` airports not yet matched. */
  function Nulls(n: nat): (s: seq<Cell>)
    ensures |s| == n && forall i :: 0 <= i < n ==> s[i] == Null
  {
    seq(n, _ => Null)
  }

  /** `b` is `a` followed by codes of newly registered airports. */
  predicate NullExtension(a: seq<Cell>, b: seq<Cell>) {
    |a| <= |b| && b == a + Nulls(|b| - |a|)
  }

  lemma NullExtensionRefl(a: seq<Cell>)
    ensures NullExtension(a, a)
  {
    assert a + Nulls(0) == a;
  }

  /** Two runs of null codes in a row are one run. */
  lemma NullExtensionTrans(a: seq<Cell>, b: seq<Cell>, c: seq<Cell>)
    requires NullExtension(a, b) && NullExtension(b, c)
    ensures NullExtension(a, c)
  {
    assert Nulls(|b| - |a|) + Nulls(|c| - |b|) == Nulls(|c| - |a|);
  }

  // ---------------------------------------------------------------------------
  // The airport-code pass

  /** The `reporting_airport` of the airport master's row `i`: the one cell of
      its key (see `AirportKey`). */
  function AirportName(m: Master, i: nat): Cell
    requires i < |m|
  {
    if m[i].key == [] then Null else m[i].key[0]
  }

  /** In healthy masters each airport's key is exactly its name. */
  lemma AirportKey(ms: Masters, i: nat)
    requires Healthy(ms) && i < |ms.airport|
    ensures ms.airport[i].key == [AirportName(ms.airport, i)]
  {
    assert IsRegistry(ms.Get(AirportDim), |KeyColumns(AirportDim)|);
  }

  /** What one iteration of the pass leaves in an airport's `iata_code`, or the
      exception it raises. */
  function CodeAfter(name: Cell, code: Cell, refs: seq<Iata.RefRow>, score: (Cell, Cell) -> Iata.Score): (r: Result<Cell>)
    ensures r.Err? <==> Iata.MatchCode(name, refs, score).Err?
    ensures r.Ok? && Iata.MatchCode(name, refs, score).value.Keep? ==> r.value == code
    ensures r.Ok? && Iata.MatchCode(name, refs, score).value.Assign? ==> r.value == Iata.MatchCode(name, refs, score).value.code
  {
    var o :- Iata.MatchCode(name, refs, score);
    Ok(if o.Keep? then code else o.code)
  }

  /** With the intended reference clean-up an iteration raises only on an airport
      name that is not a string, and each code is the old one or a three-character
      code of some reference row. */
  lemma CodeAfterNamed(name: Cell, code: Cell, refs: seq<Iata.RefRow>, score: (Cell, Cell) -> Iata.Score)
    requires forall i :: 0 <= i < |refs| ==> Iata.Cleaned(refs[i]) && Iata.Named(refs[i])
    ensures CodeAfter(name, code, refs, score).Ok? <==> refs == [] || name.Text?
    ensures CodeAfter(name, code, refs, score).Ok? ==> var c := CodeAfter(name, code, refs, score).value;
      c == code || (Iata.UsableCode(c) && exists j :: 0 <= j < |refs| && c == refs[j].code)
  {
    Iata.MatchCodeNamedFailsOnlyOnNonText(name, refs, score);
  }

  // ---------------------------------------------------------------------------
  // The driver's state

  /** The script's global state: the five masters (the airport master's
      `iata_code` column kept beside it), and the fact tables collected so far. */
  class Pipeline {
    var date: Master
    var airport: Master
    var airline: Master
    var route: Master
    var flightType: Master
    var iataCodes: seq<Cell>
    var facts: seq<Frame>

    function State(): Masters
      reads this
    {
      Masters(date, airport, airline, route, flightType)
    }

    ghost predicate Valid()
      reads this
    {
      && Healthy(State())
      && |iataCodes| == |airport|
    }

    /** The empty masters the scripts start from. */
    constructor ()
      ensures Valid()
      ensures State() == EMPTY && iataCodes == [] && facts == []
    {
      date, airport, airline, route, flightType := [], [], [], [], [];
      iataCodes, facts := [], [];
    }

    /** `df, master = assign_ids(df, master, key_cols, id_col)` for one dimension.
        A new airport starts with a null code. */
    method AssignStep(d: Dim, df: Frame, ghost rest: seq<Dim>, ghost codes0: seq<Cell>) returns (r: Result<Frame>)
      requires Valid()
      requires rest != [] && rest[0] == d
      requires NullExtension(codes0, iataCodes)
      modifies this
      ensures Valid()
      ensures Resolved(State(), r) == ResolveStep(df, old(State()), d)
      ensures ResolveDims(df, old(State()), rest) == if r.Err? then Resolved(State(), r) else ResolveDims(r.value, State(), rest[1..])
      ensures facts == old(facts)
      ensures NullExtension(codes0, iataCodes)
    {
      ResolveDimsStep(df, State(), rest);
      var s := AssignIds(df, State().Get(d), KeyColumns(d), IdColumn(d));
      if s.Err? {
        return Err(s.error);
      }
      var (g, m) := s.value;
      StepFacts(State(), d, df);
      var ms := State().With(d, m);
      assert Healthy(ms) && |ms.airport| >= |airport| by {
        assert Grows(State(), ms);
        assert ms.Get(AirportDim) == ms.airport;
      }
      ghost var codes1 := iataCodes;
      iataCodes := iataCodes + Nulls(|ms.airport| - |airport|);
      NullExtensionTrans(codes0, codes1, iataCodes);
      date, airport, airline, route, flightType := ms.date, ms.airport, ms.airline, ms.route, ms.flightType;
      assert State() == ms;
      r := Ok(g);
    }

    /** The five `assign_ids` calls of one file. */
    method ResolveAll(df: Frame) returns (r: Result<Frame>)
      requires Valid()
      modifies this
      ensures Valid()
      ensures Resolved(State(), r) == ResolveDims(df, old(State()), DIMS)
      ensures facts == old(facts)
      ensures NullExtension(old(iataCodes), iataCodes)
    {
      ghost var codes0 := iataCodes;
      assert NullExtension(codes0, iataCodes) by {
        assert codes0 + Nulls(0) == codes0;
      }
      ghost var rest := DIMS;
      r := AssignStep(DateDim, df, rest, codes0);
      if r.Err? { return; }
      rest := rest[1..];
      r := AssignStep(AirportDim, r.value, rest, codes0);
      if r.Err? { return; }
      rest := rest[1..];
      r := AssignStep(AirlineDim, r.value, rest, codes0);
      if r.Err? { return; }
      rest := rest[1..];
      r := AssignStep(RouteDim, r.value, rest, codes0);
      if r.Err? { return; }
      rest := rest[1..];
      r := AssignStep(FlightTypeDim, r.value, rest, codes0);
    }

    /** The body of the per-file `try`: prepare the batch, resolve its keys, project
        the fact columns and append the fact table. Any exception ends the file
        with nothing appended; the masters keep what the calls before it added.
        Stated as one more step of `Run` after the files `done` that left the
        masters and produced `outcomes`. */
    method ProcessFile(file: Option<Frame>, ghost ms0: Masters, ghost done: seq<Option<Frame>>, ghost outcomes: seq<Result<Frame>>)
      returns (fact: Result<Frame>)
      requires Valid()
      requires Trace(State(), outcomes) == Run(ms0, done)
      modifies this
      ensures Valid()
      ensures Trace(State(), outcomes + [fact]) == Run(ms0, done + [file])
      ensures facts == old(facts) + (if fact.Ok? then [fact.value] else [])
      ensures NullExtension(old(iataCodes), iataCodes)
    {
      var batch := LoadFile(file);
      fact := SettleBatch(batch);
      RunSnoc(ms0, done, file);
    }

    /** The loop over the airport master: each airport's name against the
        reference names, writing the matched code in place. It stops at the first
        airport whose lookup raises: the airports before it are updated, the rest
        are not. Nothing but `iata_code` changes. */
    method MatchIataCodes(refs: seq<Iata.RefRow>, score: (Cell, Cell) -> Iata.Score) returns (failedAt: Option<nat>)
      requires Valid()
      modifies this
      ensures Valid()
      ensures State() == old(State()) && facts == old(facts) && |iataCodes| == |old(iataCodes)|
      ensures failedAt.None? ==> forall i :: 0 <= i < |airport| ==>
        CodeAfter(AirportName(airport, i), old(iataCodes)[i], refs, score) == Ok(iataCodes[i])
      ensures failedAt.Some? ==> (
        && failedAt.value < |airport|
        && CodeAfter(AirportName(airport, failedAt.value), old(iataCodes)[failedAt.value], refs, score).Err?
        && (forall i :: 0 <= i < failedAt.value ==>
              CodeAfter(AirportName(airport, i), old(iataCodes)[i], refs, score) == Ok(iataCodes[i]))
        && forall i :: failedAt.value <= i < |airport| ==> iataCodes[i] == old(iataCodes)[i])
    {
      var i := 0;
      while i < |iataCodes|
        invariant 0 <= i <= |iataCodes| == |old(iataCodes)| == |airport|
        invariant Valid() && State() == old(State()) && facts == old(facts)
        invariant forall j :: 0 <= j < i ==>
          CodeAfter(AirportName(airport, j), old(iataCodes)[j], refs, score) == Ok(iataCodes[j])
        invariant forall j :: i <= j < |iataCodes| ==> iataCodes[j] == old(iataCodes)[j]
      {
        var found := Iata.MatchCode(AirportName(airport, i), refs, score);
        if found.Err? {
          return Some(i);
        }
        if found.value.Assign? {
          iataCodes := iataCodes[i := found.value.code];
        }
        i := i + 1;
      }
      return None;
    }

    /** The loop over the punctuality files, in the order given: every file's
        outcome, the masters threaded through all of them, and the fact tables of
        the files that succeeded appended in that order. */
    method ProcessAll(files: seq<Option<Frame>>) returns (outcomes: seq<Result<Frame>>)
      requires Valid()
      modifies this
      ensures Valid()
      ensures Trace(State(), outcomes) == Run(old(State()), files)
      ensures facts == old(facts) + Successes(outcomes)
      ensures NullExtension(old(iataCodes), iataCodes)
    {
      ghost var ms0, facts0, codes0 := State(), facts, iataCodes;
      NullExtensionRefl(codes0);
      outcomes := [];
      var k := 0;
      while k < |files|
        invariant 0 <= k <= |files|
        invariant Valid()
        invariant Trace(State(), outcomes) == Run(ms0, files[..k])
        invariant facts == facts0 + Successes(outcomes)
        invariant NullExtension(codes0, iataCodes)
      {
        ghost var codes1 := iataCodes;
        var fact := ProcessFile(files[k], ms0, files[..k], outcomes);
        NullExtensionTrans(codes0, codes1, iataCodes);
        SnocPrefix(files, k);
        outcomes := outcomes + [fact];
        k := k + 1;
      }
      assert files[..k] == files;
    }

    /** Resolve the keys of a prepared batch, project the fact columns and append
        the fact table. */
    method SettleBatch(batch: Result<Frame>) returns (fact: Result<Frame>)
      requires Valid()
      modifies this
      ensures Valid()
      ensures Step(State(), fact) == Settle(old(State()), batch)
      ensures facts == old(facts) + (if fact.Ok? then [fact.value] else [])
      ensures NullExtension(old(iataCodes), iataCodes)
    {
      NullExtensionRefl(iataCodes);
      if batch.Err? {
        return Err(batch.error);
      }
      var resolved := ResolveAll(batch.value);
      if resolved.Err? {
        return Err(resolved.error);
      }
      fact := AppendFact(resolved.value);
    }

    /** `fact_punctuality = df[fact_cols]`, then the append to the list of fact tables. */
    method AppendFact(g: Frame) returns (fact: Result<Frame>)
      requires Valid()
      modifies this
      ensures Valid()
      ensures fact == Extract.Project(g, Extract.FACT_COLUMNS)
      ensures State() == old(State()) && iataCodes == old(iataCodes)
      ensures facts == old(facts) + (if fact.Ok? then [fact.value] else [])
    {
      fact := Extract.Project(g, Extract.FACT_COLUMNS);
      if fact.Ok? {
        ghost var ms := State();
        assert Healthy(ms);
        facts := facts + [fact.value];
        assert State() == ms;
      }
    }
  }

  /** Read and prepare one file. */
  method LoadFile(file: Option<Frame>) returns (batch: Result<Frame>)
    ensures batch == Load(file)
  {
    if file.None? {
      return Err(Unreadable);
    }
    var backfilled := Extract.BackfillOptional(file.value);
    batch := Extract.CleanBatch(backfilled);
  }
}
