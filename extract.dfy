/** The per-file preparation both scripts apply to a punctuality file before its
    keys are resolved: default columns, dropping rows without an airport or an
    airline, normalising the key text, deriving the period date, zero-filling
    the metric columns, and finally projecting the fact columns. */
module Extract {
  import opened Frames
  import Text

  // ---------------------------------------------------------------------------
  // Optional columns and their defaults

  /** The columns older files lack, with the value they are created with, in the
      order the scripts add them. Integers and floats are both `Num`, `NaT` is `Null`. */
  const REQUIRED: seq<(string, Cell)> := [
    ("actual_flights_unmatched", Num(0)),
    ("flights_unmatched_percent", Num(0)),
    ("previous_year_month_flights_matched", Num(0)),
    ("run_date", Null)
  ]

  predicate DistinctNames(req: seq<(string, Cell)>) {
    forall a, b :: 0 <= a < b < |req| ==> req[a].0 != req[b].0
  }

  function Names(req: seq<(string, Cell)>): seq<string> {
    seq(|req|, k requires 0 <= k < |req| => req[k].0)
  }

  /** `df[col] = default_value`, only when the column is absent. */
  function AddDefault(f: Frame, col: string, v: Cell): (g: Frame)
    ensures |g.rows| == |f.rows|
    ensures |g.columns| >= |f.columns| && g.columns[..|f.columns|] == f.columns && col in g.columns
  {
    if col in f.columns then f else SetColumn(f, col, seq(|f.rows|, _ => v))
  }

  /** The frame after the backfill loop has gone through the first |req| columns. */
  function AddDefaults(f: Frame, req: seq<(string, Cell)>): (g: Frame)
    ensures |g.rows| == |f.rows|
    ensures |g.columns| >= |f.columns| && g.columns[..|f.columns|] == f.columns
    ensures forall k :: 0 <= k < |req| ==> req[k].0 in g.columns
    decreases |req|
  {
    if req == [] then f
    else
      var h := AddDefaults(f, req[..|req| - 1]);
      var g := AddDefault(h, req[|req| - 1].0, req[|req| - 1].1);
      assert g.columns[..|f.columns|] == g.columns[..|h.columns|][..|f.columns|];
      assert forall c :: c in h.columns ==> c in g.columns[..|h.columns|];
      assert forall k :: 0 <= k < |req| - 1 ==> req[k] == req[..|req| - 1][k];
      g
  }

  /** The file after the backfill: its rows and its columns in place, and every
      optional column present. */
  function Backfilled(f: Frame): (g: Frame)
    ensures |g.rows| == |f.rows|
    ensures |g.columns| >= |f.columns| && g.columns[..|f.columns|] == f.columns
    ensures forall k :: 0 <= k < |REQUIRED| ==> REQUIRED[k].0 in g.columns
  {
    AddDefaults(f, REQUIRED)
  }

  /** The backfill loop: every optional column the file lacks is appended with its default. */
  method BackfillOptional(f: Frame) returns (g: Frame)
    ensures g == Backfilled(f)
  {
    g := f;
    var k := 0;
    while k < |REQUIRED|
      invariant 0 <= k <= |REQUIRED|
      invariant g == AddDefaults(f, REQUIRED[..k])
    {
      var (col, v) := REQUIRED[k];
      assert REQUIRED[..k + 1][..k] == REQUIRED[..k];
      if col !in g.columns {
        g := SetColumn(g, col, seq(|g.rows|, _ => v));
      }
      k := k + 1;
    }
    assert REQUIRED[..k] == REQUIRED;
  }

  /** One backfill step. */
  lemma AddDefaultFacts(f: Frame, col: string, v: Cell)
    ensures var g := AddDefault(f, col, v);
      && g.columns == (if col in f.columns then f.columns else f.columns + [col])
      && (forall i, c :: 0 <= i < |f.rows| && c in f.rows[i] ==> c in g.rows[i] && g.rows[i][c] == f.rows[i][c])
      && (col !in f.columns ==> forall i :: 0 <= i < |f.rows| ==> col in g.rows[i] && g.rows[i][col] == v)
  {
    assert forall i, c :: 0 <= i < |f.rows| && c in f.rows[i] ==> c in ColumnSet(f.columns);
  }

  lemma NamesSnoc(req: seq<(string, Cell)>)
    requires req != []
    ensures Names(req) == Names(req[..|req| - 1]) + [req[|req| - 1].0]
  {
  }

  /** The backfill keeps the existing columns as a prefix and adds only optional columns. */
  lemma {:induction false} AddDefaultsColumns(f: Frame, req: seq<(string, Cell)>)
    ensures var g := AddDefaults(f, req);
      && |g.columns| >= |f.columns| && g.columns[..|f.columns|] == f.columns
      && (forall c :: c in g.columns <==> c in f.columns || c in Names(req))
    decreases |req|
  {
    if req != [] {
      var init, last := req[..|req| - 1], req[|req| - 1];
      AddDefaultsColumns(f, init);
      var h := AddDefaults(f, init);
      AddDefaultFacts(h, last.0, last.1);
      NamesSnoc(req);
      var g := AddDefaults(f, req);
      assert g.columns[..|h.columns|] == h.columns;
      assert g.columns[..|f.columns|] == h.columns[..|f.columns|];
    }
  }

  /** The backfill never overwrites a cell the file has. */
  lemma {:induction false} AddDefaultsKeeps(f: Frame, req: seq<(string, Cell)>)
    ensures var g := AddDefaults(f, req);
      forall i, c :: 0 <= i < |f.rows| && c in f.rows[i] ==> c in g.rows[i] && g.rows[i][c] == f.rows[i][c]
    decreases |req|
  {
    if req != [] {
      var init, last := req[..|req| - 1], req[|req| - 1];
      AddDefaultsKeeps(f, init);
      AddDefaultFacts(AddDefaults(f, init), last.0, last.1);
    }
  }

  /** Every optional column the file lacks holds its default in every row. */
  lemma {:induction false} AddDefaultsFills(f: Frame, req: seq<(string, Cell)>)
    requires DistinctNames(req)
    ensures var g := AddDefaults(f, req);
      forall i, k :: 0 <= i < |f.rows| && 0 <= k < |req| && req[k].0 !in f.columns ==>
        req[k].0 in g.rows[i] && g.rows[i][req[k].0] == req[k].1
    decreases |req|
  {
    if req != [] {
      var init, last := req[..|req| - 1], req[|req| - 1];
      assert DistinctNames(init);
      AddDefaultsFills(f, init);
      AddDefaultsColumns(f, init);
      var h := AddDefaults(f, init);
      AddDefaultFacts(h, last.0, last.1);
      var g := AddDefaults(f, req);
      forall k' | 0 <= k' < |init| ensures Names(init)[k'] != last.0 {
        assert req[k'].0 != req[|req| - 1].0;
      }
      forall i, k | 0 <= i < |f.rows| && 0 <= k < |req| && req[k].0 !in f.columns
        ensures req[k].0 in g.rows[i] && g.rows[i][req[k].0] == req[k].1
      {
        if k < |init| {
          assert init[k] == req[k];
        } else {
          assert last.0 !in h.columns;
        }
      }
    }
  }

  lemma AddDefaultsFacts(f: Frame, req: seq<(string, Cell)>)
    requires DistinctNames(req)
    ensures var g := AddDefaults(f, req);
      && |g.rows| == |f.rows|
      && |g.columns| >= |f.columns| && g.columns[..|f.columns|] == f.columns
      && (forall k :: 0 <= k < |req| ==> req[k].0 in g.columns)
      && (forall i, c :: 0 <= i < |f.rows| && c in f.rows[i] ==> g.rows[i][c] == f.rows[i][c])
      && (forall i, k :: 0 <= i < |f.rows| && 0 <= k < |req| && req[k].0 !in f.columns ==>
            g.rows[i][req[k].0] == req[k].1)
  {
    AddDefaultsColumns(f, req);
    AddDefaultsKeeps(f, req);
    AddDefaultsFills(f, req);
    assert forall k :: 0 <= k < |req| ==> Names(req)[k] == req[k].0;
  }

  /** All the optional columns are present after the backfill, the original columns
      keep their place and their values, and every absent one holds its default. */
  lemma BackfilledFacts(f: Frame)
    ensures var g := Backfilled(f);
      && |g.rows| == |f.rows|
      && |g.columns| >= |f.columns| && g.columns[..|f.columns|] == f.columns
      && (forall k :: 0 <= k < |REQUIRED| ==> REQUIRED[k].0 in g.columns)
      && (forall i, c :: 0 <= i < |f.rows| && c in f.rows[i] ==> g.rows[i][c] == f.rows[i][c])
      && (forall i, k :: 0 <= i < |f.rows| && 0 <= k < |REQUIRED| && REQUIRED[k].0 !in f.columns ==>
            g.rows[i][REQUIRED[k].0] == REQUIRED[k].1)
  {
    AddDefaultsFacts(f, REQUIRED);
  }

  lemma {:induction false} AddDefaultsPresent(f: Frame, req: seq<(string, Cell)>)
    requires forall k :: 0 <= k < |req| ==> req[k].0 in f.columns
    ensures AddDefaults(f, req) == f
    decreases |req|
  {
    if req != [] {
      AddDefaultsPresent(f, req[..|req| - 1]);
    }
  }

  /** A file that already has every optional column passes the backfill untouched;
      in particular a second backfill changes nothing. */
  lemma BackfillIdempotent(f: Frame)
    ensures (forall k :: 0 <= k < |REQUIRED| ==> REQUIRED[k].0 in f.columns) ==> Backfilled(f) == f
    ensures Backfilled(Backfilled(f)) == Backfilled(f)
  {
    BackfilledFacts(f);
    if forall k :: 0 <= k < |REQUIRED| ==> REQUIRED[k].0 in f.columns {
      AddDefaultsPresent(f, REQUIRED);
    }
    AddDefaultsPresent(Backfilled(f), REQUIRED);
  }

  // ---------------------------------------------------------------------------
  // Dropping incomplete rows

  const AIRPORT := "reporting_airport"
  const AIRLINE := "airline_name"

  /** A row with both an airport and an airline. */
  predicate Complete(r: Row) {
    AIRPORT in r && AIRLINE in r && r[AIRPORT] != Null && r[AIRLINE] != Null
  }

  function KeepComplete(rows: seq<Row>): (kept: seq<Row>)
    ensures forall r :: r in kept <==> r in rows && Complete(r)
    ensures |kept| <= |rows|
  {
    if rows == [] then []
    else (if Complete(rows[0]) then [rows[0]] else []) + KeepComplete(rows[1..])
  }

  /** Filtering goes row by row and keeps the rows' order. */
  lemma {:induction false} KeepCompleteAppend(a: seq<Row>, b: seq<Row>)
    ensures KeepComplete(a + b) == KeepComplete(a) + KeepComplete(b)
    decreases |a|
  {
    if a == [] {
      assert a + b == b;
    } else {
      assert (a + b)[1..] == a[1..] + b;
      KeepCompleteAppend(a[1..], b);
    }
  }

  /** `df.dropna(subset=['reporting_airport', 'airline_name'])`, which raises a
      KeyError when either column is missing. */
  function DropIncomplete(f: Frame): (r: Result<Frame>)
    ensures r.Ok? <==> AIRPORT in f.columns && AIRLINE in f.columns
    ensures r.Err? ==> r == Err(MissingColumn(if AIRPORT !in f.columns then AIRPORT else AIRLINE))
    ensures r.Ok? ==> (r.value.columns == f.columns
      && forall row :: row in r.value.rows <==> row in f.rows && Complete(row))
  {
    if AIRPORT !in f.columns then Err(MissingColumn(AIRPORT))
    else if AIRLINE !in f.columns then Err(MissingColumn(AIRLINE))
    else
      KeepCompleteKeys(f.rows, ColumnSet(f.columns));
      Ok(Table(f.columns, KeepComplete(f.rows)))
  }

  lemma {:induction false} KeepCompleteKeys(rows: seq<Row>, keys: set<string>)
    requires forall i :: 0 <= i < |rows| ==> rows[i].Keys == keys
    ensures forall i :: 0 <= i < |KeepComplete(rows)| ==> KeepComplete(rows)[i].Keys == keys
    decreases |rows|
  {
    if rows != [] {
      KeepCompleteKeys(rows[1..], keys);
    }
  }

  // ---------------------------------------------------------------------------
  // Normalising the key text

  /** The five natural-key text columns, in the order the scripts clean them. */
  const KEY_TEXT: seq<string> := [AIRPORT, AIRLINE, "origin_destination", "origin_destination_country", "scheduled_charter"]

  /** `.str.strip().str.upper()` on one cell: text is normalised, anything else
      becomes null, as the accessor does for a non-string value. */
  function NormalizeCell(c: Cell): (r: Cell)
    ensures c.Text? ==> r == Text(Text.Normalize(c.s))
    ensures !c.Text? ==> r == Null
    ensures r.Null? || (r.Text? && Text.IsNormal(r.s))
  {
    match c
    case Text(s) => Text(Text.Normalize(s))
    case _ => Null
  }

  /** `df[col] = df[col].str.strip().str.upper()`. */
  function NormalizeColumn(f: Frame, col: string): (r: Result<Frame>)
    ensures r.Ok? <==> col in f.columns
    ensures r.Err? ==> r == Err(MissingColumn(col))
    ensures r.Ok? ==> (r.value.columns == f.columns && |r.value.rows| == |f.rows|
      && forall i :: 0 <= i < |f.rows| ==> r.value.rows[i] == f.rows[i][col := NormalizeCell(f.rows[i][col])])
  {
    if col !in f.columns then Err(MissingColumn(col))
    else Ok(SetColumn(f, col, seq(|f.rows|, i requires 0 <= i < |f.rows| => NormalizeCell(f.rows[i][col]))))
  }

  function NormalizeColumns(f: Frame, cols: seq<string>): (r: Result<Frame>)
    ensures r.Err? ==> r.error.MissingColumn?
    ensures r.Ok? ==> r.value.columns == f.columns && |r.value.rows| == |f.rows|
    decreases |cols|
  {
    if cols == [] then Ok(f)
    else
      var g :- NormalizeColumn(f, cols[0]);
      NormalizeColumns(g, cols[1..])
  }

  lemma NormalizeThenRest(f: Frame, cols: seq<string>)
    requires cols != [] && cols[0] in f.columns
    ensures NormalizeColumns(f, cols) == NormalizeColumns(NormalizeColumn(f, cols[0]).value, cols[1..])
    ensures HasColumns(f, cols) <==> HasColumns(NormalizeColumn(f, cols[0]).value, cols[1..])
  {
    assert forall c :: c in cols <==> c == cols[0] || c in cols[1..];
  }

  /** The five clean-up statements fail on the first missing key column and keep the
      frame's shape otherwise. */
  lemma {:induction false} NormalizeColumnsShape(f: Frame, cols: seq<string>)
    ensures var r := NormalizeColumns(f, cols);
      && (r.Ok? <==> HasColumns(f, cols))
      && (!HasColumns(f, cols) ==> r == Err(MissingColumn(FirstMissing(f.columns, cols))))
      && (r.Ok? ==> r.value.columns == f.columns && |r.value.rows| == |f.rows|)
    decreases |cols|
  {
    if cols != [] && cols[0] in f.columns {
      NormalizeThenRest(f, cols);
      NormalizeColumnsShape(NormalizeColumn(f, cols[0]).value, cols[1..]);
    }
  }

  /** After the clean-up every key cell is its cleaned original, and every other cell
      is untouched. */
  lemma {:induction false} NormalizeColumnsCells(f: Frame, cols: seq<string>)
    requires HasColumns(f, cols)
    ensures NormalizeColumns(f, cols).Ok?
    ensures var rv := NormalizeColumns(f, cols).value;
      && |rv.rows| == |f.rows|
      && (forall i, c :: 0 <= i < |f.rows| && c in cols ==>
            c in rv.rows[i] && rv.rows[i][c] == NormalizeCell(f.rows[i][c]))
      && (forall i, c :: 0 <= i < |f.rows| && c in f.rows[i] && c !in cols ==>
            c in rv.rows[i] && rv.rows[i][c] == f.rows[i][c])
    decreases |cols|
  {
    NormalizeColumnsShape(f, cols);
    if cols != [] {
      NormalizeThenRest(f, cols);
      var gv := NormalizeColumn(f, cols[0]).value;
      var rest := cols[1..];
      assert forall c :: c in cols <==> c == cols[0] || c in rest;
      NormalizeColumnsCells(gv, rest);
      var rv := NormalizeColumns(gv, rest).value;
      forall i, c | 0 <= i < |f.rows| && c in cols
        ensures c in rv.rows[i] && rv.rows[i][c] == NormalizeCell(f.rows[i][c])
      {
        assert c in ColumnSet(f.columns);
        if c == cols[0] {
          var x := f.rows[i][c];
          if x.Text? { Text.NormalizeIdempotent(x.s); }
          assert gv.rows[i] == f.rows[i][c := NormalizeCell(x)];
          assert NormalizeCell(gv.rows[i][c]) == NormalizeCell(x);
          assert c in gv.rows[i];
          if c in rest {
            assert rv.rows[i][c] == NormalizeCell(gv.rows[i][c]);
          } else {
            assert rv.rows[i][c] == gv.rows[i][c];
          }
        } else {
          assert gv.rows[i][c] == f.rows[i][c];
        }
      }
      forall i, c | 0 <= i < |f.rows| && c in f.rows[i] && c !in cols
        ensures c in rv.rows[i] && rv.rows[i][c] == f.rows[i][c]
      {
        assert gv.rows[i][c] == f.rows[i][c];
      }
    }
  }

  /** Cleaning the key text a second time changes nothing. */
  lemma NormalizeColumnIdempotent(f: Frame, col: string)
    requires col in f.columns
    ensures NormalizeColumn(NormalizeColumn(f, col).value, col) == NormalizeColumn(f, col)
  {
    var g := NormalizeColumn(f, col).value;
    var h := NormalizeColumn(g, col).value;
    forall i | 0 <= i < |f.rows| ensures h.rows[i] == g.rows[i] {
      var c := f.rows[i][col];
      if c.Text? { Text.NormalizeIdempotent(c.s); }
    }
    assert h.rows == g.rows;
  }

  /** Two key cells whose text differs only in letter case and surrounding whitespace
      are equal once cleaned, so they name the same natural key. */
  lemma SameKeyAfterCleaning(w1: string, s: string, w2: string, w3: string, t: string, w4: string)
    requires Text.AllSpace(w1) && Text.AllSpace(w2) && Text.AllSpace(w3) && Text.AllSpace(w4)
    requires Text.Upper(s) == Text.Upper(t)
    ensures NormalizeCell(Text(w1 + s + w2)) == NormalizeCell(Text(w3 + t + w4))
  {
    Text.PaddingAndCaseIgnored(w1, s, w2, w3, t, w4);
  }

  // ---------------------------------------------------------------------------
  // The period date

  const PERIOD := "reporting_period"
  const PERIOD_DATE := "period_date"

  /** The earliest and latest first-of-month dates a pandas Timestamp can hold,
      as YYYYMM: 1677-10-01 and 2262-04-01. */
  const FIRST_PERIOD := 167710
  const LAST_PERIOD := 226204

  predicate IsDigit(ch: char) { '0' <= ch <= '9' }

  /** The number a string of decimal digits spells. */
  function DigitsValue(s: string): nat
    requires forall i :: 0 <= i < |s| ==> IsDigit(s[i])
  {
    if s == [] then 0
    else
      var init := s[..|s| - 1];
      assert forall i :: 0 <= i < |init| ==> init[i] == s[i];
      assert IsDigit(s[|s| - 1]);
      DigitsValue(init) * 10 + (s[|s| - 1] as int - '0' as int)
  }

  /** The YYYYMM number a period cell spells, when `str(cell) + '01'` can be a
      `%Y%m%d` date at all: six decimal digits, as an integer or as text. */
  function PeriodNumber(c: Cell): (p: Option<int>)
    ensures c.Num? ==> p == if 100000 <= c.n <= 999999 then Some(c.n) else None
    ensures c.Null? || c.Date? ==> p == None
  {
    match c
    case Num(n) => if 100000 <= n <= 999999 then Some(n) else None
    case Text(s) =>
      if |s| == 6 && forall i :: 0 <= i < |s| ==> IsDigit(s[i]) then Some(DigitsValue(s)) else None
    case _ => None
  }

  /** `pd.to_datetime(str(cell) + '01', format='%Y%m%d')` for one cell. */
  function PeriodDate(c: Cell): (d: Option<Cell>)
    ensures d.Some? <==> PeriodNumber(c).Some? && FIRST_PERIOD <= PeriodNumber(c).value <= LAST_PERIOD
                         && 1 <= PeriodNumber(c).value % 100 <= 12
    ensures d.Some? ==> d.value == Date(PeriodNumber(c).value / 100, PeriodNumber(c).value % 100, 1)
  {
    match PeriodNumber(c)
    case Some(n) =>
      if FIRST_PERIOD <= n <= LAST_PERIOD && 1 <= n % 100 <= 12 then Some(Date(n / 100, n % 100, 1)) else None
    case None => None
  }

  function Pow10(w: nat): (p: nat)
    ensures p >= 1
  {
    if w == 0 then 1 else 10 * Pow10(w - 1)
  }

  /** The last `w` decimal digits of `n`, most significant first: `str(n)` for a
      number of exactly `w` digits. */
  function Decimal(n: nat, w: nat): (s: string)
    ensures |s| == w && forall i :: 0 <= i < w ==> IsDigit(s[i])
  {
    if w == 0 then "" else Decimal(n / 10, w - 1) + [('0' as int + n % 10) as char]
  }

  /** Reading back the digits of a number that fits in `w` digits gives the number. */
  lemma {:induction false} DecimalRoundTrip(n: nat, w: nat)
    requires n < Pow10(w)
    ensures DigitsValue(Decimal(n, w)) == n
  {
    if w > 0 {
      var s := Decimal(n, w);
      assert s[..w - 1] == Decimal(n / 10, w - 1);
      assert n / 10 < Pow10(w - 1);
      DecimalRoundTrip(n / 10, w - 1);
    }
  }

  /** The digits of a six-digit number are those of its first four and of its last two. */
  lemma DecimalSplit(n: nat)
    ensures Decimal(n, 6) == Decimal(n / 100, 4) + Decimal(n % 100, 2)
  {
    assert (n % 100) / 10 == (n / 10) % 10 && (n % 100) % 10 == n % 10;
    assert Decimal(n % 100, 2) == [('0' as int + (n / 10) % 10) as char] + [('0' as int + n % 10) as char];
    assert Decimal(n, 6) == Decimal(n / 100, 4) + [('0' as int + (n / 10) % 10) as char] + [('0' as int + n % 10) as char];
  }

  /** The route the script takes for an integer period: `str(n) + '01'` is eight
      digits, `%Y%m%d` reads the first four as the year, the next two as the month
      and the last two as the day, and the date `PeriodDate` gives is that one.
      The same digits read as a text period give the same date. */
  lemma PeriodDateViaText(n: int)
    requires 100000 <= n <= 999999
    ensures var s := Decimal(n, 6) + "01";
      && |s| == 8 && (forall i :: 0 <= i < 8 ==> IsDigit(s[i]))
      && var year, month, day := DigitsValue(s[..4]), DigitsValue(s[4..6]), DigitsValue(s[6..]);
      && day == 1
      && PeriodDate(Num(n)) == (if FIRST_PERIOD <= n <= LAST_PERIOD && 1 <= month <= 12 then Some(Date(year, month, day)) else None)
    ensures PeriodDate(Text(Decimal(n, 6))) == PeriodDate(Num(n))
  {
    PeriodDigits(n);
    DecimalRoundTrip(n, 6);
  }

  lemma PeriodDigits(n: int)
    requires 100000 <= n <= 999999
    ensures var s := Decimal(n, 6) + "01";
      && s[..4] == Decimal(n / 100, 4) && s[4..6] == Decimal(n % 100, 2) && s[6..] == "01"
      && DigitsValue(s[..4]) == n / 100 && DigitsValue(s[4..6]) == n % 100 && DigitsValue(s[6..]) == 1
  {
    var s := Decimal(n, 6) + "01";
    DecimalSplit(n);
    assert s[..4] == Decimal(n / 100, 4) && s[4..6] == Decimal(n % 100, 2);
    DecimalRoundTrip(n / 100, 4);
    DecimalRoundTrip(n % 100, 2);
    assert "01"[..1] == "0" && "0"[..0] == "";
  }

  /** "202301" read as text and 202301 read as a number give the same date. */
  lemma PeriodTextExample()
    ensures PeriodDate(Text("202301")) == PeriodDate(Num(202301)) == Some(Date(2023, 1, 1))
    ensures PeriodDate(Num(202313)) == None && PeriodDate(Num(2023)) == None && PeriodDate(Null) == None
  {
    DigitsExample();
  }

  lemma DigitsExample()
    ensures DigitsValue("202301") == 202301
  {
    assert "202301"[..5] == "20230";
    assert "20230"[..4] == "2023";
    assert "2023"[..3] == "202";
    assert "202"[..2] == "20";
    assert "20"[..1] == "2";
    assert "2"[..0] == "";
  }

  /** The first row whose period does not parse. */
  function FirstBadPeriod(f: Frame): (i: nat)
    requires PERIOD in f.columns
    requires exists i :: 0 <= i < |f.rows| && PeriodDate(f.rows[i][PERIOD]).None?
    ensures i < |f.rows| && PeriodDate(f.rows[i][PERIOD]).None?
    ensures forall j :: 0 <= j < i ==> PeriodDate(f.rows[j][PERIOD]).Some?
  {
    FirstBad(Column(f, PERIOD), 0)
  }

  function FirstBad(vals: seq<Cell>, from: nat): (i: nat)
    requires from <= |vals|
    requires exists i :: from <= i < |vals| && PeriodDate(vals[i]).None?
    requires forall j :: 0 <= j < from ==> PeriodDate(vals[j]).Some?
    ensures from <= i < |vals| && PeriodDate(vals[i]).None?
    ensures forall j :: 0 <= j < i ==> PeriodDate(vals[j]).Some?
    decreases |vals| - from
  {
    if PeriodDate(vals[from]).None? then from else FirstBad(vals, from + 1)
  }

  /** `df['period_date'] = pd.to_datetime(df['reporting_period'].astype(str) + '01', ...)`:
      the whole column converts, or the statement raises on its first bad value. */
  function WithPeriodDate(f: Frame): (r: Result<Frame>)
    ensures r.Ok? <==> PERIOD in f.columns && forall i :: 0 <= i < |f.rows| ==> PeriodDate(f.rows[i][PERIOD]).Some?
    ensures PERIOD !in f.columns ==> r == Err(MissingColumn(PERIOD))
    ensures r.Err? ==> r.error.MissingColumn? || r.error.BadPeriod?
    ensures r.Ok? ==> (r.value.columns == (if PERIOD_DATE in f.columns then f.columns else f.columns + [PERIOD_DATE])
      && |r.value.rows| == |f.rows|
      && forall i :: 0 <= i < |f.rows| ==>
           r.value.rows[i] == f.rows[i][PERIOD_DATE := PeriodDate(f.rows[i][PERIOD]).value])
  {
    if PERIOD !in f.columns then Err(MissingColumn(PERIOD))
    else if exists i :: 0 <= i < |f.rows| && PeriodDate(f.rows[i][PERIOD]).None? then
      Err(BadPeriod(f.rows[FirstBadPeriod(f)][PERIOD]))
    else
      Ok(SetColumn(f, PERIOD_DATE, seq(|f.rows|, i requires 0 <= i < |f.rows| => PeriodDate(f.rows[i][PERIOD]).value)))
  }

  /** A failing conversion reports the first unparsable period, and every period
      before it converts. */
  lemma WithPeriodDateError(f: Frame)
    requires PERIOD in f.columns && WithPeriodDate(f).Err?
    ensures exists i :: (0 <= i < |f.rows| && WithPeriodDate(f) == Err(BadPeriod(f.rows[i][PERIOD]))
      && PeriodDate(f.rows[i][PERIOD]).None?
      && forall j :: 0 <= j < i ==> PeriodDate(f.rows[j][PERIOD]).Some?)
  {
    var i := FirstBadPeriod(f);
    assert WithPeriodDate(f) == Err(BadPeriod(f.rows[i][PERIOD]));
  }

  // ---------------------------------------------------------------------------
  // Zero-filling the metrics

  /** t occurs in s at position i. */
  predicate InfixAt(s: string, t: string, i: int) {
    0 <= i <= |s| - |t| && s[i..i + |t|] == t
  }

  /** Whether t occurs in s: Python's `t in s`. */
  function HasInfix(s: string, t: string): (b: bool)
    ensures b <==> exists i :: InfixAt(s, t, i)
    decreases |s|
  {
    if |s| < |t| then false
    else if s[..|t|] == t then
      assert InfixAt(s, t, 0);
      true
    else
      var b := HasInfix(s[1..], t);
      assert b <==> exists i :: InfixAt(s, t, i) by {
        if b {
          var i :| InfixAt(s[1..], t, i);
          assert s[i + 1..i + 1 + |t|] == s[1..][i..i + |t|];
          assert InfixAt(s, t, i + 1);
        }
        if exists i :: InfixAt(s, t, i) {
          var i :| InfixAt(s, t, i);
          assert i != 0;
          assert s[1..][i - 1..i - 1 + |t|] == s[i..i + |t|];
          assert InfixAt(s[1..], t, i - 1);
        }
      }
      b
  }

  /** `'percent' in col or 'delay' in col`. */
  predicate IsMetric(col: string)
    ensures IsMetric(col) <==> (exists i :: InfixAt(col, "percent", i)) || (exists i :: InfixAt(col, "delay", i))
  {
    HasInfix(col, "percent") || HasInfix(col, "delay")
  }

  function ZeroFillRow(r: Row): (r': Row)
    ensures r'.Keys == r.Keys
    ensures forall c :: c in r ==> (IsMetric(c) ==> r'[c] != Null)
    ensures forall c :: c in r ==> (!IsMetric(c) || r[c] != Null ==> r'[c] == r[c])
    ensures forall c :: c in r ==> (IsMetric(c) && r[c] == Null ==> r'[c] == Num(0))
  {
    map c | c in r :: if IsMetric(c) && r[c] == Null then Num(0) else r[c]
  }

  /** `df[delay_cols] = df[delay_cols].fillna(0)`. */
  function ZeroFilled(f: Frame): (r: Frame)
    ensures r.columns == f.columns && |r.rows| == |f.rows|
    ensures forall i :: 0 <= i < |f.rows| ==> r.rows[i] == ZeroFillRow(f.rows[i])
  {
    Table(f.columns, seq(|f.rows|, i requires 0 <= i < |f.rows| => ZeroFillRow(f.rows[i])))
  }

  /** After the fill no metric cell is null, and a second fill changes nothing. */
  lemma ZeroFilledFacts(f: Frame)
    ensures forall i, c :: 0 <= i < |f.rows| && c in f.rows[i] && IsMetric(c) ==> ZeroFilled(f).rows[i][c] != Null
    ensures ZeroFilled(ZeroFilled(f)) == ZeroFilled(f)
  {
    var g := ZeroFilled(f);
    forall i | 0 <= i < |f.rows| ensures ZeroFillRow(g.rows[i]) == g.rows[i] {
    }
  }

  /** A text with a letter `s` lacks does not occur in `s`. */
  lemma MissingLetter(s: string, t: string, j: nat)
    requires j < |t| && t[j] !in s
    ensures !exists i :: InfixAt(s, t, i)
  {
    forall i ensures !InfixAt(s, t, i) {
      if 0 <= i <= |s| - |t| {
        assert s[i..i + |t|][j] == s[i + j];
      }
    }
  }

  /** Columns with "percent" or "delay" in their name are metric columns. */
  lemma MetricColumnsExample()
    ensures IsMetric("flights_unmatched_percent") && IsMetric("average_delay_mins")
    ensures IsMetric("previous_year_month_average_delay")
  {
    assert InfixAt("flights_unmatched_percent", "percent", 18);
    assert InfixAt("average_delay_mins", "delay", 8);
    assert InfixAt("previous_year_month_average_delay", "delay", 28);
  }

  /** A count column and a key column are not metric columns. */
  lemma NonMetricColumnsExample()
    ensures !IsMetric("number_flights_matched") && !IsMetric("reporting_airport")
  {
    MissingLetter("number_flights_matched", "percent", 0);
    MissingLetter("number_flights_matched", "delay", 4);
    MissingLetter("reporting_airport", "percent", 3);
    MissingLetter("reporting_airport", "delay", 4);
  }

  // ---------------------------------------------------------------------------
  // The fact table

  /** The columns of a fact table, in their order. */
  const FACT_COLUMNS: seq<string> := [
    "date_id", "airport_id", "airline_id", "route_id", "flight_type_id",
    "number_flights_matched", "actual_flights_unmatched", "number_flights_cancelled",
    "flights_more_than_15_minutes_early_percent",
    "flights_15_minutes_early_to_1_minute_early_percent",
    "flights_0_to_15_minutes_late_percent",
    "flights_between_16_and_30_minutes_late_percent",
    "flights_between_31_and_60_minutes_late_percent",
    "flights_between_61_and_120_minutes_late_percent",
    "flights_between_121_and_180_minutes_late_percent",
    "flights_between_181_and_360_minutes_late_percent",
    "flights_more_than_360_minutes_late_percent",
    "flights_unmatched_percent", "flights_cancelled_percent",
    "average_delay_mins",
    "previous_year_month_flights_matched",
    "previous_year_month_early_to_15_mins_late_percent",
    "previous_year_month_average_delay"
  ]

  function Restrict(r: Row, cols: seq<string>): (r': Row)
    requires RowHas(r, cols)
    ensures r'.Keys == ColumnSet(cols)
    ensures forall c :: c in cols ==> r'[c] == r[c]
  {
    map c | c in ColumnSet(cols) :: r[c]
  }

  /** `df[cols]`: those columns in that order, or a KeyError naming a missing one. */
  function Project(f: Frame, cols: seq<string>): (r: Result<Frame>)
    ensures r.Ok? <==> HasColumns(f, cols)
    ensures !HasColumns(f, cols) ==> r == Err(MissingColumn(FirstMissing(f.columns, cols)))
    ensures r.Ok? ==> (r.value.columns == cols && |r.value.rows| == |f.rows|
      && forall i, c :: 0 <= i < |f.rows| && c in cols ==> c in r.value.rows[i] && r.value.rows[i][c] == f.rows[i][c])
  {
    if !HasColumns(f, cols) then Err(MissingColumn(FirstMissing(f.columns, cols)))
    else
      assert forall i :: 0 <= i < |f.rows| ==> RowHas(f.rows[i], cols) by {
        assert forall c :: c in cols ==> c in ColumnSet(f.columns);
      }
      Ok(Table(cols, seq(|f.rows|, i requires 0 <= i < |f.rows| => Restrict(f.rows[i], cols))))
  }

  // ---------------------------------------------------------------------------
  // The whole preparation

  /** Everything a file goes through before its keys are resolved, in the scripts'
      order; `run_date` is kept as read. */
  function Prepare(f: Frame): (r: Result<Frame>)
    ensures r.Err? ==> r.error.MissingColumn? || r.error.BadPeriod?
    ensures r.Ok? ==> forall c :: c in f.columns ==> c in r.value.columns
    ensures r.Ok? ==> forall k :: 0 <= k < |REQUIRED| ==> REQUIRED[k].0 in r.value.columns
  {
    var g := Backfilled(f);
    assert forall c :: c in f.columns ==> c in g.columns[..|f.columns|];
    CleanBatch(g)
  }

  /** `read_csv` gives `reporting_period` the float dtype when the column holds
      numbers and has a gap. The dtype stays after `dropna`. */
  predicate PeriodReadAsFloat(f: Frame) {
    && PERIOD in f.columns
    && (exists i :: 0 <= i < |f.rows| && f.rows[i][PERIOD].Null?)
    && forall i :: 0 <= i < |f.rows| ==> f.rows[i][PERIOD].Null? || f.rows[i][PERIOD].Num?
  }

  /** The date conversion on a float period column: `astype(str)` writes every
      period with a decimal point (`202301.0`), which `%Y%m%d` refuses, so the
      first row, if there is one, raises. */
  function FloatPeriodDate(f: Frame): (r: Result<Frame>)
    requires PERIOD in f.columns
    ensures |f.rows| == 0 ==> r == WithPeriodDate(f)
    ensures |f.rows| > 0 ==> r == Err(BadPeriod(f.rows[0][PERIOD]))
  {
    if |f.rows| == 0 then WithPeriodDate(f)
    else
      assert PERIOD in ColumnSet(f.columns);
      Err(BadPeriod(f.rows[0][PERIOD]))
  }

  /** A file whose period column was read as float fails at the date conversion
      once its key columns are there and a row survives the drop: none of its
      keys is registered. */
  lemma FloatPeriodFailsFile(g: Frame)
    requires PeriodReadAsFloat(g) && HasColumns(g, KEY_TEXT)
    requires DropIncomplete(g).Ok? && |DropIncomplete(g).value.rows| > 0
    ensures CleanBatch(g).Err? && CleanBatch(g).error.BadPeriod?
  {
    var h := DropIncomplete(g).value;
    assert HasColumns(h, KEY_TEXT);
    NormalizeColumnsShape(h, KEY_TEXT);
  }

  /** The steps after the backfill: drop, normalise, derive the date, zero-fill.
      They raise only a `KeyError` or a period conversion error, and add only the
      `period_date` column. */
  function CleanBatch(g: Frame): (r: Result<Frame>)
    ensures r.Err? ==> r.error.MissingColumn? || r.error.BadPeriod?
    ensures r.Ok? ==> forall c :: c in r.value.columns <==> c in g.columns || c == PERIOD_DATE
  {
    var h :- DropIncomplete(g);
    var n :- NormalizeColumns(h, KEY_TEXT);
    var p :- if PeriodReadAsFloat(g) then FloatPeriodDate(n) else WithPeriodDate(n);
    Ok(ZeroFilled(p))
  }
}
