/** Data frames as the scripts see them: an ordered list of column names and a
    sequence of rows, each row a record from column name to cell. */
module Frames {

  datatype Option<+T> = None | Some(value: T)

  /** One cell. pandas' NaN, NaT and None are all `Null`; metric values are
      abstract integers (floating point is not modelled). */
  datatype Cell = Null | Text(s: string) | Num(n: int) | Date(year: int, month: int, day: int)

  type Row = map<string, Cell>

  datatype Table = Table(columns: seq<string>, rows: seq<Row>)

  function ColumnSet(cols: seq<string>): set<string> {
    set c | c in cols
  }

  /** Every row holds exactly the frame's columns. */
  ghost predicate Rectangular(t: Table) {
    forall i :: 0 <= i < |t.rows| ==> t.rows[i].Keys == ColumnSet(t.columns)
  }

  type Frame = t: Table | Rectangular(t) witness Table([], [])

  /** The exceptions the scripts can raise while handling one file. */
  datatype Error =
    | Unreadable                 // read_csv raised
    | MissingColumn(name: string) // KeyError
    | BadPeriod(value: Cell)     // to_datetime could not parse a reporting period
    | SuffixClash(column: string) // merge's suffixes would duplicate a column
    | NothingToConcatenate       // pd.concat of an empty list
    | NameNotFound(matched: Cell) // .values[0] of an empty selection
    | QueryNotText(query: Cell)  // TypeError: the fuzzy matcher's clean-up of a query that is not a string

  datatype Result<+T> = Ok(value: T) | Err(error: Error) {
    predicate IsFailure() { Err? }
    function PropagateFailure<U>(): Result<U>
      requires Err?
    {
      Err(error)
    }
    function Extract(): T
      requires Ok?
    {
      value
    }
  }

  /** The row has a cell for every one of `cols`. */
  predicate RowHas(r: Row, cols: seq<string>) {
    forall c :: c in cols ==> c in r
  }

  predicate HasColumns(t: Table, cols: seq<string>) {
    forall c :: c in cols ==> c in t.columns
  }

  /** The first of `cols` missing from `have`: the name pandas' KeyError reports first. */
  function FirstMissing(have: seq<string>, cols: seq<string>): (c: string)
    requires !(forall c :: c in cols ==> c in have)
    ensures c in cols && c !in have
  {
    if cols[0] !in have then cols[0] else FirstMissing(have, cols[1..])
  }

  /** The values of one column, top to bottom. */
  function Column(f: Frame, name: string): (vals: seq<Cell>)
    requires name in f.columns
    ensures |vals| == |f.rows|
    ensures forall i :: 0 <= i < |f.rows| ==> name in f.rows[i] && vals[i] == f.rows[i][name]
  {
    seq(|f.rows|, i requires 0 <= i < |f.rows| => f.rows[i][name])
  }

  /** `df[name] = vals`: overwrite the column in place, or append it as the last column. */
  function SetColumn(f: Frame, name: string, vals: seq<Cell>): (r: Frame)
    requires |vals| == |f.rows|
    ensures r.columns == if name in f.columns then f.columns else f.columns + [name]
    ensures |r.rows| == |f.rows|
    ensures forall i :: 0 <= i < |f.rows| ==> r.rows[i] == f.rows[i][name := vals[i]]
  {
    var cols := if name in f.columns then f.columns else f.columns + [name];
    assert ColumnSet(cols) == ColumnSet(f.columns) + {name};
    Table(cols, seq(|f.rows|, i requires 0 <= i < |f.rows| => f.rows[i][name := vals[i]]))
  }
}
