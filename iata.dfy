/** The airport-code post-pass of the newer script: a cleaned reference list of
    airport names and their three-character codes, the best fuzzy match of an
    airport name against it, and the code that match yields. */
module Iata {
  import opened Frames
  import Text
  import Extract

  /** The two reference columns the matcher reads: `name` and `iata_code`. */
  datatype RefRow = RefRow(name: Cell, code: Cell)

  /** `iata_code.notnull() & (iata_code.str.len() == 3)`: the length of a non-text
      cell is NaN, which is not 3. */
  predicate UsableCode(c: Cell) {
    c.Text? && |c.s| == 3
  }

  /** What a reference row looks like after the clean-up: a usable code, and a
      name that is null or trimmed, upper-cased text. */
  predicate Cleaned(r: RefRow) {
    UsableCode(r.code) && (r.name.Null? || (r.name.Text? && Text.IsNormal(r.name.s)))
  }

  function CleanRow(r: RefRow): (c: RefRow)
    ensures UsableCode(r.code) ==> Cleaned(c)
  {
    RefRow(Extract.NormalizeCell(r.name), r.code)
  }

  /** A reference row whose name can be compared with a matched name. */
  predicate Named(r: RefRow) {
    r.name.Text?
  }

  /** Whether the clean-up keeps a raw reference row: the script asks for a usable
      code; the strict variant also asks for a name. */
  predicate Kept(r: RefRow, strict: bool) {
    UsableCode(r.code) && (strict ==> Named(r))
  }

  /** Filter the raw reference rows, then clean the names. */
  function CleanReference(raw: seq<RefRow>, strict: bool): (refs: seq<RefRow>)
    ensures |refs| <= |raw|
    ensures forall i :: 0 <= i < |refs| ==> Cleaned(refs[i]) && (strict ==> Named(refs[i]))
  {
    if raw == [] then []
    else (if Kept(raw[0], strict) then [CleanRow(raw[0])] else []) + CleanReference(raw[1..], strict)
  }

  /** The clean-up goes row by row and keeps the reference order. */
  lemma {:induction false} CleanReferenceAppend(a: seq<RefRow>, b: seq<RefRow>, strict: bool)
    ensures CleanReference(a + b, strict) == CleanReference(a, strict) + CleanReference(b, strict)
    decreases |a|
  {
    if a == [] {
      assert a + b == b;
    } else {
      assert (a + b)[1..] == a[1..] + b;
      CleanReferenceAppend(a[1..], b, strict);
    }
  }

  /** The cleaned list holds exactly the cleaned forms of the rows the filter keeps. */
  lemma {:induction false} CleanReferenceMembers(raw: seq<RefRow>, strict: bool)
    ensures forall r :: r in CleanReference(raw, strict) <==>
              exists j :: 0 <= j < |raw| && Kept(raw[j], strict) && r == CleanRow(raw[j])
    decreases |raw|
  {
    if raw != [] {
      CleanReferenceMembers(raw[1..], strict);
      forall r ensures r in CleanReference(raw, strict) <==>
          exists j :: 0 <= j < |raw| && Kept(raw[j], strict) && r == CleanRow(raw[j])
      {
        if r in CleanReference(raw[1..], strict) {
          var j :| 0 <= j < |raw[1..]| && Kept(raw[1..][j], strict) && r == CleanRow(raw[1..][j]);
          assert raw[j + 1] == raw[1..][j];
        }
        if exists j :: 0 <= j < |raw| && Kept(raw[j], strict) && r == CleanRow(raw[j]) {
          var j :| 0 <= j < |raw| && Kept(raw[j], strict) && r == CleanRow(raw[j]);
          if j > 0 { assert raw[1..][j - 1] == raw[j]; }
        }
      }
    }
  }

  /** The reference clean-up as the script writes it (filter on the code, then
      `name.str.strip().str.upper()`): rows with a null name survive. */
  function FilterReference(raw: seq<RefRow>): (refs: seq<RefRow>)
    ensures forall i :: 0 <= i < |refs| ==> Cleaned(refs[i])
  {
    CleanReference(raw, false)
  }

  /** The clean-up as evidently intended: rows without a name are dropped as well,
      since a nameless row can never be looked up by name. */
  function FilterReferenceStrict(raw: seq<RefRow>): (refs: seq<RefRow>)
    ensures forall i :: 0 <= i < |refs| ==> Cleaned(refs[i]) && Named(refs[i])
  {
    CleanReference(raw, true)
  }

  /** A fuzzy similarity score, 0 to 100. */
  type Score = x: int | 0 <= x <= 100

  /** Python's `max(..., key=score)` over the references: the first row with the
      highest score against the query. */
  function BestIndex(query: Cell, refs: seq<RefRow>, score: (Cell, Cell) -> Score): (b: nat)
    requires refs != []
    ensures b < |refs|
    ensures forall j :: 0 <= j < |refs| ==> score(query, refs[j].name) <= score(query, refs[b].name)
    ensures forall j :: 0 <= j < b ==> score(query, refs[j].name) < score(query, refs[b].name)
  {
    BestFrom(query, refs, score, 1, 0)
  }

  function BestFrom(query: Cell, refs: seq<RefRow>, score: (Cell, Cell) -> Score, i: nat, best: nat): (b: nat)
    requires best < i <= |refs|
    requires forall j :: 0 <= j < i ==> score(query, refs[j].name) <= score(query, refs[best].name)
    requires forall j :: 0 <= j < best ==> score(query, refs[j].name) < score(query, refs[best].name)
    ensures b < |refs|
    ensures forall j :: 0 <= j < |refs| ==> score(query, refs[j].name) <= score(query, refs[b].name)
    ensures forall j :: 0 <= j < b ==> score(query, refs[j].name) < score(query, refs[b].name)
    decreases |refs| - i
  {
    if i == |refs| then best
    else if score(query, refs[i].name) > score(query, refs[best].name) then BestFrom(query, refs, score, i + 1, i)
    else BestFrom(query, refs, score, i + 1, best)
  }

  /** `process.extractOne(query, names)`: None for no names; otherwise the query
      is cleaned up first, which raises a `TypeError` unless it is a string, and then
      the best name and its score. */
  function ExtractOne(query: Cell, refs: seq<RefRow>, score: (Cell, Cell) -> Score): (r: Result<Option<(Cell, Score)>>)
    ensures refs == [] ==> r == Ok(None)
    ensures refs != [] && !query.Text? ==> r == Err(QueryNotText(query))
    ensures r.Ok? && r.value.None? ==> refs == []
    ensures r.Ok? && r.value.Some? ==> exists b :: 0 <= b < |refs| && r.value.value == (refs[b].name, score(query, refs[b].name))
    ensures r.Ok? && r.value.Some? ==> forall j :: 0 <= j < |refs| ==> score(query, refs[j].name) <= r.value.value.1
  {
    if refs == [] then Ok(None)
    else if !query.Text? then Err(QueryNotText(query))
    else
      var b := BestIndex(query, refs, score);
      Ok(Some((refs[b].name, score(query, refs[b].name))))
  }

  /** pandas `==` between a name and the matched name: NaN equals nothing. */
  predicate SameName(a: Cell, b: Cell) {
    !a.Null? && a == b
  }

  /** The first reference row whose name equals `name`. */
  function FirstNamed(refs: seq<RefRow>, name: Cell): (i: nat)
    requires exists j :: 0 <= j < |refs| && SameName(refs[j].name, name)
    ensures i < |refs| && SameName(refs[i].name, name)
    ensures forall j :: 0 <= j < i ==> !SameName(refs[j].name, name)
  {
    if SameName(refs[0].name, name) then 0
    else
      assert exists j :: 0 <= j < |refs[1..]| && SameName(refs[1..][j].name, name) by {
        var j :| 0 <= j < |refs| && SameName(refs[j].name, name);
        assert refs[1..][j - 1] == refs[j];
      }
      1 + FirstNamed(refs[1..], name)
  }

  /** `iata_df.loc[iata_df['name'] == match, 'iata_code'].values[0]`. */
  function CodeOf(refs: seq<RefRow>, name: Cell): (r: Result<Cell>)
    ensures r.Ok? <==> exists j :: 0 <= j < |refs| && SameName(refs[j].name, name)
    ensures r.Err? ==> r == Err(NameNotFound(name))
    ensures r.Ok? ==> r.value == refs[FirstNamed(refs, name)].code
  {
    if exists j :: 0 <= j < |refs| && SameName(refs[j].name, name) then Ok(refs[FirstNamed(refs, name)].code)
    else Err(NameNotFound(name))
  }

  /** A match is accepted only above this score. */
  const THRESHOLD := 80

  /** What the pass does to one airport: leave its code as it is, or write a code. */
  datatype Outcome = Keep | Assign(code: Cell)

  /** One iteration of the matching loop: no names keeps the airport's code; an
      airport name that is not a string raises; a best score of at most 80 keeps
      the code; otherwise the code of the first reference row named like the match
      is written, and a match without a name raises. */
  function MatchCode(query: Cell, refs: seq<RefRow>, score: (Cell, Cell) -> Score): (r: Result<Outcome>)
    ensures refs == [] ==> r == Ok(Keep)
    ensures refs != [] && !query.Text? ==> r == Err(QueryNotText(query))
    ensures refs != [] && query.Text? ==> var best := refs[BestIndex(query, refs, score)];
      && (r == Ok(Keep) <==> score(query, best.name) <= THRESHOLD)
      && (r.Err? <==> score(query, best.name) > THRESHOLD && best.name.Null?)
      && (r.Err? ==> r == Err(NameNotFound(Null)))
      && (r.Ok? && r.value.Assign? ==> r.value.code == refs[FirstNamed(refs, best.name)].code)
  {
    var found :- ExtractOne(query, refs, score);
    match found
    case None => Ok(Keep)
    case Some((name, s)) =>
      if s > THRESHOLD then
        var code :- CodeOf(refs, name);
        Ok(Assign(code))
      else Ok(Keep)
  }

  /** The codes the pass can write: with the intended clean-up it raises only on an
      airport name that is not a string, and every code it writes is one a
      reference row has, three characters long. */
  lemma MatchCodeNamedFailsOnlyOnNonText(query: Cell, refs: seq<RefRow>, score: (Cell, Cell) -> Score)
    requires forall i :: 0 <= i < |refs| ==> Cleaned(refs[i]) && Named(refs[i])
    ensures MatchCode(query, refs, score).Err? <==> refs != [] && !query.Text?
    ensures MatchCode(query, refs, score).Ok? && MatchCode(query, refs, score).value.Assign? ==>
              UsableCode(MatchCode(query, refs, score).value.code)
              && exists j :: 0 <= j < |refs| && MatchCode(query, refs, score).value.code == refs[j].code
  {
    if refs != [] && query.Text? {
      var b := BestIndex(query, refs, score);
      assert SameName(refs[b].name, refs[b].name);
    }
  }

  /** An airport whose name is not a string stops the pass at the first reference
      list with a row in it, whatever the clean-up. */
  lemma NonTextAirportRaises()
    ensures var refs := [RefRow(Text("HEATHROW"), Text("LHR"))];
      MatchCode(Null, refs, (q, n) => 100) == Err(QueryNotText(Null))
      && MatchCode(Null, [], (q, n) => 100) == Ok(Keep)
  {
  }

  /** Among reference rows with the same name, the first one's code wins, even when
      a later one is the row the scorer chose. */
  lemma FirstOfSameNameWins()
    ensures var refs := [RefRow(Text("HEATHROW"), Text("LHR")), RefRow(Text("HEATHROW"), Text("XXX"))];
      MatchCode(Text("HEATHROW"), refs, (q, n) => if n == Text("HEATHROW") then 100 else 0) == Ok(Assign(Text("LHR")))
  {
    var refs := [RefRow(Text("HEATHROW"), Text("LHR")), RefRow(Text("HEATHROW"), Text("XXX"))];
    var score: (Cell, Cell) -> Score := (q, n) => if n == Text("HEATHROW") then 100 else 0;
    assert SameName(refs[0].name, Text("HEATHROW"));
    assert FirstNamed(refs, Text("HEATHROW")) == 0;
  }

  /** The flaw of the as-written clean-up: a reference row with a code but no name
      survives it (the scorer sees the null as the text "nan"); if it scores best
      and above 80, the script's lookup by name finds no row and raises. The
      intended clean-up drops that row, and the airport keeps its null code. */
  lemma NamelessReferenceBreaksLookup()
    ensures var raw := [RefRow(Null, Text("NAN"))];
      var score: (Cell, Cell) -> Score := (q, n) => if n == Null then 90 else 0;
      && FilterReference(raw) == [RefRow(Null, Text("NAN"))]
      && MatchCode(Text("NANTES"), FilterReference(raw), score) == Err(NameNotFound(Null))
      && FilterReferenceStrict(raw) == []
      && MatchCode(Text("NANTES"), FilterReferenceStrict(raw), score) == Ok(Keep)
  {
    var raw := [RefRow(Null, Text("NAN"))];
    assert Kept(raw[0], false) && !Kept(raw[0], true);
    assert CleanReference(raw, false) == [CleanRow(raw[0])] + CleanReference([], false);
    assert CleanReference(raw, true) == [] + CleanReference([], true);
  }
}
