/** The two scripts end to end: the newer one collects the fact tables,
    concatenates them and matches airport codes; the older one only threads the
    masters through the files. */
module Scripts {
  import opened Frames
  import opened Pipeline
  import Runs
  import Extract
  import Iata

  /** The reference list the newer script matches against: as written, the rows
      without a code or without a usable code are dropped; `strict` also drops the
      rows without a name, the clean-up the lookup by name needs. */
  function Reference(rawRefs: seq<Iata.RefRow>, strict: bool): seq<Iata.RefRow> {
    if strict then Iata.FilterReferenceStrict(rawRefs) else Iata.FilterReference(rawRefs)
  }

  /** The newer script: clean the reference list, process every file from empty
      masters, concatenate the fact tables (which raises when no file succeeded,
      and then the airport pass never runs), then match every airport against the
      reference names from a null code. The pass stops the script at the first
      airport whose lookup raises (`failedAt`): the airports before it carry their
      computed codes and the rest stay null. With the strict clean-up it raises
      only at an airport whose name is not a string, and at the first one. */
  method RunNew(files: seq<Option<Frame>>, rawRefs: seq<Iata.RefRow>, score: (Cell, Cell) -> Iata.Score, strict: bool)
    returns (p: Pipeline, outcomes: seq<Result<Frame>>, all: Result<Frame>, failedAt: Option<nat>)
    ensures fresh(p) && p.Valid()
    ensures Trace(p.State(), outcomes) == Run(EMPTY, files)
    ensures p.facts == Successes(outcomes)
    ensures forall i :: 0 <= i < |p.facts| ==> p.facts[i].columns == Extract.FACT_COLUMNS
    ensures all == Concat(p.facts)
    ensures all.Err? ==> failedAt.None? && p.iataCodes == Nulls(|p.airport|)
    ensures all.Ok? && failedAt.None? ==> forall i :: 0 <= i < |p.airport| ==>
      CodeAfter(AirportName(p.airport, i), Null, Reference(rawRefs, strict), score) == Ok(p.iataCodes[i])
    ensures all.Ok? && failedAt.Some? ==> (
      && failedAt.value < |p.airport|
      && CodeAfter(AirportName(p.airport, failedAt.value), Null, Reference(rawRefs, strict), score).Err?
      && (forall i :: 0 <= i < failedAt.value ==>
            CodeAfter(AirportName(p.airport, i), Null, Reference(rawRefs, strict), score) == Ok(p.iataCodes[i]))
      && forall i :: failedAt.value <= i < |p.airport| ==> p.iataCodes[i] == Null)
    ensures all.Ok? && strict ==> (failedAt.None? <==>
      Reference(rawRefs, strict) == [] || forall i :: 0 <= i < |p.airport| ==> AirportName(p.airport, i).Text?)
    ensures all.Ok? && strict && failedAt.Some? ==>
      && !AirportName(p.airport, failedAt.value).Text?
      && forall i :: 0 <= i < failedAt.value ==> AirportName(p.airport, i).Text?
  {
    var refs := Reference(rawRefs, strict);
    p := new Pipeline();
    outcomes := p.ProcessAll(files);
    Runs.EmptyHealthy();
    Runs.RunSuccessColumns(EMPTY, files);
    all := Concat(p.facts);
    assert p.iataCodes == [] + Nulls(|p.iataCodes|);
    if all.Err? {
      return p, outcomes, all, None;
    }
    failedAt := p.MatchIataCodes(refs, score);
    if strict {
      forall i | 0 <= i < |p.airport|
        ensures CodeAfter(AirportName(p.airport, i), Null, refs, score).Ok? <==> refs == [] || AirportName(p.airport, i).Text?
      {
        CodeAfterNamed(AirportName(p.airport, i), Null, refs, score);
      }
    }
  }

  /** The older script: every file from empty masters, the same per-file steps;
      the masters it ends with are registries whose ids are 1 .. n. */
  method RunLegacy(files: seq<Option<Frame>>) returns (masters: Masters, outcomes: seq<Result<Frame>>)
    ensures Trace(masters, outcomes) == Run(EMPTY, files)
    ensures Healthy(masters)
  {
    var p := new Pipeline();
    outcomes := p.ProcessAll(files);
    masters := p.State();
  }
}
