/** The result writer: the results file gets the `all_cols` header once, then
    each event's rows as soon as that event is done, in event order; the
    errors file gets one line per error record. An uncaught fault ends the
    run, and whatever was appended before it stays in the files. */
module Results {
  import opened Wrappers
  import opened Frames
  import opened Schema
  import opened Events

  /** Lines appended to the results and errors files during one run, and
      the fault that ended the run early, if one did. */
  datatype RunOutcome = RunOutcome(results: seq<Row>, errors: seq<Row>, fault: Option<Fault>)

  /** What `get_event_results` gives for one event of the list. */
  type Outcome = Result<EventOutcome, Fault>

  /** `csv_errs.writerow([err, event, url])`. */
  function ErrorLine(e: ErrorRecord): (line: Row)
    ensures |line| == 3 && line[0] == e.message && line[1] == e.eventId && line[2] == e.url
  {
    [e.message, e.eventId, e.url]
  }

  function ErrorLines(errs: seq<ErrorRecord>): (lines: seq<Row>)
    ensures |lines| == |errs|
    ensures forall k :: 0 <= k < |errs| ==> lines[k] == ErrorLine(errs[k])
  {
    seq(|errs|, k requires 0 <= k < |errs| => ErrorLine(errs[k]))
  }

  /** The outcome of every event of the list, against the `all_cols` schema. */
  function Outcomes(events: seq<EventFetch>): (os: seq<Outcome>)
    ensures |os| == |events|
    ensures forall k :: 0 <= k < |events| ==> os[k] == EventResult(events[k], AllCols)
  {
    seq(|events|, k requires 0 <= k < |events| => EventResult(events[k], AllCols))
  }

  /** The rows an outcome adds to the results file (none for a fault). */
  function RowsOfOutcome(o: Outcome): seq<Row>
  {
    if o.Success? then o.value.frame.rows else []
  }

  /** The lines an outcome adds to the errors file (none for a fault). */
  function ErrorsOfOutcome(o: Outcome): seq<Row>
  {
    if o.Success? then ErrorLines(o.value.errors) else []
  }

  /** How many outcomes, from the start of the list, are not faults: all of
      them, or all up to the first fault. */
  function Completed(os: seq<Outcome>): (n: nat)
    ensures n <= |os|
    ensures forall k :: 0 <= k < n ==> os[k].Success?
    ensures n < |os| ==> os[n].Failure?
  {
    if |os| == 0 then 0
    else if os[0].Failure? then 0
    else 1 + Completed(os[1..])
  }

  /** The rows each completed event contributes, in event order. */
  function RowBlocks(os: seq<Outcome>): (blocks: seq<seq<Row>>)
    ensures |blocks| == Completed(os)
    ensures forall k :: 0 <= k < |blocks| ==> blocks[k] == RowsOfOutcome(os[k])
  {
    var n := Completed(os);
    seq(n, k requires 0 <= k < n => RowsOfOutcome(os[k]))
  }

  /** The error lines each completed event contributes, in event order. */
  function ErrorBlocks(os: seq<Outcome>): (blocks: seq<seq<Row>>)
    ensures |blocks| == Completed(os)
    ensures forall k :: 0 <= k < |blocks| ==> blocks[k] == ErrorsOfOutcome(os[k])
  {
    var n := Completed(os);
    seq(n, k requires 0 <= k < n => ErrorsOfOutcome(os[k]))
  }

  /** The fault that ended the run, if any: that of the first faulting event. */
  function RunFault(os: seq<Outcome>): (f: Option<Fault>)
    ensures f.None? <==> Completed(os) == |os|
  {
    var n := Completed(os);
    if n < |os| then Some(os[n].error) else None
  }

  /** The whole run, given the outcome of each event in list order. */
  function RunOf(os: seq<Outcome>): RunOutcome
  {
    RunOutcome([AllCols] + Flatten(RowBlocks(os)), Flatten(ErrorBlocks(os)), RunFault(os))
  }

  /** The whole run over an event list. */
  function Run(events: seq<EventFetch>): RunOutcome
  {
    RunOf(Outcomes(events))
  }

  /** Lines 318-326 of the script: write the header, then for each event
      append its rows (`to_csv(header=False)`); error records are appended
      as `get_event_results` writes them. The loop stops at a fault. */
  method WriteResults(events: seq<EventFetch>) returns (results: seq<Row>, errors: seq<Row>, fault: Option<Fault>)
    ensures RunOutcome(results, errors, fault) == Run(events)
  {
    var os := Outcomes(events);
    results, errors, fault := WriteOutcomes(os);
  }

  /** The writing loop over the events' outcomes. */
  method WriteOutcomes(os: seq<Outcome>) returns (results: seq<Row>, errors: seq<Row>, fault: Option<Fault>)
    ensures results == [AllCols] + Flatten(RowBlocks(os))
    ensures errors == Flatten(ErrorBlocks(os))
    ensures fault == RunFault(os)
  {
    results := [AllCols];
    errors := [];
    fault := None;
    var i := 0;
    while i < |os|
      invariant 0 <= i <= Completed(os)
      invariant fault.None?
      invariant results == [AllCols] + Flatten(RowBlocks(os)[..i])
      invariant errors == Flatten(ErrorBlocks(os)[..i])
    {
      var r := os[i];
      if r.Failure? {
        fault := Some(r.error);
        break;
      }
      FlattenSnoc(RowBlocks(os), i);
      FlattenSnoc(ErrorBlocks(os), i);
      results := results + r.value.frame.rows;
      errors := errors + ErrorLines(r.value.errors);
      i := i + 1;
    }
    assert RowBlocks(os)[..i] == RowBlocks(os);
    assert ErrorBlocks(os)[..i] == ErrorBlocks(os);
  }

  lemma FlattenSnoc<T>(blocks: seq<seq<T>>, i: nat)
    requires i < |blocks|
    ensures Flatten(blocks[..i + 1]) == Flatten(blocks[..i]) + blocks[i]
  {
    assert blocks[..i + 1] == blocks[..i] + [blocks[i]];
    FlattenAppend(blocks[..i], [blocks[i]]);
    assert Flatten([blocks[i]]) == blocks[i] + Flatten([]);
  }

  /** The header comes first and only once; then every completed event's
      rows, unbroken and in event order. */
  lemma EventRowsContiguous(os: seq<Outcome>, k: nat)
    requires k < Completed(os)
    ensures var out := RunOf(os).results;
            var rows := os[k].value.frame.rows;
            var start := 1 + Offset(RowBlocks(os), k);
            && out[0] == AllCols
            && start + |rows| <= |out|
            && out[start..start + |rows|] == rows
  {
    HeaderThenBlock(AllCols, RowBlocks(os), k);
  }

  lemma HeaderThenBlock<T>(h: T, blocks: seq<seq<T>>, k: nat)
    requires k < |blocks|
    ensures var out := [h] + Flatten(blocks);
            var start := 1 + Offset(blocks, k);
            && out[0] == h
            && start + |blocks[k]| <= |out|
            && out[start..start + |blocks[k]|] == blocks[k]
  {
    FlattenBlock(blocks, k);
    var start := Offset(blocks, k);
    assert ([h] + Flatten(blocks))[1 + start..1 + start + |blocks[k]|] ==
           Flatten(blocks)[start..start + |blocks[k]|];
  }

  /** The results file holds one header line plus every completed event's rows. */
  lemma ResultsLength(os: seq<Outcome>)
    ensures |RunOf(os).results| == 1 + TotalLength(RowBlocks(os))
  {
    FlattenLength(RowBlocks(os));
  }

  /** No deduplication: an event listed twice has its rows written twice. */
  lemma DuplicateEventWrittenTwice(o: Outcome)
    requires o.Success?
    ensures RunOf([o, o]).results == [AllCols] + o.value.frame.rows + o.value.frame.rows
  {
    var rows := o.value.frame.rows;
    assert [o, o][1..] == [o];
    assert [o][1..] == [];
    assert Completed([o, o]) == 2;
    var blocks := RowBlocks([o, o]);
    assert blocks == [rows, rows];
    assert Flatten(blocks) == rows + Flatten([rows]);
    assert Flatten([rows]) == rows + Flatten([]);
  }

  /** A fault in event `k` ends the run: the results file keeps the header
      and the rows of the events before `k`, and nothing after. */
  lemma FaultStopsRun(os: seq<Outcome>, k: nat)
    requires k < |os| && os[k].Failure?
    requires forall j :: 0 <= j < k ==> os[j].Success?
    ensures Completed(os) == k
    ensures RunOf(os).fault == Some(os[k].error)
    ensures RunOf(os).results ==
              [AllCols] + Flatten(seq(k, j requires 0 <= j < k => os[j].value.frame.rows))
  {
    CompletedUpTo(os, k);
    var before := seq(k, j requires 0 <= j < k => os[j].value.frame.rows);
    var blocks := RowBlocks(os);
    assert |blocks| == |before|;
    forall j | 0 <= j < k
      ensures blocks[j] == before[j]
    {
      assert os[j].Success?;
      assert blocks[j] == RowsOfOutcome(os[j]);
    }
    assert blocks == before;
  }

  lemma {:induction false} CompletedUpTo(os: seq<Outcome>, k: nat)
    requires k < |os| && os[k].Failure?
    requires forall j :: 0 <= j < k ==> os[j].Success?
    ensures Completed(os) == k
  {
    if k > 0 {
      CompletedUpTo(os[1..], k - 1);
    }
  }

  /** An event whose page has no race blocks contributes no rows and exactly
      one error line naming it and its URL; any other completed event
      contributes no error line. */
  lemma ErrorLinesOfEvent(e: EventFetch)
    requires EventResult(e, AllCols).Success?
    ensures var o := EventResult(e, AllCols);
            && (e.page == Fetched([]) ==>
                  ErrorsOfOutcome(o) == [[NoObjectsMessage, e.id, EventUrl(e.id)]] && RowsOfOutcome(o) == [])
            && (e.page != Fetched([]) ==> ErrorsOfOutcome(o) == [])
  {
  }
}
