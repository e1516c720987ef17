/** The event result fetcher (`get_event_results`): the results URL of an
    event, every race block of the fetched page run through table parsing,
    metadata attachment and normalisation in document order, and the one
    caught error, concatenating no race tables at all. */
module Events {
  import opened Wrappers
  import opened Text
  import opened Frames
  import opened HtmlTable
  import opened RaceInfo
  import opened Schema

  const UrlPrefix: string := "https://ndr.nl/wp-content/plugins/ndr/ndr-print.php?action=do_search&koersdag="
  const UrlSuffix: string := "&koersnr=1&isAgenda=0&paard=false"

  /** The results page of an event: the fixed prefix, the event id, the
      fixed suffix. The id can be read back from between the two. */
  function EventUrl(eventId: string): (url: string)
    ensures |url| == |UrlPrefix| + |eventId| + |UrlSuffix|
    ensures url[..|UrlPrefix|] == UrlPrefix
    ensures url[|UrlPrefix|..|UrlPrefix| + |eventId|] == eventId
    ensures url[|UrlPrefix| + |eventId|..] == UrlSuffix
  {
    UrlPrefix + eventId + UrlSuffix
  }

  /** Different events are fetched from different URLs. */
  lemma EventUrlInjective(a: string, b: string)
    ensures EventUrl(a) == EventUrl(b) <==> a == b
  {
    if EventUrl(a) == EventUrl(b) {
      assert |a| == |b|;
      assert a == EventUrl(a)[|UrlPrefix|..|UrlPrefix| + |a|];
    }
  }

  /** What the request for an event's page gave: the exception `requests`
      raised, or the page's `ndr-koers-titelbalk` blocks in document order. */
  datatype Page = RequestError | Fetched(blocks: seq<RaceBlock>)

  /** One event id together with what fetching its page gave. */
  datatype EventFetch = EventFetch(id: string, page: Page)

  /** A line of the errors file: message, event id, URL. */
  datatype ErrorRecord = ErrorRecord(message: string, eventId: string, url: string)

  /** The message of the ValueError `pd.concat` raises for an empty list. */
  const NoObjectsMessage: string := "No objects to concatenate"

  /** The event's concatenated frame and the error records written for it. */
  datatype EventOutcome = EventOutcome(frame: Frame, errors: seq<ErrorRecord>)

  /** How many records a block's table yields: one per `<tr>` after the first. */
  function RecordCount(trs: HtmlRows): nat
  {
    if |trs| == 0 then 0 else |trs| - 1
  }

  /** Race blocks the model carries through: a table is present, and it is
      empty or of a supported shape. */
  predicate Parsable(b: RaceBlock) {
    b.table.Some? && (|b.table.value| > 0 ==> SupportedShape(b.table.value))
  }

  /** What row `i` of a race's normalised frame holds in column `c`, read
      straight off the block: the event id in `event`; the block's metadata
      where it sets column `c`; otherwise the race table's own cell under a
      header equal to `c`; otherwise `''`. */
  function RaceCell(b: RaceBlock, i: nat, c: string, eventId: string): string
    requires Parsable(b) && i < RecordCount(b.table.value)
  {
    var trs := b.table.value;
    if c == "event" then eventId
    else match MetaField(b, c)
      case Some(v) => v
      case None =>
        if c in Header(trs) then NormalizeCell(trs[i + 1].dataCells[IndexOf(Header(trs), c)])
        else ""
  }

  /** One race block through `html_to_df`, `add_raceinfos_to_results`,
      `add_missing_columns` and the column projection. It stops on a missing
      table, on a table pandas cannot shape, and on fewer than two date-track
      spans; otherwise the frame has
      exactly the schema's columns and one row per table record. What each
      cell holds is stated by `ProcessRaceCells`. */
  function ProcessRace(b: RaceBlock, eventId: string, schema: seq<string>): (r: Result<Frame, Fault>)
    ensures b.table.None? ==> r == Failure(MissingTable)
    ensures b.table.Some? && |b.table.value| > 0 && !WidthMatches(b.table.value) ==>
              r == Failure(ColumnCountMismatch)
    ensures b.table.Some? && |b.table.value| > 0 && WidthMatches(b.table.value) && !SupportedShape(b.table.value) ==>
              r == Failure(UnsupportedShape)
    ensures Parsable(b) && |b.dateTrack| < 2 ==> r == Failure(MissingDateTrack(|b.dateTrack|))
    ensures r.Success? <==> Parsable(b) && |b.dateTrack| >= 2
    ensures r.Success? ==>
              && r.value.columns == schema && Rectangular(r.value)
              && |r.value.rows| == RecordCount(b.table.value)
  {
    var t :- HtmlToFrame(b.table);
    var m :- AttachRaceInfo(b, t);
    Success(Normalize(m, eventId, schema))
  }

  /** Each cell of a processed race is what `RaceCell` reads off the block. */
  lemma ProcessRaceCells(b: RaceBlock, eventId: string, schema: seq<string>)
    requires ProcessRace(b, eventId, schema).Success?
    ensures var f := ProcessRace(b, eventId, schema).value;
            forall i, j :: 0 <= i < |f.rows| && 0 <= j < |schema| ==>
              f.rows[i][j] == RaceCell(b, i, schema[j], eventId)
  {
    var t := HtmlToFrame(b.table).value;
    var m := AttachRaceInfo(b, t).value;
    RaceCellsAgree(b, t, m, eventId);
  }

  lemma RaceCellsAgree(b: RaceBlock, t: Frame, m: Frame, eventId: string)
    requires Parsable(b) && |b.dateTrack| >= 2
    requires HtmlToFrame(b.table) == Success(t)
    requires WellFormed(t) && AttachRaceInfo(b, t) == Success(m)
    ensures WellFormed(m) && |m.rows| == RecordCount(b.table.value)
    ensures forall i, c :: 0 <= i < |m.rows| ==> ExpectedValue(m, i, c, eventId) == RaceCell(b, i, c, eventId)
  {
    forall i, c | 0 <= i < |m.rows|
      ensures ExpectedValue(m, i, c, eventId) == RaceCell(b, i, c, eventId)
    {
      RaceCellAgrees(b, t, m, eventId, i, c);
    }
  }

  lemma RaceCellAgrees(b: RaceBlock, t: Frame, m: Frame, eventId: string, i: nat, c: string)
    requires Parsable(b) && |b.dateTrack| >= 2
    requires HtmlToFrame(b.table) == Success(t)
    requires WellFormed(t) && AttachRaceInfo(b, t) == Success(m)
    requires i < |m.rows|
    ensures WellFormed(m) && |m.rows| == RecordCount(b.table.value)
    ensures ExpectedValue(m, i, c, eventId) == RaceCell(b, i, c, eventId)
  {
    var trs := b.table.value;
    assert |trs| > 0;
    if c != "event" && MetaField(b, c).None? && c in t.columns {
      assert t.columns == Header(trs);
      var k := IndexOf(t.columns, c);
      assert Cell(t, i, c) == t.rows[i][k];
    }
  }

  /** The race blocks of a page in document order. The loop stops at the
      first block that fails; when none fails there is one frame per block,
      block `k`'s frame at position `k`. */
  function ProcessRaces(blocks: seq<RaceBlock>, eventId: string, schema: seq<string>): (r: Result<seq<Frame>, Fault>)
    ensures r.Success? <==> forall k :: 0 <= k < |blocks| ==> ProcessRace(blocks[k], eventId, schema).Success?
    ensures r.Success? ==> |r.value| == |blocks|
    ensures r.Success? ==>
              forall k :: 0 <= k < |blocks| ==> ProcessRace(blocks[k], eventId, schema) == Success(r.value[k])
    ensures r.Failure? ==>
              exists k :: 0 <= k < |blocks| &&
                ProcessRace(blocks[k], eventId, schema) == Failure(r.error) &&
                forall j :: 0 <= j < k ==> ProcessRace(blocks[j], eventId, schema).Success?
  {
    var r := Collect(RaceResults(blocks, eventId, schema));
    CollectedRaces(blocks, eventId, schema);
    r
  }

  /** What each race block gives, in document order. */
  function RaceResults(blocks: seq<RaceBlock>, eventId: string, schema: seq<string>): (rs: seq<Result<Frame, Fault>>)
    ensures |rs| == |blocks|
    ensures forall k :: 0 <= k < |blocks| ==> rs[k] == ProcessRace(blocks[k], eventId, schema)
  {
    seq(|blocks|, k requires 0 <= k < |blocks| => ProcessRace(blocks[k], eventId, schema))
  }

  lemma CollectedRaces(blocks: seq<RaceBlock>, eventId: string, schema: seq<string>)
    ensures var r := Collect(RaceResults(blocks, eventId, schema));
            && (r.Success? <==> forall k :: 0 <= k < |blocks| ==> ProcessRace(blocks[k], eventId, schema).Success?)
            && (r.Success? ==> |r.value| == |blocks|)
            && (r.Success? ==>
                  forall k :: 0 <= k < |blocks| ==> ProcessRace(blocks[k], eventId, schema) == Success(r.value[k]))
            && (r.Failure? ==>
                  exists k :: 0 <= k < |blocks| &&
                    ProcessRace(blocks[k], eventId, schema) == Failure(r.error) &&
                    forall j :: 0 <= j < k ==> ProcessRace(blocks[j], eventId, schema).Success?)
  {
    var rs := RaceResults(blocks, eventId, schema);
    var r := Collect(rs);
    if r.Failure? {
      var k :| 0 <= k < |rs| && rs[k] == Failure(r.error) && forall j :: 0 <= j < k ==> rs[j].Success?;
      assert ProcessRace(blocks[k], eventId, schema) == Failure(r.error);
      assert forall j :: 0 <= j < k ==> ProcessRace(blocks[j], eventId, schema).Success? by {
        forall j | 0 <= j < k
          ensures ProcessRace(blocks[j], eventId, schema).Success?
        {
          assert rs[j].Success?;
        }
      }
    }
  }

  /** `get_event_results`. A failed request stops the run. A page without
      race blocks leaves nothing to concatenate: one error record with the
      event id and URL, and an empty frame. Otherwise the race frames are
      concatenated, with the schema's columns, and no error record is
      written. */
  function EventResult(e: EventFetch, schema: seq<string>): (r: Result<EventOutcome, Fault>)
    ensures e.page.RequestError? ==> r == Failure(RequestFailed)
    ensures e.page == Fetched([]) ==>
              r == Success(EventOutcome(EmptyFrame, [ErrorRecord(NoObjectsMessage, e.id, EventUrl(e.id))]))
    ensures e.page.Fetched? && |e.page.blocks| > 0 && r.Success? ==>
              r.value.errors == [] && r.value.frame.columns == schema && Rectangular(r.value.frame)
  {
    var url := EventUrl(e.id);
    match e.page
    case RequestError => Failure(RequestFailed)
    case Fetched(blocks) =>
      var frames :- ProcessRaces(blocks, e.id, schema);
      if |frames| == 0 then
        Success(EventOutcome(EmptyFrame, [ErrorRecord(NoObjectsMessage, e.id, url)]))
      else
        Success(EventOutcome(ConcatFrames(frames, schema), []))
  }

  /** A fetched page with race blocks gives a result exactly when every one
      of its blocks goes through; otherwise the fault of the first block that
      does not. */
  lemma EventFailsOnFirstBadRace(e: EventFetch, schema: seq<string>)
    requires e.page.Fetched?
    ensures var blocks := e.page.blocks;
            var r := EventResult(e, schema);
            && (r.Success? <==> forall k :: 0 <= k < |blocks| ==> ProcessRace(blocks[k], e.id, schema).Success?)
            && (r.Failure? ==>
                  exists k :: 0 <= k < |blocks| &&
                    ProcessRace(blocks[k], e.id, schema) == Failure(r.error) &&
                    forall j :: 0 <= j < k ==> ProcessRace(blocks[j], e.id, schema).Success?)
  {
    var _ := ProcessRaces(e.page.blocks, e.id, schema);
  }

  /** The event's rows are its races' normalised rows in document order:
      race `k`'s rows sit unbroken right after those of races `0..k-1`. */
  lemma EventRowsInDocumentOrder(e: EventFetch, schema: seq<string>, k: nat)
    ensures e.page.Fetched? && k < |e.page.blocks| && EventResult(e, schema).Success? ==>
              && ProcessRaces(e.page.blocks, e.id, schema).Success?
              && var frames := ProcessRaces(e.page.blocks, e.id, schema).value;
                 var rows := EventResult(e, schema).value.frame.rows;
                 var start := Offset(RowsOf(frames), k);
                 && frames[k] == ProcessRace(e.page.blocks[k], e.id, schema).value
                 && start + |frames[k].rows| <= |rows|
                 && rows[start..start + |frames[k].rows|] == frames[k].rows
  {
    if e.page.Fetched? && k < |e.page.blocks| && EventResult(e, schema).Success? {
      EventFrameIsConcat(e, schema);
      var frames := ProcessRaces(e.page.blocks, e.id, schema).value;
      ConcatSlice(frames, schema, k);
    }
  }

  /** How many records the tables of the blocks hold together. */
  function TotalRecords(blocks: seq<RaceBlock>): nat
  {
    if |blocks| == 0 then 0
    else (if blocks[0].table.Some? then RecordCount(blocks[0].table.value) else 0)
         + TotalRecords(blocks[1..])
  }

  /** An event that goes through has one row per record of its race tables:
      nothing is dropped and nothing is added. */
  lemma EventRowCount(e: EventFetch, schema: seq<string>)
    ensures e.page.Fetched? && EventResult(e, schema).Success? ==>
              |EventResult(e, schema).value.frame.rows| == TotalRecords(e.page.blocks)
  {
    if e.page.Fetched? && EventResult(e, schema).Success? && |e.page.blocks| > 0 {
      EventFrameIsConcat(e, schema);
      var frames := ProcessRaces(e.page.blocks, e.id, schema).value;
      RecordsOfFrames(e.page.blocks, frames, e.id, schema);
    }
  }

  lemma {:induction false} RecordsOfFrames(blocks: seq<RaceBlock>, frames: seq<Frame>, eventId: string, schema: seq<string>)
    requires |frames| == |blocks|
    requires forall k :: 0 <= k < |blocks| ==> ProcessRace(blocks[k], eventId, schema) == Success(frames[k])
    ensures TotalLength(RowsOf(frames)) == TotalRecords(blocks)
  {
    if |blocks| > 0 {
      assert ProcessRace(blocks[0], eventId, schema) == Success(frames[0]);
      assert RowsOf(frames)[1..] == RowsOf(frames[1..]);
      RecordsOfFrames(blocks[1..], frames[1..], eventId, schema);
    }
  }

  lemma EventFrameIsConcat(e: EventFetch, schema: seq<string>)
    ensures e.page.Fetched? && |e.page.blocks| > 0 && EventResult(e, schema).Success? ==>
              && ProcessRaces(e.page.blocks, e.id, schema).Success?
              && EventResult(e, schema).value.frame ==
                   ConcatFrames(ProcessRaces(e.page.blocks, e.id, schema).value, schema)
  {
  }
}
