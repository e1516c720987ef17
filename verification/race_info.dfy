/** The race metadata extractor: the texts found around a race's table (name,
    time, title, description spans, date-track spans) written into every row
    of that race's frame. */
module RaceInfo {
  import opened Wrappers
  import opened Frames
  import opened HtmlTable

  /** One `ndr-koers-titelbalk` block, reduced to the texts the scraper reads. */
  datatype RaceBlock = RaceBlock(
    table: Option<HtmlRows>,    // rows of the block's first <table>, None if it has none
    name: string,               // text of div.ndr-koers-naam
    time: string,               // text of div.ndr-koers-tijd
    title: string,              // text of the h2 inside div.ndr-koers-titel
    descriptions: seq<string>,  // texts of span.ndr-koers-omschrijving, in order
    dateTrack: seq<string>      // texts of span.ndr-koers-datum-baan, in order
  )

  const DescriptionColumns: seq<string> := ["description1", "description2", "description3"]

  /** How many description columns a block fills: all of its spans when it
      has one to three of them, none otherwise. */
  function DescriptionCount(d: seq<string>): (n: nat)
    ensures n <= |d| && n <= 3
    ensures n == 0 <==> |d| == 0 || |d| > 3
    ensures 1 <= |d| <= 3 ==> n == |d|
  {
    if 1 <= |d| <= 3 then |d| else 0
  }

  /** The metadata value a race block puts in column `c`, if any. Description
      spans map by position onto `description1..3`. */
  function MetaField(b: RaceBlock, c: string): Option<string>
  {
    if c == "race_number" then Some(b.name)
    else if c == "race_time" then Some(b.time)
    else if c == "race_title" then Some(b.title)
    else if c == "date_track" then (if |b.dateTrack| >= 2 then Some(b.dateTrack[0]) else None)
    else if c == "race_infos" then (if |b.dateTrack| >= 2 then Some(b.dateTrack[1]) else None)
    else if c in DescriptionColumns[..DescriptionCount(b.descriptions)] then
      Some(b.descriptions[IndexOf(DescriptionColumns, c)])
    else None
  }

  /** Description spans `0..k-1` fill `description1..descriptionk` when
      there are k = 1, 2 or 3 of them; the other description columns, and all
      of them for 0 or more than 3 spans, get nothing from the block. */
  lemma DescriptionMapping(b: RaceBlock, k: nat)
    requires k < 3
    ensures MetaField(b, DescriptionColumns[k]) ==
              if 1 <= |b.descriptions| <= 3 && k < |b.descriptions| then Some(b.descriptions[k]) else None
  {
    IndexOfDistinct(DescriptionColumns, k);
    var n := DescriptionCount(b.descriptions);
    if k < n {
      assert DescriptionColumns[..n][k] == DescriptionColumns[k];
    } else {
      assert forall j :: 0 <= j < n ==> DescriptionColumns[..n][j] != DescriptionColumns[k];
    }
  }

  /** The if/elif chain over the number of description spans, as the
      column assignments it performs. */
  function DescriptionAssignments(d: seq<string>): seq<(string, string)>
  {
    if |d| == 1 then
      [("description1", d[0])]
    else if |d| == 2 then
      [("description1", d[0]), ("description2", d[1])]
    else if |d| == 3 then
      [("description1", d[0]), ("description2", d[1]), ("description3", d[2])]
    else []
  }

  /** The column assignments of `add_raceinfos_to_results`, in source order. */
  function MetaAssignments(b: RaceBlock): seq<(string, string)>
    requires |b.dateTrack| >= 2
  {
    [("race_number", b.name), ("race_time", b.time), ("race_title", b.title)]
    + DescriptionAssignments(b.descriptions)
    + [("date_track", b.dateTrack[0]), ("race_infos", b.dateTrack[1])]
  }

  /** `add_raceinfos_to_results`: every row of the race gets the block's
      name, time and title, its descriptions by position, and date-track
      spans 0 and 1; these overwrite table columns of the same name. A block
      with fewer than two date-track spans stops the scraper (IndexError). */
  function AttachRaceInfo(b: RaceBlock, f: Frame): (r: Result<Frame, Fault>)
    requires WellFormed(f)
    ensures r.Failure? <==> |b.dateTrack| < 2
    ensures r.Failure? ==> r.error == MissingDateTrack(|b.dateTrack|)
    ensures r.Success? ==> WellFormed(r.value) && |r.value.rows| == |f.rows|
    ensures r.Success? ==>
              forall c :: c in r.value.columns <==> c in f.columns || MetaField(b, c).Some?
    ensures r.Success? ==>
              forall i, c :: 0 <= i < |f.rows| && MetaField(b, c).Some? ==>
                c in r.value.columns && Cell(r.value, i, c) == MetaField(b, c).value
    ensures r.Success? ==>
              forall i, c :: 0 <= i < |f.rows| && c in f.columns && MetaField(b, c).None? ==>
                Cell(r.value, i, c) == Cell(f, i, c)
  {
    if |b.dateTrack| < 2 then
      Failure(MissingDateTrack(|b.dateTrack|))
    else
      var r := SetColumns(f, MetaAssignments(b));
      forall c
        ensures LastAssigned(MetaAssignments(b), c) == MetaField(b, c)
      {
        MetaFieldIsLastAssigned(b, c);
      }
      Success(r)
  }

  /** The assignments leave in each column exactly the value `MetaField`
      names for it. */
  lemma MetaFieldIsLastAssigned(b: RaceBlock, c: string)
    requires |b.dateTrack| >= 2
    ensures LastAssigned(MetaAssignments(b), c) == MetaField(b, c)
  {
    var h0, h1, h2 := ("race_number", b.name), ("race_time", b.time), ("race_title", b.title);
    var t0, t1 := ("date_track", b.dateTrack[0]), ("race_infos", b.dateTrack[1]);
    var desc := DescriptionAssignments(b.descriptions);
    assert MetaAssignments(b) == [h0] + [h1] + [h2] + desc + [t0] + [t1];
    LastAssignedAppend([h0] + [h1] + [h2] + desc + [t0], [t1], c);
    LastAssignedAppend([h0] + [h1] + [h2] + desc, [t0], c);
    LastAssignedAppend([h0] + [h1] + [h2], desc, c);
    LastAssignedAppend([h0] + [h1], [h2], c);
    LastAssignedAppend([h0], [h1], c);
    LastAssignedOne(h0, c);
    LastAssignedOne(h1, c);
    LastAssignedOne(h2, c);
    LastAssignedOne(t0, c);
    LastAssignedOne(t1, c);
    DescriptionLastAssigned(b.descriptions, c);
    if c in DescriptionColumns {
      assert c != "race_number" && c != "race_time" && c != "race_title";
      assert c != "date_track" && c != "race_infos";
    }
  }

  lemma DescriptionLastAssigned(d: seq<string>, c: string)
    ensures LastAssigned(DescriptionAssignments(d), c) ==
              if c in DescriptionColumns[..DescriptionCount(d)]
              then Some(d[IndexOf(DescriptionColumns, c)]) else None
  {
    var n := DescriptionCount(d);
    IndexOfDistinct(DescriptionColumns, 0);
    IndexOfDistinct(DescriptionColumns, 1);
    IndexOfDistinct(DescriptionColumns, 2);
    if n > 0 {
      var p0 := ("description1", d[0]);
      LastAssignedOne(p0, c);
      if n == 1 {
        assert DescriptionColumns[..n] == ["description1"];
      } else {
        var p1 := ("description2", d[1]);
        LastAssignedOne(p1, c);
        LastAssignedAppend([p0], [p1], c);
        if n == 2 {
          assert DescriptionColumns[..n] == ["description1", "description2"];
        } else {
          var p2 := ("description3", d[2]);
          LastAssignedOne(p2, c);
          LastAssignedAppend([p0] + [p1], [p2], c);
          assert DescriptionAssignments(d) == [p0] + [p1] + [p2];
          assert DescriptionColumns[..n] == DescriptionColumns;
        }
      }
    } else {
      assert DescriptionColumns[..n] == [];
    }
  }
}
