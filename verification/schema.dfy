/** The schema normaliser: every race frame is forced onto the fixed result
    columns, so that all races of all events share one CSV header. */
module Schema {
  import opened Wrappers
  import opened Frames

  /** `all_cols`: the 21 result columns, in output order. */
  const AllCols: seq<string> := [
    "event", "date_track", "race_time", "race_number", "race_title",
    "description1", "description2", "description3", "race_infos",
    "nr.", "paard", "rijder", "afstand", "startnummer", "startnr",
    "box", "tijd", "na 1e", "Hcap", "prijs", "COTE"
  ]

  lemma AllColsShape()
    ensures |AllCols| == 21 && Distinct(AllCols)
  {
  }

  /** The names of `schema` that are not among `cols`, in schema order. */
  function Missing(schema: seq<string>, cols: seq<string>): (m: seq<string>)
    ensures forall c :: c in m <==> c in schema && c !in cols
  {
    if |schema| == 0 then []
    else if schema[0] in cols then Missing(schema[1..], cols)
    else [schema[0]] + Missing(schema[1..], cols)
  }

  /** One `''` assignment per name. */
  function Blanks(names: seq<string>): (a: seq<(string, string)>)
    ensures forall c :: LastAssigned(a, c) == if c in names then Some("") else None
  {
    if |names| == 0 then []
    else
      var rest := Blanks(names[1..]);
      var a := [(names[0], "")] + rest;
      assert a[1..] == rest;
      a
  }

  /** `add_missing_columns`: the `event` column is set to the event id on
      every row, then every schema column the frame lacks is added holding
      `''`. Nothing else changes. */
  function AddMissingColumns(f: Frame, eventId: string, schema: seq<string>): (r: Frame)
    requires WellFormed(f)
    ensures WellFormed(r) && |r.rows| == |f.rows|
    ensures forall c :: c in r.columns <==> c in f.columns || c == "event" || c in schema
    ensures forall i :: 0 <= i < |r.rows| ==> Cell(r, i, "event") == eventId
    ensures forall i, c :: 0 <= i < |r.rows| && c in f.columns && c != "event" ==>
              Cell(r, i, c) == Cell(f, i, c)
    ensures forall i, c :: 0 <= i < |r.rows| && c in schema && c !in f.columns && c != "event" ==>
              Cell(r, i, c) == ""
  {
    var g := SetColumn(f, "event", eventId);
    SetColumns(g, Blanks(Missing(schema, g.columns)))
  }

  /** What a normalised row holds in column `c`: the event id in `event`,
      the race's own value where the race has column `c`, `''` otherwise. */
  function ExpectedValue(f: Frame, i: nat, c: string, eventId: string): string
    requires WellFormed(f) && i < |f.rows|
  {
    if c == "event" then eventId
    else if c in f.columns then Cell(f, i, c)
    else ""
  }

  /** `add_missing_columns` followed by `result_df[result_cols]`: exactly the
      schema's columns in schema order, one row per input row, each cell as
      `ExpectedValue` says. Columns outside the schema are gone. */
  function Normalize(f: Frame, eventId: string, schema: seq<string>): (r: Frame)
    requires WellFormed(f)
    ensures r.columns == schema && Rectangular(r)
    ensures |r.rows| == |f.rows|
    ensures forall i, j :: 0 <= i < |r.rows| && 0 <= j < |schema| ==>
              r.rows[i][j] == ExpectedValue(f, i, schema[j], eventId)
  {
    var g := AddMissingColumns(f, eventId, schema);
    Project(g, schema)
  }

  /** The result columns of a race lacking `COTE` hold `''` there, and the
      `event` column holds the event id, on every row. */
  lemma NormalizeAllCols(f: Frame, eventId: string, i: nat)
    requires WellFormed(f) && i < |f.rows|
    ensures |Normalize(f, eventId, AllCols).rows[i]| == 21
    ensures Normalize(f, eventId, AllCols).rows[i][0] == eventId
    ensures "COTE" !in f.columns ==> Normalize(f, eventId, AllCols).rows[i][20] == ""
  {
    assert AllCols[0] == "event" && AllCols[20] == "COTE";
  }
}
