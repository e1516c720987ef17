/** The table parser: the `<tr>` rows of a race's first `<table>`, already
    reduced to the texts of their `th` and `td` cells, turned into a frame. */
module HtmlTable {
  import opened Wrappers
  import opened Text
  import opened Frames

  /** One `<tr>`: the texts of its `th` cells and of its `td` cells. */
  datatype HtmlRow = HtmlRow(headerCells: seq<string>, dataCells: seq<string>)

  /** The `<tr>` rows of a table in document order. */
  type HtmlRows = seq<HtmlRow>

  /** Column names: the first row's `th` texts, each stripped. */
  function Header(trs: HtmlRows): (h: seq<string>)
    requires |trs| > 0
    ensures |h| == |trs[0].headerCells|
    ensures forall k :: 0 <= k < |h| ==> h[k] == HeaderText(trs[0].headerCells[k])
  {
    seq(|trs[0].headerCells|, k requires 0 <= k < |trs[0].headerCells| => HeaderText(trs[0].headerCells[k]))
  }

  /** One record: the row's `td` texts, each normalised. */
  function DataRow(tr: HtmlRow): (row: Row)
    ensures |row| == |tr.dataCells|
    ensures forall k :: 0 <= k < |row| ==> row[k] == NormalizeCell(tr.dataCells[k])
  {
    seq(|tr.dataCells|, k requires 0 <= k < |tr.dataCells| => NormalizeCell(tr.dataCells[k]))
  }

  /** `pd.DataFrame(rows, columns=header)` makes the frame as wide as its
      widest row and raises `ValueError` unless that width is the header's.
      With no data rows at all there is nothing to compare. */
  predicate WidthMatches(trs: HtmlRows)
    requires |trs| > 0
  {
    && (forall i :: 1 <= i < |trs| ==> |trs[i].dataCells| <= |trs[0].headerCells|)
    && (|trs| > 1 ==> exists i :: 1 <= i < |trs| && |trs[i].dataCells| == |trs[0].headerCells|)
  }

  /** Tables the model covers: header names are unique and every data row
      has one cell per header cell. */
  predicate SupportedShape(trs: HtmlRows)
    requires |trs| > 0
  {
    && Distinct(Header(trs))
    && forall i :: 1 <= i < |trs| ==> |trs[i].dataCells| == |trs[0].headerCells|
  }

  /** A covered table is one pandas accepts. */
  lemma SupportedWidth(trs: HtmlRows)
    requires |trs| > 0
    ensures SupportedShape(trs) ==> WidthMatches(trs)
  {
    if SupportedShape(trs) && |trs| > 1 {
      assert |trs[1].dataCells| == |trs[0].headerCells|;
    }
  }

  /** `html_to_df`: `None` is a race block without a `<table>`, which the
      scraper does not survive. A table without rows is the empty frame.
      A table whose widest data row is not as wide as its header makes
      pandas raise. Otherwise the header comes from the first row and one
      record from each later row, in document order. */
  function HtmlToFrame(table: Option<HtmlRows>): (r: Result<Frame, Fault>)
    ensures table.None? <==> r == Failure(MissingTable)
    ensures table == Some([]) ==> r == Success(EmptyFrame)
    ensures r.Success? ==> WellFormed(r.value)
    ensures table.Some? && |table.value| > 0 ==>
              && (r.Success? <==> SupportedShape(table.value))
              && (!WidthMatches(table.value) ==> r == Failure(ColumnCountMismatch))
              && (WidthMatches(table.value) && !SupportedShape(table.value) ==> r == Failure(UnsupportedShape))
    ensures table.Some? && |table.value| > 0 && r.Success? ==>
              var trs := table.value;
              && r.value.columns == Header(trs)
              && |r.value.rows| == |trs| - 1
              && forall i, k :: 0 <= i < |r.value.rows| && 0 <= k < |r.value.columns| ==>
                   r.value.rows[i][k] == NormalizeCell(trs[i + 1].dataCells[k])
  {
    match table
    case None => Failure(MissingTable)
    case Some(trs) =>
      if |trs| == 0 then Success(EmptyFrame)
      else
      SupportedWidth(trs);
      if !WidthMatches(trs) then Failure(ColumnCountMismatch)
      else if !SupportedShape(trs) then Failure(UnsupportedShape)
      else Success(TableFrame(trs))
  }

  /** The frame of a supported, non-empty table. */
  function TableFrame(trs: HtmlRows): (f: Frame)
    requires |trs| > 0 && SupportedShape(trs)
    ensures WellFormed(f)
    ensures f.columns == Header(trs) && |f.rows| == |trs| - 1
    ensures forall i, k :: 0 <= i < |f.rows| && 0 <= k < |f.columns| ==>
              f.rows[i][k] == NormalizeCell(trs[i + 1].dataCells[k])
  {
    var rows := DataRows(trs);
    assert forall i :: 0 <= i < |rows| ==> |rows[i]| == |Header(trs)|;
    Frame(Header(trs), rows)
  }

  /** One record per `<tr>` after the first, in document order. */
  function DataRows(trs: HtmlRows): (rows: seq<Row>)
    requires |trs| > 0
    ensures |rows| == |trs| - 1
    ensures forall i :: 0 <= i < |rows| ==> rows[i] == DataRow(trs[i + 1])
  {
    seq(|trs| - 1, i requires 0 <= i < |trs| - 1 => DataRow(trs[i + 1]))
  }
}
