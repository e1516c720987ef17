/** The small part of a pandas DataFrame the scraper relies on: named columns
    in order, rows of text cells, whole-column assignment of one value,
    column selection by a name list, and row-wise concatenation. */
module Frames {
  import opened Wrappers

  type Row = seq<string>

  /** A table: column names in order and one row of cells per record; the
      cell of column `columns[k]` in a row is `row[k]`. */
  datatype Frame = Frame(columns: seq<string>, rows: seq<Row>)

  /** `pd.DataFrame()`: no columns, no rows. */
  const EmptyFrame: Frame := Frame([], [])

  predicate Distinct(s: seq<string>) {
    forall i, j :: 0 <= i < j < |s| ==> s[i] != s[j]
  }

  predicate Rectangular(f: Frame) {
    forall i :: 0 <= i < |f.rows| ==> |f.rows[i]| == |f.columns|
  }

  /** Column names are unique and every row has one cell per column. */
  predicate WellFormed(f: Frame) {
    Distinct(f.columns) && Rectangular(f)
  }

  /** Position of the first column called `name`. */
  function IndexOf(cols: seq<string>, name: string): (k: nat)
    requires name in cols
    ensures k < |cols| && cols[k] == name
    ensures forall j :: 0 <= j < k ==> cols[j] != name
  {
    if cols[0] == name then 0 else 1 + IndexOf(cols[1..], name)
  }

  lemma IndexOfDistinct(cols: seq<string>, k: nat)
    requires Distinct(cols) && k < |cols|
    ensures IndexOf(cols, cols[k]) == k
  {
  }

  /** `df[name][i]`: the value of column `name` in row `i`. */
  function Cell(f: Frame, i: nat, name: string): string
    requires WellFormed(f) && i < |f.rows| && name in f.columns
  {
    f.rows[i][IndexOf(f.columns, name)]
  }

  /** `df[name] = v`: every row gets `v` in column `name`. An existing column
      keeps its place; a new column is added after the last one. No other
      cell changes, and the number of rows is unchanged (an empty frame stays
      without rows). */
  function SetColumn(f: Frame, name: string, v: string): (r: Frame)
    requires WellFormed(f)
    ensures WellFormed(r)
    ensures |r.rows| == |f.rows|
    ensures name in f.columns ==> r.columns == f.columns
    ensures name !in f.columns ==> r.columns == f.columns + [name]
    ensures forall i :: 0 <= i < |r.rows| ==> Cell(r, i, name) == v
    ensures forall i, c :: 0 <= i < |r.rows| && c in f.columns && c != name ==>
              Cell(r, i, c) == Cell(f, i, c)
  {
    if name in f.columns then ReplaceColumn(f, IndexOf(f.columns, name), v)
    else AppendColumn(f, name, v)
  }

  /** Every row gets `v` at position `k`; the columns stay as they are. */
  function ReplaceColumn(f: Frame, k: nat, v: string): (r: Frame)
    requires WellFormed(f) && k < |f.columns|
    ensures WellFormed(r) && r.columns == f.columns && |r.rows| == |f.rows|
    ensures forall i :: 0 <= i < |r.rows| ==> r.rows[i] == f.rows[i][k := v]
  {
    Frame(f.columns, seq(|f.rows|, i requires 0 <= i < |f.rows| => f.rows[i][k := v]))
  }

  /** A new last column `name` holding `v` in every row. */
  function AppendColumn(f: Frame, name: string, v: string): (r: Frame)
    requires WellFormed(f) && name !in f.columns
    ensures WellFormed(r) && |r.rows| == |f.rows|
    ensures r.columns == f.columns + [name] && IndexOf(r.columns, name) == |f.columns|
    ensures forall c :: c in f.columns ==> IndexOf(r.columns, c) == IndexOf(f.columns, c)
    ensures forall i :: 0 <= i < |r.rows| ==> r.rows[i] == f.rows[i] + [v]
  {
    var cols := f.columns + [name];
    IndexOfDistinct(cols, |f.columns|);
    forall c | c in f.columns
      ensures IndexOf(cols, c) == IndexOf(f.columns, c)
    {
      var k := IndexOf(f.columns, c);
      IndexOfDistinct(f.columns, k);
      IndexOfDistinct(cols, k);
    }
    Frame(cols, seq(|f.rows|, i requires 0 <= i < |f.rows| => f.rows[i] + [v]))
  }

  /** The value the last assignment to column `c` in `assigns` writes, if any. */
  function LastAssigned(assigns: seq<(string, string)>, c: string): Option<string>
  {
    if |assigns| == 0 then None
    else if LastAssigned(assigns[1..], c).Some? then LastAssigned(assigns[1..], c)
    else if assigns[0].0 == c then Some(assigns[0].1)
    else None
  }

  lemma {:induction false} LastAssignedAppend(a: seq<(string, string)>, b: seq<(string, string)>, c: string)
    ensures LastAssigned(a + b, c) ==
              if LastAssigned(b, c).Some? then LastAssigned(b, c) else LastAssigned(a, c)
  {
    if |a| == 0 {
      assert a + b == b;
    } else {
      assert (a + b)[1..] == a[1..] + b;
      LastAssignedAppend(a[1..], b, c);
    }
  }

  lemma LastAssignedOne(p: (string, string), c: string)
    ensures LastAssigned([p], c) == if p.0 == c then Some(p.1) else None
  {
    assert [p][1..] == [];
  }

  /** A run of `df[name] = v` statements, in order: each column assigned
      ends up holding the last value written to it, every other column is
      untouched, and the number of rows does not change. */
  function SetColumns(f: Frame, assigns: seq<(string, string)>): (r: Frame)
    requires WellFormed(f)
    ensures WellFormed(r) && |r.rows| == |f.rows|
    ensures forall c :: c in r.columns <==> c in f.columns || LastAssigned(assigns, c).Some?
    ensures forall i, c :: 0 <= i < |r.rows| && LastAssigned(assigns, c).Some? ==>
              c in r.columns && Cell(r, i, c) == LastAssigned(assigns, c).value
    ensures forall i, c :: 0 <= i < |r.rows| && c in f.columns && LastAssigned(assigns, c).None? ==>
              Cell(r, i, c) == Cell(f, i, c)
    decreases |assigns|
  {
    if |assigns| == 0 then f
    else SetColumns(SetColumn(f, assigns[0].0, assigns[0].1), assigns[1..])
  }

  /** `df[schema]`: the columns named in `schema`, in that order. */
  function Project(f: Frame, schema: seq<string>): (r: Frame)
    requires WellFormed(f)
    requires forall j :: 0 <= j < |schema| ==> schema[j] in f.columns
    ensures r.columns == schema && Rectangular(r)
    ensures |r.rows| == |f.rows|
    ensures forall i, j :: 0 <= i < |r.rows| && 0 <= j < |schema| ==>
              r.rows[i][j] == Cell(f, i, schema[j])
  {
    Frame(schema, seq(|f.rows|, i requires 0 <= i < |f.rows| =>
                        seq(|schema|, j requires 0 <= j < |schema| => Cell(f, i, schema[j]))))
  }

  /** The blocks one after another. */
  function Flatten<T>(blocks: seq<seq<T>>): (r: seq<T>)
  {
    if |blocks| == 0 then [] else blocks[0] + Flatten(blocks[1..])
  }

  lemma {:induction false} FlattenAppend<T>(a: seq<seq<T>>, b: seq<seq<T>>)
    ensures Flatten(a + b) == Flatten(a) + Flatten(b)
  {
    if |a| == 0 {
      assert a + b == b;
    } else {
      assert (a + b)[1..] == a[1..] + b;
      FlattenAppend(a[1..], b);
    }
  }

  /** Where block `k` starts in the flattened sequence. */
  function Offset<T>(blocks: seq<seq<T>>, k: nat): nat
    requires k <= |blocks|
  {
    |Flatten(blocks[..k])|
  }

  /** Block `k` sits, unbroken and unchanged, right after the blocks before it. */
  lemma FlattenBlock<T>(blocks: seq<seq<T>>, k: nat)
    requires k < |blocks|
    ensures Offset(blocks, k) + |blocks[k]| <= |Flatten(blocks)|
    ensures Flatten(blocks)[Offset(blocks, k)..Offset(blocks, k) + |blocks[k]|] == blocks[k]
  {
    assert blocks == blocks[..k] + ([blocks[k]] + blocks[k + 1..]);
    FlattenAppend(blocks[..k], [blocks[k]] + blocks[k + 1..]);
    assert Flatten([blocks[k]] + blocks[k + 1..]) == blocks[k] + Flatten(blocks[k + 1..]);
  }

  /** The flattened length is the sum of the block lengths. */
  function TotalLength<T>(blocks: seq<seq<T>>): nat
  {
    if |blocks| == 0 then 0 else |blocks[0]| + TotalLength(blocks[1..])
  }

  lemma {:induction false} FlattenLength<T>(blocks: seq<seq<T>>)
    ensures |Flatten(blocks)| == TotalLength(blocks)
  {
    if |blocks| > 0 {
      FlattenLength(blocks[1..]);
    }
  }

  /** The rows of each frame, in order. */
  function RowsOf(frames: seq<Frame>): (r: seq<seq<Row>>)
    ensures |r| == |frames|
    ensures forall k :: 0 <= k < |frames| ==> r[k] == frames[k].rows
  {
    seq(|frames|, k requires 0 <= k < |frames| => frames[k].rows)
  }

  /** `pd.concat(frames)` of frames that all have the columns `schema`: the
      rows of every frame, frame after frame. */
  function ConcatFrames(frames: seq<Frame>, schema: seq<string>): (r: Frame)
    requires forall k :: 0 <= k < |frames| ==> frames[k].columns == schema && Rectangular(frames[k])
    ensures r.columns == schema && Rectangular(r)
    ensures |r.rows| == TotalLength(RowsOf(frames))
    ensures forall k :: 0 <= k < |frames| ==>
              Offset(RowsOf(frames), k) + |frames[k].rows| <= |r.rows| &&
              r.rows[Offset(RowsOf(frames), k)..Offset(RowsOf(frames), k) + |frames[k].rows|] == frames[k].rows
  {
    var blocks := RowsOf(frames);
    var rows := Flatten(blocks);
    forall k | 0 <= k < |frames|
      ensures Offset(blocks, k) + |frames[k].rows| <= |rows|
      ensures rows[Offset(blocks, k)..Offset(blocks, k) + |frames[k].rows|] == frames[k].rows
    {
      FlattenBlock(blocks, k);
    }
    RectangularFlatten(frames, schema);
    FlattenLength(blocks);
    Frame(schema, rows)
  }

  /** Frame `k`'s rows inside the concatenation. */
  lemma ConcatSlice(frames: seq<Frame>, schema: seq<string>, k: nat)
    requires forall k :: 0 <= k < |frames| ==> frames[k].columns == schema && Rectangular(frames[k])
    requires k < |frames|
    ensures var rows := ConcatFrames(frames, schema).rows;
            var start := Offset(RowsOf(frames), k);
            start + |frames[k].rows| <= |rows| && rows[start..start + |frames[k].rows|] == frames[k].rows
  {
  }

  lemma {:induction false} RectangularFlatten(frames: seq<Frame>, schema: seq<string>)
    requires forall k :: 0 <= k < |frames| ==> frames[k].columns == schema && Rectangular(frames[k])
    ensures Rectangular(Frame(schema, Flatten(RowsOf(frames))))
  {
    if |frames| > 0 {
      RectangularFlatten(frames[1..], schema);
      assert RowsOf(frames) == [frames[0].rows] + RowsOf(frames[1..]);
      var rest := Flatten(RowsOf(frames[1..]));
      var all := frames[0].rows + rest;
      forall i | 0 <= i < |all|
        ensures |all[i]| == |schema|
      {
        if i >= |frames[0].rows| {
          assert all[i] == rest[i - |frames[0].rows|];
        }
      }
    }
  }
}
