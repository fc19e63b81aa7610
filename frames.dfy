/**
 * A minimal model of the pandas DataFrame operations the scripts use: a frame is an
 * ordered list of column names and a list of rows, each row one cell per column.
 * A cell is missing (`None`/`NaN`), a string, or a number.
 */
module Frames {
  import opened Wrappers

  datatype Cell = Null | Text(s: string) | Num(r: real)

  datatype Frame = Frame(columns: seq<string>, rows: seq<seq<Cell>>)

  /** Every row has one cell per column. */
  predicate WellFormed(f: Frame) {
    forall i :: 0 <= i < |f.rows| ==> |f.rows[i]| == |f.columns|
  }

  predicate Distinct<T(==)>(s: seq<T>) {
    forall i, j :: 0 <= i < j < |s| ==> s[i] != s[j]
  }

  /** `df.empty`: true when either axis has length zero. */
  predicate IsEmpty(f: Frame) {
    |f.rows| == 0 || |f.columns| == 0
  }

  /** The position of the first column called `name`, or -1. */
  function IndexOf(columns: seq<string>, name: string): (i: int)
    ensures -1 <= i < |columns|
    ensures i >= 0 ==> columns[i] == name && name !in columns[..i]
    ensures i < 0 <==> name !in columns
  {
    if |columns| == 0 then -1
    else if columns[0] == name then 0
    else
      var k := IndexOf(columns[1..], name);
      assert forall j :: 0 <= j < |columns| - 1 ==> columns[1..][j] == columns[j + 1];
      if k < 0 then -1
      else
        assert columns[..k + 1] == [columns[0]] + columns[1..][..k];
        k + 1
  }

  /** A name at position `k` and nowhere before it is found at `k`. */
  lemma {:induction false} IndexOfFirst(columns: seq<string>, name: string, k: int)
    requires 0 <= k < |columns| && columns[k] == name && name !in columns[..k]
    ensures IndexOf(columns, name) == k
    decreases k
  {
    if k > 0 {
      assert columns[0] in columns[..k];
      assert columns[1..][k - 1] == name;
      assert columns[1..][..k - 1] == columns[..k][1..];
      IndexOfFirst(columns[1..], name, k - 1);
    }
  }

  /** In a list of distinct names, each name is found at its own position. */
  lemma IndexOfDistinct(columns: seq<string>, j: int)
    requires Distinct(columns) && 0 <= j < |columns|
    ensures IndexOf(columns, columns[j]) == j
  {
    assert columns[j] in columns;
  }

  /** `IndexOf` finds a name in a longer list where it found it in the shorter one. */
  lemma IndexOfPrefix(a: seq<string>, b: seq<string>, name: string)
    requires name in a
    ensures IndexOf(a + b, name) == IndexOf(a, name)
  {
    var i := IndexOf(a, name);
    assert (a + b)[i] == name;
  }

  /** `df.insert(0, name, value)`: a new first column holding `value` in every row. */
  function InsertFirst(f: Frame, name: string, value: Cell): (r: Frame)
    requires WellFormed(f)
    ensures r.columns == [name] + f.columns && WellFormed(r) && |r.rows| == |f.rows|
    ensures forall i :: 0 <= i < |r.rows| ==> r.rows[i] == [value] + f.rows[i]
  {
    Frame([name] + f.columns, seq(|f.rows|, i requires 0 <= i < |f.rows| => [value] + f.rows[i]))
  }

  /** The cell of `row` under column `name`, or `fill` when the frame has no such column. */
  function CellOr(columns: seq<string>, row: seq<Cell>, name: string, fill: Cell): (c: Cell)
    requires |row| == |columns|
    ensures name !in columns ==> c == fill
    ensures name in columns ==> c == row[IndexOf(columns, name)]
  {
    var i := IndexOf(columns, name);
    if i < 0 then fill else row[i]
  }

  /** `df.reindex(columns=target, fill_value=fill)`: exactly the target columns, in order. */
  function Reindex(f: Frame, target: seq<string>, fill: Cell): (r: Frame)
    requires WellFormed(f)
    ensures r.columns == target && WellFormed(r) && |r.rows| == |f.rows|
    ensures forall i, j :: 0 <= i < |r.rows| && 0 <= j < |target| ==>
      r.rows[i][j] == CellOr(f.columns, f.rows[i], target[j], fill)
  {
    Frame(target, seq(|f.rows|, i requires 0 <= i < |f.rows| =>
      seq(|target|, j requires 0 <= j < |target| => CellOr(f.columns, f.rows[i], target[j], fill))))
  }

  /** `df[names]`: a projection onto columns that all exist. */
  function Select(f: Frame, names: seq<string>): (r: Frame)
    requires WellFormed(f)
    requires forall n :: n in names ==> n in f.columns
    ensures r.columns == names && WellFormed(r) && |r.rows| == |f.rows|
    ensures forall i, j :: 0 <= i < |r.rows| && 0 <= j < |names| ==>
      r.rows[i][j] == f.rows[i][IndexOf(f.columns, names[j])]
  {
    Reindex(f, names, Null)
  }

  /** `df[name] = g(df[name])` for an existing column; a new column otherwise is not needed here. */
  function MapColumn(f: Frame, name: string, g: Cell -> Cell): (r: Frame)
    requires WellFormed(f)
    ensures r.columns == f.columns && WellFormed(r) && |r.rows| == |f.rows|
    ensures forall i, j :: 0 <= i < |r.rows| && 0 <= j < |f.columns| ==>
      r.rows[i][j] == (if j == IndexOf(f.columns, name) then g(f.rows[i][j]) else f.rows[i][j])
  {
    var k := IndexOf(f.columns, name);
    Frame(f.columns, seq(|f.rows|, i requires 0 <= i < |f.rows| =>
      seq(|f.columns|, j requires 0 <= j < |f.columns| =>
        if j == k then g(f.rows[i][j]) else f.rows[i][j])))
  }

  /**
   * `df[name] = value` with a scalar: overwrites every column called `name`, in every
   * row, when there is one; otherwise appends it as the last column.
   */
  function SetColumn(f: Frame, name: string, value: Cell): (r: Frame)
    requires WellFormed(f)
    ensures WellFormed(r) && |r.rows| == |f.rows|
    ensures name in f.columns ==> r.columns == f.columns
    ensures name !in f.columns ==> r.columns == f.columns + [name]
    ensures forall i, j :: 0 <= i < |r.rows| && 0 <= j < |r.columns| && r.columns[j] == name ==> r.rows[i][j] == value
    ensures forall i :: 0 <= i < |r.rows| ==> r.rows[i][IndexOf(r.columns, name)] == value
    ensures forall i, j :: 0 <= i < |r.rows| && 0 <= j < |f.columns| && f.columns[j] != name ==>
      r.rows[i][j] == f.rows[i][j]
  {
    if name in f.columns then
      Frame(f.columns, seq(|f.rows|, i requires 0 <= i < |f.rows| =>
        seq(|f.columns|, j requires 0 <= j < |f.columns| => if f.columns[j] == name then value else f.rows[i][j])))
    else
      var r := Frame(f.columns + [name], seq(|f.rows|, i requires 0 <= i < |f.rows| => f.rows[i] + [value]));
      assert IndexOf(r.columns, name) == |f.columns| by {
        assert name !in r.columns[..|f.columns|];
      }
      r
  }

  /** Setting a column leaves every other column, and its cells, where they were. */
  lemma SetColumnKeeps(f: Frame, name: string, value: Cell, i: int, j: int)
    requires WellFormed(f) && 0 <= i < |f.rows| && 0 <= j < |f.columns| && f.columns[j] != name
    ensures var r := SetColumn(f, name, value);
      j < |r.columns| && r.columns[j] == f.columns[j] && r.rows[i][j] == f.rows[i][j]
  {
  }

  /** Keeps the rows satisfying `keep`, in order (a boolean-mask selection or `dropna`). */
  function FilterRows(rows: seq<seq<Cell>>, keep: seq<Cell> -> bool): (r: seq<seq<Cell>>)
    ensures |r| <= |rows|
    ensures forall x :: x in r <==> x in rows && keep(x)
  {
    if |rows| == 0 then []
    else if keep(rows[0]) then [rows[0]] + FilterRows(rows[1..], keep)
    else FilterRows(rows[1..], keep)
  }

  /** `df.loc[mask]`: the rows satisfying `keep`, in order, under the same columns. */
  function Where(f: Frame, keep: seq<Cell> -> bool): (r: Frame)
    requires WellFormed(f)
    ensures r.columns == f.columns && WellFormed(r) && r.rows == FilterRows(f.rows, keep)
  {
    var rows := FilterRows(f.rows, keep);
    assert forall i :: 0 <= i < |rows| ==> rows[i] in f.rows;
    Frame(f.columns, rows)
  }

  /** The column names of `frames`, each once, in order of first appearance. */
  function UnionColumns(frames: seq<Frame>, acc: seq<string>): (r: seq<string>)
    ensures acc <= r
    ensures forall c :: c in r <==> c in acc || exists k :: 0 <= k < |frames| && c in frames[k].columns
    ensures Distinct(acc) ==> Distinct(r)
  {
    if |frames| == 0 then acc
    else
      var acc' := AddNew(acc, frames[0].columns);
      var r := UnionColumns(frames[1..], acc');
      assert forall k :: 0 <= k < |frames| - 1 ==> frames[1..][k] == frames[k + 1];
      r
  }

  function AddNew(acc: seq<string>, names: seq<string>): (r: seq<string>)
    ensures acc <= r
    ensures forall c :: c in r <==> c in acc || c in names
    ensures Distinct(acc) ==> Distinct(r)
    decreases |names|
  {
    if |names| == 0 then acc
    else if names[0] in acc then AddNew(acc, names[1..])
    else AddNew(acc + [names[0]], names[1..])
  }

  function Flatten(blocks: seq<seq<seq<Cell>>>): (r: seq<seq<Cell>>)
  {
    if |blocks| == 0 then [] else blocks[0] + Flatten(blocks[1..])
  }

  /**
   * `pd.concat(frames, ignore_index=True)`: rows of every frame in order, under the union
   * of the columns (first appearance first), cells a frame lacks filled with `NaN`.
   */
  function Concat(frames: seq<Frame>): (r: Frame)
    requires forall k :: 0 <= k < |frames| ==> WellFormed(frames[k])
    ensures WellFormed(r)
  {
    var columns := UnionColumns(frames, []);
    var blocks := seq(|frames|, k requires 0 <= k < |frames| => Reindex(frames[k], columns, Null).rows);
    FlattenWidth(blocks, |columns|);
    Frame(columns, Flatten(blocks))
  }

  /** Blocks whose rows all have `w` cells flatten to rows of `w` cells. */
  lemma {:induction false} FlattenWidth(blocks: seq<seq<seq<Cell>>>, w: nat)
    requires forall k, i :: 0 <= k < |blocks| && 0 <= i < |blocks[k]| ==> |blocks[k][i]| == w
    ensures forall i :: 0 <= i < |Flatten(blocks)| ==> |Flatten(blocks)[i]| == w
  {
    if |blocks| > 0 {
      FlattenWidth(blocks[1..], w);
      assert forall k, i :: 0 <= k < |blocks| - 1 && 0 <= i < |blocks[1..][k]| ==> blocks[1..][k][i] == blocks[k + 1][i];
    }
  }

  /** With distinct column names, reindexing onto a frame's own columns changes nothing. */
  lemma ReindexSame(f: Frame, fill: Cell)
    requires WellFormed(f) && Distinct(f.columns)
    ensures Reindex(f, f.columns, fill) == f
  {
    var r := Reindex(f, f.columns, fill);
    forall j | 0 <= j < |f.columns| ensures IndexOf(f.columns, f.columns[j]) == j {
      assert f.columns[j] in f.columns;
    }
    forall i | 0 <= i < |f.rows| ensures r.rows[i] == f.rows[i] {
    }
  }

  lemma {:induction false} AddNewPresent(acc: seq<string>, names: seq<string>)
    requires forall c :: c in names ==> c in acc
    ensures AddNew(acc, names) == acc
    decreases |names|
  {
    if |names| > 0 {
      AddNewPresent(acc, names[1..]);
    }
  }

  lemma {:induction false} AddNewFresh(names: seq<string>, done: nat)
    requires Distinct(names) && done <= |names|
    ensures AddNew(names[..done], names[done..]) == names
    decreases |names| - done
  {
    if done < |names| {
      AddNewStep(names, done);
      AddNewFresh(names, done + 1);
    } else {
      assert names[..done] == names;
    }
  }

  /** A name not yet added is added, one name at a time. */
  lemma AddNewStep(names: seq<string>, done: nat)
    requires Distinct(names) && done < |names|
    ensures AddNew(names[..done], names[done..]) == AddNew(names[..done + 1], names[done + 1..])
  {
    assert names[done] !in names[..done];
    assert names[..done] + [names[done]] == names[..done + 1];
    assert names[done..][1..] == names[done + 1..];
  }

  lemma {:induction false} UnionSame(frames: seq<Frame>, columns: seq<string>)
    requires forall k :: 0 <= k < |frames| ==> frames[k].columns == columns
    ensures UnionColumns(frames, columns) == columns
    decreases |frames|
  {
    if |frames| > 0 {
      AddNewPresent(columns, columns);
      assert forall k :: 0 <= k < |frames| - 1 ==> frames[1..][k] == frames[k + 1];
      UnionSame(frames[1..], columns);
    }
  }

  /** The rows of every frame, in order. */
  function AllRows(frames: seq<Frame>): seq<seq<seq<Cell>>> {
    seq(|frames|, k requires 0 <= k < |frames| => frames[k].rows)
  }

  /**
   * Frames that share one list of distinct columns concatenate to that list of
   * columns over all their rows, frame after frame, unchanged.
   */
  lemma ConcatUniform(frames: seq<Frame>, columns: seq<string>)
    requires |frames| > 0 && Distinct(columns)
    requires forall k :: 0 <= k < |frames| ==> WellFormed(frames[k]) && frames[k].columns == columns
    ensures Concat(frames) == Frame(columns, Flatten(AllRows(frames)))
  {
    assert frames[0].columns == columns;
    AddNewFresh(columns, 0);
    assert columns[..0] == [] && columns[0..] == columns;
    assert forall k :: 0 <= k < |frames| - 1 ==> frames[1..][k] == frames[k + 1];
    UnionSame(frames[1..], columns);
    forall k | 0 <= k < |frames| ensures Reindex(frames[k], columns, Null) == frames[k] {
      ReindexSame(frames[k], Null);
    }
    assert seq(|frames|, k requires 0 <= k < |frames| => Reindex(frames[k], columns, Null).rows) == AllRows(frames);
  }

  /** The number of rows over all blocks. */
  function TotalRows(blocks: seq<seq<seq<Cell>>>): nat {
    if |blocks| == 0 then 0 else |blocks[0]| + TotalRows(blocks[1..])
  }

  /** A flattened list holds the blocks' rows: the count adds up and every row comes from a block. */
  lemma {:induction false} FlattenRows(blocks: seq<seq<seq<Cell>>>, x: seq<Cell>)
    ensures |Flatten(blocks)| == TotalRows(blocks)
    ensures x in Flatten(blocks) <==> exists k :: 0 <= k < |blocks| && x in blocks[k]
  {
    if |blocks| > 0 {
      FlattenRows(blocks[1..], x);
      if x in Flatten(blocks[1..]) {
        var k :| 0 <= k < |blocks| - 1 && x in blocks[1..][k];
        assert x in blocks[k + 1];
      }
      if exists k :: 0 <= k < |blocks| && x in blocks[k] {
        var k :| 0 <= k < |blocks| && x in blocks[k];
        if k > 0 {
          assert x in blocks[1..][k - 1];
        }
      }
    }
  }

  /** Concatenating frames whose first frame is not empty gives a frame that is not empty. */
  lemma ConcatNotEmpty(frames: seq<Frame>)
    requires |frames| > 0 && forall k :: 0 <= k < |frames| ==> WellFormed(frames[k])
    requires !IsEmpty(frames[0])
    ensures !IsEmpty(Concat(frames))
  {
    var columns := UnionColumns(frames, []);
    assert frames[0].columns[0] in columns;
    var blocks := seq(|frames|, k requires 0 <= k < |frames| => Reindex(frames[k], columns, Null).rows);
    assert |blocks[0]| > 0;
    assert Concat(frames).rows == Flatten(blocks) == blocks[0] + Flatten(blocks[1..]);
  }

  /** A row of the concatenated rows sits at some position of some frame. */
  lemma InFlatFrame(frames: seq<Frame>, x: seq<Cell>) returns (k: int, i: int)
    requires x in Flatten(AllRows(frames))
    ensures 0 <= k < |frames| && 0 <= i < |frames[k].rows| && frames[k].rows[i] == x
  {
    FlattenRows(AllRows(frames), x);
    k :| 0 <= k < |frames| && x in AllRows(frames)[k];
    assert x in frames[k].rows;
    i :| 0 <= i < |frames[k].rows| && frames[k].rows[i] == x;
  }
}
