/**
 * The observable semantics of the one MySQL table a connector writes to: its schema
 * (every column VARCHAR(255), an optional composite primary key), its rows, and what
 * `CREATE TABLE IF NOT EXISTS` and the batched `INSERT ... ON DUPLICATE KEY UPDATE`
 * do to them. The SQL text the connector builds is modelled by the clause lists at
 * the end of this module.
 */
module SqlTable {
  import opened Wrappers
  import Text
  import Frames

  /** A stored value: text of a VARCHAR column, or NULL. */
  datatype SqlValue = Null | Str(s: string)

  /** A stored row: column name to value, defined exactly on the table's columns. */
  type Row = map<string, SqlValue>

  datatype Table = Table(columns: seq<string>, keys: seq<string>, rows: seq<Row>)

  /** The width every column is declared with. */
  const VarcharLength: nat := 255

  datatype SqlError =
    | NoSuchTable            // the statement names a table that does not exist
    | EmptyColumnList        // CREATE TABLE with no column
    | DuplicateColumn        // a column named twice
    | BadKeyColumn           // a primary-key column that is not a column, or is named twice
    | SyntaxError            // e.g. `ON DUPLICATE KEY UPDATE` followed by nothing
    | UnknownColumn          // a statement names a column the table lacks
    | ColumnCountMismatch    // a row with more or fewer values than columns
    | KeyNotSupplied         // a primary-key column absent from the INSERT column list
    | NullKey                // NULL written into a primary-key column
    | DataTooLong            // text longer than the declared VARCHAR width
    | DuplicateKey           // a plain INSERT whose key tuple already exists

  predicate Distinct<T(==)>(s: seq<T>) {
    forall i, j :: 0 <= i < j < |s| ==> s[i] != s[j]
  }

  /** The value of column `c`, NULL for a column the row lacks. */
  function Get(r: Row, c: string): SqlValue {
    if c in r then r[c] else Null
  }

  /** The key tuple of a row: its values at the key columns, in key order. */
  function Key(r: Row, keys: seq<string>): (k: seq<SqlValue>)
    ensures |k| == |keys|
    ensures forall i :: 0 <= i < |keys| ==> k[i] == Get(r, keys[i])
  {
    seq(|keys|, i requires 0 <= i < |keys| => Get(r, keys[i]))
  }

  /** No two rows share a key tuple. */
  predicate KeysUnique(rows: seq<Row>, keys: seq<string>) {
    forall i, j :: 0 <= i < j < |rows| ==> Key(rows[i], keys) != Key(rows[j], keys)
  }

  /** Key tuples unique on some columns stay unique on any list that includes those columns. */
  lemma KeysUniqueWider(rows: seq<Row>, keys: seq<string>, wider: seq<string>)
    requires KeysUnique(rows, keys)
    requires forall k :: k in keys ==> k in wider
    ensures KeysUnique(rows, wider)
  {
    forall i, j | 0 <= i < j < |rows| ensures Key(rows[i], wider) != Key(rows[j], wider) {
      assert Key(rows[i], keys) != Key(rows[j], keys);
      var m :| 0 <= m < |keys| && Get(rows[i], keys[m]) != Get(rows[j], keys[m]);
      assert keys[m] in keys;
      var w :| 0 <= w < |wider| && wider[w] == keys[m];
      assert Key(rows[i], wider)[w] != Key(rows[j], wider)[w];
    }
  }

  /** No row holds NULL in any of the listed columns. */
  predicate NoNullIn(rows: seq<Row>, cols: seq<string>) {
    forall i :: 0 <= i < |rows| ==> Null !in Key(rows[i], cols)
  }

  /** A valid table holds no NULL in a list of columns drawn from its primary key. */
  lemma KeyColumnsNotNull(t: Table, cols: seq<string>)
    requires ValidTable(t)
    requires forall k :: k in cols ==> k in t.keys
    ensures NoNullIn(t.rows, cols)
  {
    forall i | 0 <= i < |t.rows| ensures Null !in Key(t.rows[i], cols) {
      var r := t.rows[i];
      assert RowOk(r, t.columns, t.keys);
      forall m | 0 <= m < |cols| ensures Key(r, cols)[m] != Null {
        assert cols[m] in t.keys;
        var w :| 0 <= w < |t.keys| && t.keys[w] == cols[m];
        assert Key(r, t.keys)[w] == Key(r, cols)[m];
      }
    }
  }

  predicate FitsColumns(r: Row, columns: seq<string>) {
    r.Keys == set c | c in columns
  }

  /** The table invariant the engine maintains. */
  predicate ValidTable(t: Table) {
    && Distinct(t.columns)
    && Distinct(t.keys)
    && (forall k :: k in t.keys ==> k in t.columns)
    && (forall r :: r in t.rows ==> RowOk(r, t.columns, t.keys))
    && (|t.keys| > 0 ==> KeysUnique(t.rows, t.keys))
  }

  // ---------------------------------------------------------------------------------
  // CREATE TABLE IF NOT EXISTS
  // ---------------------------------------------------------------------------------

  /**
   * `CREATE TABLE IF NOT EXISTS` with the given columns and primary key: a no-op when
   * the table exists (no schema change), otherwise a new empty table or an error.
   */
  function CreateTable(db: Option<Table>, columns: seq<string>, keys: seq<string>)
    : (r: Result<Option<Table>, SqlError>)
    ensures db.Some? ==> r == Ok(db)
    ensures db.None? && r.Ok? ==> r.value == Some(Table(columns, keys, []))
    ensures db.None? ==> (r.Ok? <==>
      |columns| > 0 && Distinct(columns) && Distinct(keys) && (forall k :: k in keys ==> k in columns))
    ensures r.Ok? && r.value.Some? && (db.Some? ==> ValidTable(db.value)) ==> ValidTable(r.value.value)
  {
    if db.Some? then Ok(db)
    else if |columns| == 0 then Err(EmptyColumnList)
    else if !Distinct(columns) then Err(DuplicateColumn)
    else if !Distinct(keys) || exists k :: k in keys && k !in columns then Err(BadKeyColumn)
    else Ok(Some(Table(columns, keys, [])))
  }

  // ---------------------------------------------------------------------------------
  // Row-level upsert
  // ---------------------------------------------------------------------------------

  /** The position of the row whose key tuple is `k`, or -1. */
  function FindKey(rows: seq<Row>, keys: seq<string>, k: seq<SqlValue>): (i: int)
    ensures -1 <= i < |rows|
    ensures i >= 0 ==> Key(rows[i], keys) == k
    ensures i < 0 ==> forall j :: 0 <= j < |rows| ==> Key(rows[j], keys) != k
  {
    if |rows| == 0 then -1
    else if Key(rows[|rows| - 1], keys) == k then |rows| - 1
    else FindKey(rows[..|rows| - 1], keys, k)
  }

  lemma FindKeyUnique(rows: seq<Row>, keys: seq<string>, i: int)
    requires KeysUnique(rows, keys) && 0 <= i < |rows|
    ensures FindKey(rows, keys, Key(rows[i], keys)) == i
  {
  }

  /** `ON DUPLICATE KEY UPDATE c = VALUES(c), ...`: the listed columns take the new values. */
  function Assign(stored: Row, incoming: Row, update: seq<string>): (r: Row)
    ensures r.Keys == stored.Keys
    ensures forall c :: c in stored && c !in update ==> r[c] == stored[c]
    ensures forall c :: c in stored && c in update && c in incoming ==> r[c] == incoming[c]
  {
    map c | c in stored :: if c in update && c in incoming then incoming[c] else stored[c]
  }

  /** Updating a row from one with the same key tuple leaves the key tuple as it was, whatever the update list. */
  lemma AssignKeepsKey(stored: Row, incoming: Row, update: seq<string>, keys: seq<string>)
    requires Key(incoming, keys) == Key(stored, keys)
    ensures Key(Assign(stored, incoming, update), keys) == Key(stored, keys)
  {
    var a := Assign(stored, incoming, update);
    forall m | 0 <= m < |keys| ensures Get(a, keys[m]) == Get(stored, keys[m]) {
      assert Get(incoming, keys[m]) == Get(stored, keys[m]);
    }
  }

  /**
   * One row of the batch: on a keyed table a row whose key tuple exists is updated in
   * place (only the `update` columns), any other row is appended.
   */
  function Upsert(rows: seq<Row>, keys: seq<string>, update: seq<string>, r: Row): (res: seq<Row>)
  {
    var i := if |keys| == 0 then -1 else FindKey(rows, keys, Key(r, keys));
    if i < 0 then rows + [r] else rows[i := Assign(rows[i], r, update)]
  }

  /** The rows after a batch is upserted one row after another, in batch order. */
  function UpsertAll(rows: seq<Row>, keys: seq<string>, update: seq<string>, batch: seq<Row>)
    : (res: seq<Row>)
  {
    if |batch| == 0 then rows
    else Upsert(UpsertAll(rows, keys, update, batch[..|batch| - 1]), keys, update, batch[|batch| - 1])
  }

  /** The key tuples present among `rows`. */
  function KeySet(rows: seq<Row>, keys: seq<string>): set<seq<SqlValue>> {
    set i | 0 <= i < |rows| :: Key(rows[i], keys)
  }

  /**
   * Upserting one row on a keyed table: rows keep their positions and their key
   * tuples, a row with another key is untouched, a row whose key already existed
   * adds nothing, a new key is appended, and key tuples stay unique.
   */
  lemma UpsertShape(rows: seq<Row>, keys: seq<string>, update: seq<string>, r: Row)
    requires |keys| > 0 && KeysUnique(rows, keys)
    ensures var res := Upsert(rows, keys, update, r);
      && KeysUnique(res, keys)
      && |res| == |rows| + (if Key(r, keys) in KeySet(rows, keys) then 0 else 1)
      && (forall i :: 0 <= i < |rows| ==> Key(res[i], keys) == Key(rows[i], keys))
      && (forall i :: 0 <= i < |rows| && Key(rows[i], keys) != Key(r, keys) ==> res[i] == rows[i])
      && (forall i :: 0 <= i < |rows| ==> res[i].Keys == rows[i].Keys)
      && (forall i, c :: 0 <= i < |rows| && c in rows[i] && c !in update ==> res[i][c] == rows[i][c])
      && (|res| > |rows| ==> res[|rows|] == r)
      && KeySet(res, keys) == KeySet(rows, keys) + {Key(r, keys)}
  {
    var res := Upsert(rows, keys, update, r);
    var i := FindKey(rows, keys, Key(r, keys));
    if i >= 0 {
      var a := Assign(rows[i], r, update);
      AssignKeepsKey(rows[i], r, update, keys);
      assert Key(r, keys) in KeySet(rows, keys);
      assert forall j :: 0 <= j < |rows| ==> Key(res[j], keys) == Key(rows[j], keys);
      KeySetSame(rows, res, keys);
    } else {
      assert Key(r, keys) !in KeySet(rows, keys);
      assert res == rows + [r];
      KeySetAppend(rows, keys, r);
    }
  }

  /** Rows with the same key tuples, position by position, have the same key tuples. */
  lemma KeySetSame(a: seq<Row>, b: seq<Row>, keys: seq<string>)
    requires |a| == |b| && forall j :: 0 <= j < |a| ==> Key(a[j], keys) == Key(b[j], keys)
    ensures KeySet(a, keys) == KeySet(b, keys)
  {
    forall k | k in KeySet(a, keys) ensures k in KeySet(b, keys) {
      var j :| 0 <= j < |a| && Key(a[j], keys) == k;
      assert Key(b[j], keys) == k;
    }
    forall k | k in KeySet(b, keys) ensures k in KeySet(a, keys) {
      var j :| 0 <= j < |b| && Key(b[j], keys) == k;
      assert Key(a[j], keys) == k;
    }
  }

  /** Appending a row adds its key tuple. */
  lemma KeySetAppend(rows: seq<Row>, keys: seq<string>, r: Row)
    ensures KeySet(rows + [r], keys) == KeySet(rows, keys) + {Key(r, keys)}
  {
    var all := rows + [r];
    forall k | k in KeySet(all, keys) ensures k in KeySet(rows, keys) + {Key(r, keys)} {
      var j :| 0 <= j < |all| && Key(all[j], keys) == k;
      if j < |rows| { assert Key(rows[j], keys) == k; }
    }
    forall k | k in KeySet(rows, keys) ensures k in KeySet(all, keys) {
      var j :| 0 <= j < |rows| && Key(rows[j], keys) == k;
      assert Key(all[j], keys) == k;
    }
    assert Key(all[|rows|], keys) in KeySet(all, keys);
  }

  /**
   * Idempotent re-insert: writing the same row twice leaves the table as writing it
   * once did.
   */
  lemma UpsertIdempotent(rows: seq<Row>, keys: seq<string>, update: seq<string>, r: Row)
    requires |keys| > 0 && KeysUnique(rows, keys)
    ensures Upsert(Upsert(rows, keys, update, r), keys, update, r) == Upsert(rows, keys, update, r)
  {
    var once := Upsert(rows, keys, update, r);
    UpsertShape(rows, keys, update, r);
    var i := FindKey(rows, keys, Key(r, keys));
    var at := if i >= 0 then i else |rows|;
    assert Key(once[at], keys) == Key(r, keys) by {
      if i < 0 {
        assert once[at] == r;
      }
    }
    FindKeyUnique(once, keys, at);
    assert forall c :: c in once[at] && c in update && c in r ==> once[at][c] == r[c];
    AssignSame(once[at], r, update);
  }

  /** Assigning values a row already holds changes nothing. */
  lemma AssignSame(stored: Row, incoming: Row, update: seq<string>)
    requires forall c :: c in stored && c in update && c in incoming ==> stored[c] == incoming[c]
    ensures Assign(stored, incoming, update) == stored
  {
    var a := Assign(stored, incoming, update);
    assert forall c :: c in a ==> a[c] == stored[c];
  }

  /**
   * A whole batch on a keyed table: every old row keeps its position and key tuple,
   * and its columns outside the update list are never
   * rewritten; an old row whose key no batch row carries is untouched; the key tuples
   * afterwards are the old ones plus the batch's, each exactly once.
   */
  lemma {:induction false} UpsertAllShape(rows: seq<Row>, keys: seq<string>, update: seq<string>, batch: seq<Row>)
    requires |keys| > 0 && KeysUnique(rows, keys)
    ensures var res := UpsertAll(rows, keys, update, batch);
      && KeysUnique(res, keys)
      && |res| >= |rows|
      && (forall i :: 0 <= i < |rows| ==> Key(res[i], keys) == Key(rows[i], keys))
      && (forall i :: 0 <= i < |rows| && Key(rows[i], keys) !in KeySet(batch, keys) ==> res[i] == rows[i])
      && (forall i :: 0 <= i < |rows| ==> res[i].Keys == rows[i].Keys)
      && (forall i, c :: 0 <= i < |rows| && c in rows[i] && c !in update ==> res[i][c] == rows[i][c])
      && KeySet(res, keys) == KeySet(rows, keys) + KeySet(batch, keys)
    decreases |batch|
  {
    if |batch| > 0 {
      var init := batch[..|batch| - 1];
      var last := batch[|batch| - 1];
      UpsertAllShape(rows, keys, update, init);
      var mid := UpsertAll(rows, keys, update, init);
      UpsertShape(mid, keys, update, last);
      assert batch == init + [last];
      KeySetAppend(init, keys, last);
    }
  }

  /** The last batch row carrying key tuple `k` is at position `j`. */
  predicate LastWithKey(batch: seq<Row>, keys: seq<string>, j: int) {
    0 <= j < |batch| && forall m :: j < m < |batch| ==> Key(batch[m], keys) != Key(batch[j], keys)
  }

  /** Some row of `rows` has the key tuple of `b` and `b`'s values in the update columns. */
  predicate Holds(rows: seq<Row>, keys: seq<string>, update: seq<string>, b: Row) {
    exists i :: 0 <= i < |rows| && Key(rows[i], keys) == Key(b, keys)
      && forall c :: c in rows[i] && c in update && c in b ==> rows[i][c] == b[c]
  }

  /** The row just upserted lands at one position, under its own key, with its update values. */
  lemma UpsertLands(rows: seq<Row>, keys: seq<string>, update: seq<string>, r: Row)
    ensures Holds(Upsert(rows, keys, update, r), keys, update, r)
  {
    var res := Upsert(rows, keys, update, r);
    var p := if |keys| == 0 then -1 else FindKey(rows, keys, Key(r, keys));
    if p >= 0 {
      var a := Assign(rows[p], r, update);
      assert res[p] == a;
      AssignKeepsKey(rows[p], r, update, keys);
    } else {
      assert res[|rows|] == r;
    }
  }

  /** Upserting a row leaves every row with another key where it was. */
  lemma UpsertKeepsOthers(rows: seq<Row>, keys: seq<string>, update: seq<string>, r: Row, i: int)
    requires 0 <= i < |rows| && Key(rows[i], keys) != Key(r, keys)
    ensures var res := Upsert(rows, keys, update, r); i < |res| && res[i] == rows[i]
  {
  }

  /** A row already holding `b`'s values keeps them when a row with another key is upserted. */
  lemma HoldsAfterOtherKey(rows: seq<Row>, keys: seq<string>, update: seq<string>, r: Row, b: Row)
    requires Holds(rows, keys, update, b) && Key(b, keys) != Key(r, keys)
    ensures Holds(Upsert(rows, keys, update, r), keys, update, b)
  {
    var i :| 0 <= i < |rows| && Key(rows[i], keys) == Key(b, keys)
      && forall c :: c in rows[i] && c in update && c in b ==> rows[i][c] == b[c];
    UpsertKeepsOthers(rows, keys, update, r, i);
  }

  /**
   * Last write wins: for every key tuple in the batch, the table afterwards holds a row
   * with that key whose update columns carry the values of the LAST batch row with that
   * key, whether the collision was within the batch or with an earlier insert.
   */
  lemma {:induction false} UpsertAllLastWriteWins(rows: seq<Row>, keys: seq<string>, update: seq<string>,
                                                  batch: seq<Row>, j: int)
    requires LastWithKey(batch, keys, j)
    ensures Holds(UpsertAll(rows, keys, update, batch), keys, update, batch[j])
    decreases |batch|
  {
    var init := batch[..|batch| - 1];
    var last := batch[|batch| - 1];
    var mid := UpsertAll(rows, keys, update, init);
    assert UpsertAll(rows, keys, update, batch) == Upsert(mid, keys, update, last);
    if j == |batch| - 1 {
      UpsertLands(mid, keys, update, last);
    } else {
      assert init[j] == batch[j];
      assert LastWithKey(init, keys, j);
      UpsertAllLastWriteWins(rows, keys, update, init, j);
      HoldsAfterOtherKey(mid, keys, update, last, batch[j]);
    }
  }

  // ---------------------------------------------------------------------------------
  // The batched INSERT statement
  // ---------------------------------------------------------------------------------

  /**
   * `INSERT INTO t (columns) VALUES (...)`, with `ON DUPLICATE KEY UPDATE` over
   * `update` when it is present.
   */
  datatype InsertStatement = Insert(columns: seq<string>, update: Option<seq<string>>)

  /** The stored row an INSERT writes: the given values, NULL for the columns not listed. */
  function BuildRow(t: Table, columns: seq<string>, values: seq<SqlValue>): (r: Row)
    requires |values| == |columns|
    ensures FitsColumns(r, t.columns)
    ensures forall i :: 0 <= i < |columns| && columns[i] in t.columns && columns[i] !in columns[..i] ==>
      r[columns[i]] == values[i]
  {
    map c | c in t.columns :: var i := Frames.IndexOf(columns, c); if i < 0 then Null else values[i]
  }

  /** Why the engine rejects the statement as a whole, if it does. */
  function InsertCheck(t: Table, stmt: InsertStatement, values: seq<seq<SqlValue>>): (e: Option<SqlError>)
    ensures e.None? ==> stmt.update != Some([]) && Distinct(stmt.columns)
    ensures e.None? ==> forall c :: c in stmt.columns ==> c in t.columns
    ensures e.None? ==> forall k :: k in t.keys ==> k in stmt.columns
    ensures e.None? ==> forall i :: 0 <= i < |values| ==> |values[i]| == |stmt.columns|
  {
    if stmt.update == Some([]) then Some(SyntaxError)
    else if !Distinct(stmt.columns) then Some(DuplicateColumn)
    else if exists c :: c in stmt.columns && c !in t.columns then Some(UnknownColumn)
    else if exists c :: c in stmt.update.GetOr([]) && c !in t.columns then Some(UnknownColumn)
    else if exists i :: 0 <= i < |values| && |values[i]| != |stmt.columns| then Some(ColumnCountMismatch)
    else if exists k :: k in t.keys && k !in stmt.columns then Some(KeyNotSupplied)
    else if (exists i, j :: 0 <= i < |values| && 0 <= j < |values[i]| && stmt.columns[j] in t.keys
               && values[i][j] == Null) then Some(NullKey)
    else if (exists i, j :: 0 <= i < |values| && 0 <= j < |values[i]| && values[i][j].Str?
               && |values[i][j].s| > VarcharLength) then Some(DataTooLong)
    else None
  }

  /** The rows of the batch as stored rows. */
  function BatchRows(t: Table, stmt: InsertStatement, values: seq<seq<SqlValue>>): (b: seq<Row>)
    requires forall i :: 0 <= i < |values| ==> |values[i]| == |stmt.columns|
    ensures |b| == |values|
    ensures forall i :: 0 <= i < |b| ==> b[i] == BuildRow(t, stmt.columns, values[i])
  {
    seq(|values|, i requires 0 <= i < |values| => BuildRow(t, stmt.columns, values[i]))
  }

  /**
   * The multi-row INSERT the driver sends for `executemany`: one statement, so it
   * either applies to every row, in batch order, or to none.
   */
  function ExecInsert(db: Option<Table>, stmt: InsertStatement, values: seq<seq<SqlValue>>)
    : (r: Result<Table, SqlError>)
    ensures db.None? ==> r == Err(NoSuchTable)
    ensures db.Some? && stmt.update == Some([]) ==> r == Err(SyntaxError)
  {
    if db.None? then Err(NoSuchTable)
    else
      var t := db.value;
      var e := InsertCheck(t, stmt, values);
      if e.Some? then Err(e.value)
      else
        var batch := BatchRows(t, stmt, values);
        if stmt.update.Some? || |t.keys| == 0 then
          Ok(t.(rows := UpsertAll(t.rows, t.keys, stmt.update.GetOr([]), batch)))
        else if KeysUnique(t.rows + batch, t.keys) then Ok(t.(rows := t.rows + batch))
        else Err(DuplicateKey)
  }

  /** An accepted statement with an update clause upserts its batch. */
  lemma ExecUpsert(t: Table, stmt: InsertStatement, values: seq<seq<SqlValue>>)
    requires InsertCheck(t, stmt, values).None? && stmt.update.Some?
    ensures ExecInsert(Some(t), stmt, values)
      == Ok(t.(rows := UpsertAll(t.rows, t.keys, stmt.update.value, BatchRows(t, stmt, values))))
  {
  }

  /** Rows built for a valid table fit it and carry no NULL in a key column. */
  lemma BatchRowsFit(t: Table, stmt: InsertStatement, values: seq<seq<SqlValue>>)
    requires ValidTable(t) && InsertCheck(t, stmt, values).None?
    ensures forall r :: r in BatchRows(t, stmt, values) ==> RowOk(r, t.columns, t.keys)
  {
    var b := BatchRows(t, stmt, values);
    forall i | 0 <= i < |b| ensures RowOk(b[i], t.columns, t.keys) {
      forall m | 0 <= m < |t.keys| ensures Get(b[i], t.keys[m]) != Null {
        var k := t.keys[m];
        var j := Frames.IndexOf(stmt.columns, k);
        assert stmt.columns[j] in t.keys;
      }
    }
  }

  /** A row fits the columns and has no NULL in a key column. */
  predicate RowOk(r: Row, columns: seq<string>, keys: seq<string>) {
    FitsColumns(r, columns) && Null !in Key(r, keys)
  }

  /** Upserting rows that fit keeps every row fitting. */
  lemma {:induction false} UpsertAllFits(rows: seq<Row>, keys: seq<string>, update: seq<string>,
                                         batch: seq<Row>, columns: seq<string>)
    requires forall i :: 0 <= i < |rows| ==> RowOk(rows[i], columns, keys)
    requires forall i :: 0 <= i < |batch| ==> RowOk(batch[i], columns, keys)
    ensures forall r :: r in UpsertAll(rows, keys, update, batch) ==> RowOk(r, columns, keys)
    decreases |batch|
  {
    if |batch| > 0 {
      var init := batch[..|batch| - 1];
      UpsertAllFits(rows, keys, update, init, columns);
      var mid := UpsertAll(rows, keys, update, init);
      var last := batch[|batch| - 1];
      var res := Upsert(mid, keys, update, last);
      assert RowOk(last, columns, keys);
      var p := if |keys| == 0 then -1 else FindKey(mid, keys, Key(last, keys));
      if p >= 0 {
        var a := Assign(mid[p], last, update);
        assert res == mid[p := a];
        AssignKeepsKey(mid[p], last, update, keys);
        assert RowOk(mid[p], columns, keys);
        assert RowOk(a, columns, keys);
        assert forall r :: r in res ==> r in mid || r == a;
      } else {
        assert res == mid + [last];
      }
    }
  }

  /** A successful INSERT keeps the table invariant. */
  lemma ExecInsertValid(t: Table, stmt: InsertStatement, values: seq<seq<SqlValue>>)
    requires ValidTable(t)
    ensures var r := ExecInsert(Some(t), stmt, values);
      r.Ok? ==> ValidTable(r.value) && r.value.columns == t.columns && r.value.keys == t.keys
  {
    var r := ExecInsert(Some(t), stmt, values);
    if r.Ok? {
      var batch := BatchRows(t, stmt, values);
      BatchRowsFit(t, stmt, values);
      var u := stmt.update.GetOr([]);
      UpsertAllFits(t.rows, t.keys, u, batch, t.columns);
      if |t.keys| > 0 && stmt.update.Some? {
        UpsertAllShape(t.rows, t.keys, u, batch);
      }
    }
  }
}
