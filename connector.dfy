/**
 * `MySQLDataConnector`: a handle on one MySQL table that creates it on first use from
 * a DataFrame's columns, upserts batches by primary key, and optionally trims every
 * `Symbol` partition to a fixed number of rows by a sort column.
 *
 * The database is the `table` field (`None` while the table does not exist); the
 * statements the connector generates are given as the column, key and update lists
 * they are built from, and their effect is the engine semantics of `SqlTable` and
 * `Retention`.
 */
module MySqlConnector {
  import opened Wrappers
  import F = Frames
  import opened SqlTable
  import R = Retention

  // ---------------------------------------------------------------------------------
  // Arguments
  // ---------------------------------------------------------------------------------

  /** An entry of `self.primary_keys`: Python's `None`, or a column name. */
  datatype PyKey = PyNone | PyStr(name: string)

  /** The `primary_keys` argument: a list of names, `None` (the default), or one name. */
  datatype KeyArg = KeyList(names: seq<string>) | NoKeys | OneKey(name: string)

  /**
   * Anything but a list is wrapped in a one-element list, so the default `None`
   * becomes `[None]`; only an explicit empty list leaves the connector without keys.
   */
  function NormalizeKeys(arg: KeyArg): (keys: seq<PyKey>)
    ensures |keys| == 0 <==> arg == KeyList([])
    ensures !arg.KeyList? ==> |keys| == 1
    ensures arg.KeyList? ==> |keys| == |arg.names| && forall i :: 0 <= i < |keys| ==> keys[i] == PyStr(arg.names[i])
    ensures arg.NoKeys? ==> PyNone in keys
  {
    match arg
    case KeyList(names) => seq(|names|, i requires 0 <= i < |names| => PyStr(names[i]))
    case NoKeys => [PyNone]
    case OneKey(name) => [PyStr(name)]
  }

  /** How a key is spelled inside the statement text: `None` formats as the word None. */
  function KeyText(k: PyKey): string {
    match k
    case PyNone => "None"
    case PyStr(name) => name
  }

  /** The key columns the statements name, one per key, in order. */
  function KeyColumns(keys: seq<PyKey>): (cols: seq<string>)
    ensures |cols| == |keys|
    ensures forall i :: 0 <= i < |keys| ==> cols[i] == KeyText(keys[i])
  {
    seq(|keys|, i requires 0 <= i < |keys| => KeyText(keys[i]))
  }

  // ---------------------------------------------------------------------------------
  // CREATE TABLE IF NOT EXISTS
  // ---------------------------------------------------------------------------------

  /** One entry of the column-definition list of `CREATE TABLE`. */
  datatype ColumnDef = Varchar(name: string, length: nat) | PrimaryKey(columns: seq<string>)

  /** `` `c` VARCHAR(255)`` for every batch column, in batch order. */
  function VarcharDefs(columns: seq<string>): (defs: seq<ColumnDef>)
    ensures |defs| == |columns|
    ensures forall i :: 0 <= i < |defs| ==> defs[i] == Varchar(columns[i], VarcharLength)
  {
    seq(|columns|, i requires 0 <= i < |columns| => Varchar(columns[i], VarcharLength))
  }

  /**
   * The definition list: one text column per batch column, then a `PRIMARY KEY`
   * clause over the key list exactly when the key list is non-empty.
   */
  function ColumnDefinitions(columns: seq<string>, keys: seq<PyKey>): (defs: seq<ColumnDef>)
    ensures (exists d :: d in defs && d.PrimaryKey?) <==> |keys| > 0
    ensures forall i :: 0 <= i < |columns| ==> i < |defs| && defs[i].Varchar? && defs[i].length == VarcharLength
  {
    var pk := if |keys| > 0 then [PrimaryKey(KeyColumns(keys))] else [];
    assert |keys| > 0 ==> (VarcharDefs(columns) + pk)[|columns|] == PrimaryKey(KeyColumns(keys));
    VarcharDefs(columns) + pk
  }

  /** The columns a definition list declares, in order. */
  function DeclaredColumns(defs: seq<ColumnDef>): seq<string> {
    if |defs| == 0 then []
    else
      var last := defs[|defs| - 1];
      DeclaredColumns(defs[..|defs| - 1]) + (if last.Varchar? then [last.name] else [])
  }

  /** The primary key a definition list declares (its last `PRIMARY KEY` clause), or none. */
  function DeclaredKey(defs: seq<ColumnDef>): seq<string> {
    if |defs| == 0 then []
    else if defs[|defs| - 1].PrimaryKey? then defs[|defs| - 1].columns
    else DeclaredKey(defs[..|defs| - 1])
  }

  /** The engine reading the statement: the table it declares. */
  function ExecCreate(db: Option<Table>, defs: seq<ColumnDef>): Result<Option<Table>, SqlError> {
    CreateTable(db, DeclaredColumns(defs), DeclaredKey(defs))
  }

  lemma {:induction false} DeclaredVarchars(columns: seq<string>)
    ensures DeclaredColumns(VarcharDefs(columns)) == columns
    ensures DeclaredKey(VarcharDefs(columns)) == []
  {
    if |columns| > 0 {
      var init := columns[..|columns| - 1];
      DeclaredVarchars(init);
      assert VarcharDefs(columns)[..|columns| - 1] == VarcharDefs(init);
    }
  }

  /** The generated definitions declare exactly the batch's columns and the key list. */
  lemma DefinitionsRoundTrip(columns: seq<string>, keys: seq<PyKey>)
    ensures DeclaredColumns(ColumnDefinitions(columns, keys)) == columns
    ensures DeclaredKey(ColumnDefinitions(columns, keys)) == KeyColumns(keys)
  {
    DeclaredVarchars(columns);
    var defs := ColumnDefinitions(columns, keys);
    if |keys| > 0 {
      assert defs[..|defs| - 1] == VarcharDefs(columns);
    } else {
      assert defs == VarcharDefs(columns);
    }
  }

  /** The database after `create_table_if_not_exists` with a live connection; an error leaves it as it was. */
  function AfterCreate(db: Option<Table>, columns: seq<string>, keys: seq<PyKey>): Option<Table> {
    var r := ExecCreate(db, ColumnDefinitions(columns, keys));
    if r.Ok? then r.value else db
  }

  /**
   * Creation: an existing table is left alone whatever the batch looks like; a missing
   * one is created empty with the batch's columns and the key list, when the engine
   * accepts the definitions.
   */
  lemma CreateEffect(db: Option<Table>, columns: seq<string>, keys: seq<PyKey>)
    ensures db.Some? ==> AfterCreate(db, columns, keys) == db
    ensures db.None? ==> (AfterCreate(db, columns, keys).Some? <==>
      |columns| > 0 && Distinct(columns) && Distinct(KeyColumns(keys))
      && forall k :: k in KeyColumns(keys) ==> k in columns)
    ensures db.None? && AfterCreate(db, columns, keys).Some? ==>
      AfterCreate(db, columns, keys) == Some(Table(columns, KeyColumns(keys), []))
  {
    DefinitionsRoundTrip(columns, keys);
  }

  /** A second call, with any batch, changes nothing: `IF NOT EXISTS` keeps the first schema. */
  lemma CreateIdempotent(db: Option<Table>, columns: seq<string>, keys: seq<PyKey>,
                         columns2: seq<string>, keys2: seq<PyKey>)
    requires AfterCreate(db, columns, keys).Some?
    ensures AfterCreate(AfterCreate(db, columns, keys), columns2, keys2) == AfterCreate(db, columns, keys)
  {
    CreateEffect(AfterCreate(db, columns, keys), columns2, keys2);
  }

  // ---------------------------------------------------------------------------------
  // INSERT ... ON DUPLICATE KEY UPDATE
  // ---------------------------------------------------------------------------------

  /**
   * The columns of the update clause: every batch column not in the key list, in
   * batch order. The comparison is with the key objects, so `None` excludes nothing.
   */
  function UpdateColumns(columns: seq<string>, keys: seq<PyKey>): (u: seq<string>)
    ensures forall c :: c in u <==> c in columns && PyStr(c) !in keys
    ensures |u| <= |columns|
  {
    if |columns| == 0 then []
    else
      var last := columns[|columns| - 1];
      var init := UpdateColumns(columns[..|columns| - 1], keys);
      assert forall c :: c in columns <==> c in columns[..|columns| - 1] || c == last;
      init + (if PyStr(last) in keys then [] else [last])
  }

  /** The update clause is empty exactly when every batch column is a key. */
  lemma UpdateColumnsEmpty(columns: seq<string>, keys: seq<PyKey>)
    ensures UpdateColumns(columns, keys) == [] <==> forall c :: c in columns ==> PyStr(c) in keys
  {
    var u := UpdateColumns(columns, keys);
    if u != [] {
      assert u[0] in u;
    }
  }

  /** The statement sent for a batch: with keys, `ON DUPLICATE KEY UPDATE` over the non-key columns. */
  function InsertFor(columns: seq<string>, keys: seq<PyKey>): (stmt: InsertStatement)
    ensures stmt.columns == columns
    ensures stmt.update.Some? <==> |keys| > 0
    ensures stmt.update.Some? ==> forall c :: c in stmt.update.value <==> c in columns && PyStr(c) !in keys
  {
    Insert(columns, if |keys| > 0 then Some(UpdateColumns(columns, keys)) else None)
  }

  /**
   * A cell as the driver sends it: a missing value as NULL, a string as itself, a
   * number as its text (the column is VARCHAR), by the given rendering.
   */
  function ToSql(c: F.Cell, render: real -> string): (v: SqlValue)
    ensures v == Null <==> c.Null?
    ensures c.Text? ==> v == Str(c.s)
  {
    match c
    case Null => Null
    case Text(s) => Str(s)
    case Num(r) => Str(render(r))
  }

  /** `df.itertuples(index=False)`: one parameter tuple per row, in row order. */
  function BatchValues(f: F.Frame, render: real -> string): (values: seq<seq<SqlValue>>)
    ensures |values| == |f.rows|
    ensures forall i :: 0 <= i < |values| ==>
      (|values[i]| == |f.rows[i]| && forall j :: 0 <= j < |f.rows[i]| ==> values[i][j] == ToSql(f.rows[i][j], render))
  {
    seq(|f.rows|, i requires 0 <= i < |f.rows| =>
      seq(|f.rows[i]|, j requires 0 <= j < |f.rows[i]| => ToSql(f.rows[i][j], render)))
  }

  /** The database after a statement: its result when it succeeds, unchanged when it fails. */
  function Applied(db: Option<Table>, r: Result<Table, SqlError>): (d: Option<Table>)
    ensures r.Ok? ==> d == Some(r.value)
    ensures r.Err? ==> d == db
  {
    if r.Ok? then Some(r.value) else db
  }

  /** The database after the batch INSERT (after creation). */
  function AfterInsert(db: Option<Table>, keys: seq<PyKey>, f: F.Frame, render: real -> string): Option<Table> {
    Applied(db, ExecInsert(db, InsertFor(f.columns, keys), BatchValues(f, render)))
  }

  /** When every batch column is a key the update clause is empty, the statement is malformed and the batch is lost. */
  lemma AllKeyBatchRejected(db: Option<Table>, keys: seq<PyKey>, f: F.Frame, render: real -> string)
    requires |keys| > 0
    requires forall c :: c in f.columns ==> PyStr(c) in keys
    ensures ExecInsert(db, InsertFor(f.columns, keys), BatchValues(f, render)).Err?
    ensures AfterInsert(db, keys, f, render) == db
  {
    UpdateColumnsEmpty(f.columns, keys);
  }

  /**
   * Last write wins across the batch: after a successful keyed INSERT, for the last
   * batch row with a given key tuple the table holds a row with that key whose update
   * columns carry that row's values.
   */
  lemma InsertLastWriteWins(t: Table, keys: seq<PyKey>, f: F.Frame, render: real -> string, j: int)
    requires |keys| > 0
    requires InsertCheck(t, InsertFor(f.columns, keys), BatchValues(f, render)).None?
    requires LastWithKey(BatchRows(t, InsertFor(f.columns, keys), BatchValues(f, render)), t.keys, j)
    ensures var rows := AfterInsert(Some(t), keys, f, render).value.rows;
      var batch := BatchRows(t, InsertFor(f.columns, keys), BatchValues(f, render));
      Holds(rows, t.keys, UpdateColumns(f.columns, keys), batch[j])
  {
    var stmt := InsertFor(f.columns, keys);
    var values := BatchValues(f, render);
    var batch := BatchRows(t, stmt, values);
    var u := UpdateColumns(f.columns, keys);
    ExecUpsert(t, stmt, values);
    UpsertAllLastWriteWins(t.rows, t.keys, u, batch, j);
  }

  // ---------------------------------------------------------------------------------
  // Retention
  // ---------------------------------------------------------------------------------

  /** `if self.max_row_key and self.sort_col`: a cap of 0 or no sort column disables the trim. */
  predicate RetentionRuns(cap: int, sortCol: string) {
    cap != 0 && sortCol != ""
  }

  /** The DELETE statement for the key list, sort column and cap. */
  function DeleteFor(keys: seq<PyKey>, sortCol: string, cap: int): R.DeleteStatement {
    R.DeleteRanked(KeyColumns(keys), sortCol, cap)
  }

  /** `_enforce_max_rows` with a live connection: skipped without keys or sort column; a failing DELETE changes nothing. */
  function AfterTrim(db: Option<Table>, keys: seq<PyKey>, sortCol: string, cap: int): Option<Table> {
    if |keys| == 0 || sortCol == "" then db
    else Applied(db, R.ExecDelete(db, DeleteFor(keys, sortCol, cap)))
  }

  /** `insert_or_update` with a live connection: nothing for an empty batch; otherwise create, insert, then trim, even after a failed insert. */
  function AfterInsertOrUpdate(db: Option<Table>, keys: seq<PyKey>, cap: int, sortCol: string,
                               render: real -> string, f: F.Frame): Option<Table> {
    if F.IsEmpty(f) then db
    else
      var inserted := AfterInsert(AfterCreate(db, f.columns, keys), keys, f, render);
      if RetentionRuns(cap, sortCol) then AfterTrim(inserted, keys, sortCol, cap) else inserted
  }

  /**
   * `_enforce_max_rows` runs a DELETE the engine accepts: keys, a sort column, every
   * column it names present, and key columns that are distinct and not `row_num`, so
   * that the derived table's column names do not repeat.
   */
  predicate TrimApplies(t: Table, keys: seq<PyKey>, sortCol: string) {
    && |keys| > 0 && sortCol != "" && R.PartitionColumn in t.columns && sortCol in t.columns
    && (forall k :: k in KeyColumns(keys) ==> k in t.columns)
    && Distinct(KeyColumns(keys)) && R.RowNumberColumn !in KeyColumns(keys)
  }

  /** The trim of an existing table: the DELETE's rows when it applies, the table unchanged otherwise. */
  lemma TrimApplied(t: Table, keys: seq<PyKey>, sortCol: string, cap: int)
    ensures AfterTrim(Some(t), keys, sortCol, cap) ==
      if TrimApplies(t, keys, sortCol) then Some(t.(rows := R.Trim(t.rows, KeyColumns(keys), sortCol, cap)))
      else Some(t)
  {
  }

  /**
   * The rows the DELETE leaves in a valid table, joined on any column list: a valid
   * table of rows it had, at most min(n, cap) of a partition of n rows besides those a
   * NULL join value strands, at most min(n, cap) without NULL in the join columns, and
   * exactly the top min(n, cap) when the join's key tuples are also unique.
   */
  lemma JoinedTrimFacts(t: Table, join: seq<string>, sortCol: string, cap: int)
    requires ValidTable(t)
    ensures var rows := R.Trim(t.rows, join, sortCol, cap);
      && ValidTable(t.(rows := rows))
      && (forall x :: x in rows ==> x in t.rows)
      && (forall v :: R.Count(rows, v) <= R.Min(R.Count(t.rows, v), R.Max(cap, 0)) + |R.Stranded(t.rows, join, sortCol, cap, v)|)
      && (NoNullIn(t.rows, join) ==> forall v :: R.Count(rows, v) <= R.Min(R.Count(t.rows, v), R.Max(cap, 0)))
      && ((KeysUnique(t.rows, join) || (|t.keys| > 0 && forall k :: k in t.keys ==> k in join))
          && NoNullIn(t.rows, join) ==>
            R.RetainsTopPerPartition(t.rows, rows, sortCol, cap))
  {
    R.TrimValid(t, join, sortCol, cap);
    JoinedTrimCounts(t.rows, join, sortCol, cap);
    if NoNullIn(t.rows, join) && |t.keys| > 0 && forall k :: k in t.keys ==> k in join {
      KeysUniqueWider(t.rows, t.keys, join);
    }
    if NoNullIn(t.rows, join) && KeysUnique(t.rows, join) {
      R.TrimRetainsTop(t.rows, join, sortCol, cap);
    }
  }

  /** The per-partition bounds of `JoinedTrimFacts`, with and without NULL in the join columns. */
  lemma JoinedTrimCounts(rows: seq<Row>, join: seq<string>, sortCol: string, cap: int)
    ensures var kept := R.Trim(rows, join, sortCol, cap);
      && (forall v :: R.Count(kept, v) <= R.Min(R.Count(rows, v), R.Max(cap, 0)) + |R.Stranded(rows, join, sortCol, cap, v)|)
      && (NoNullIn(rows, join) ==> forall v :: R.Count(kept, v) <= R.Min(R.Count(rows, v), R.Max(cap, 0)))
  {
    var kept := R.Trim(rows, join, sortCol, cap);
    forall v ensures R.Count(kept, v) <= R.Min(R.Count(rows, v), R.Max(cap, 0)) + |R.Stranded(rows, join, sortCol, cap, v)| {
      R.TrimCountBound(rows, join, sortCol, cap, v);
    }
    if NoNullIn(rows, join) {
      forall v ensures R.Stranded(rows, join, sortCol, cap, v) == {} {
        R.StrandedNone(rows, join, sortCol, cap, v);
      }
    }
  }


  /**
   * The trim on a valid table, joined on the connector's own key list whatever key the
   * table was created with. When the DELETE applies, the rows left are those the join
   * does not match: only rows the table had, and of a partition of n rows at most
   * min(n, cap) besides the rows a NULL join value strands past the cap. Without NULL in
   * the join columns that is at most min(n, cap), and exactly the top min(n, cap) rows
   * when the join's key tuples are also unique, as they are when the table's own key is
   * among the join columns. Otherwise the table is left as it was. Either way the schema
   * stays and the table stays valid.
   */
  lemma TrimEffect(t: Table, keys: seq<PyKey>, sortCol: string, cap: int)
    requires ValidTable(t)
    ensures var d := AfterTrim(Some(t), keys, sortCol, cap);
      var join := KeyColumns(keys);
      && d.Some? && d.value.columns == t.columns && d.value.keys == t.keys && ValidTable(d.value)
      && (if TrimApplies(t, keys, sortCol)
          then && d.value.rows == R.Trim(t.rows, join, sortCol, cap)
               && (forall x :: x in d.value.rows ==> x in t.rows)
               && (forall v :: R.Count(d.value.rows, v) <=
                     R.Min(R.Count(t.rows, v), R.Max(cap, 0)) + |R.Stranded(t.rows, join, sortCol, cap, v)|)
               && (NoNullIn(t.rows, join) ==>
                     forall v :: R.Count(d.value.rows, v) <= R.Min(R.Count(t.rows, v), R.Max(cap, 0)))
               && ((KeysUnique(t.rows, join) || (|t.keys| > 0 && forall k :: k in t.keys ==> k in join))
                   && NoNullIn(t.rows, join) ==>
                     R.RetainsTopPerPartition(t.rows, d.value.rows, sortCol, cap))
          else d.value == t)
  {
    TrimApplied(t, keys, sortCol, cap);
    JoinedTrimFacts(t, KeyColumns(keys), sortCol, cap);
  }

  /**
   * A key list that names a column twice, or names `row_num`, makes the derived table
   * `ranked` repeat a column name; the engine rejects the DELETE, the handler catches
   * the error, and no row is deleted.
   */
  lemma RepeatedJoinKeepsAll(t: Table, keys: seq<PyKey>, sortCol: string, cap: int)
    requires !Distinct(KeyColumns(keys)) || R.RowNumberColumn in KeyColumns(keys)
    ensures AfterTrim(Some(t), keys, sortCol, cap) == Some(t)
  {
    if |keys| > 0 && sortCol != "" {
      assert R.DeleteRejected(t, DeleteFor(keys, sortCol, cap));
    }
  }

  /**
   * A connector keyed on `Symbol` alone, trimming a table keyed more finely, deletes
   * every row of a symbol that has more rows than the cap; rows whose `Symbol` is NULL
   * all stay, since the join never matches them.
   */
  lemma SymbolKeyEmptiesPartition(t: Table, sortCol: string, cap: int, v: SqlValue)
    requires ValidTable(t) && sortCol != "" && R.PartitionColumn in t.columns && sortCol in t.columns
    requires 0 <= cap < R.Count(t.rows, v)
    ensures R.Count(AfterTrim(Some(t), [PyStr(R.PartitionColumn)], sortCol, cap).value.rows, v) ==
            if v == Null then R.Count(t.rows, v) else 0
  {
    assert KeyColumns([PyStr(R.PartitionColumn)]) == [R.PartitionColumn];
    R.PartitionJoinEmpties(t.rows, sortCol, cap, v);
  }

  /** A partition already within the cap keeps all its rows, in order, when the join's key tuples are unique. */
  lemma TrimSparesSmall(t: Table, keys: seq<PyKey>, sortCol: string, cap: int, v: SqlValue)
    requires R.Count(t.rows, v) <= cap
    ensures KeysUnique(t.rows, KeyColumns(keys)) ==>
      R.RowsOf(AfterTrim(Some(t), keys, sortCol, cap).value.rows, v) == R.RowsOf(t.rows, v)
  {
    if |keys| > 0 && KeysUnique(t.rows, KeyColumns(keys)) {
      R.TrimSparesSmallPartitions(t.rows, KeyColumns(keys), sortCol, cap, v);
    }
  }

  /**
   * A whole `insert_or_update` keeps the table invariant; an existing table keeps its
   * own key list, and a table it creates is keyed on the connector's keys.
   */
  lemma InsertOrUpdateValid(db: Option<Table>, keys: seq<PyKey>, cap: int, sortCol: string,
                            render: real -> string, f: F.Frame)
    requires db.Some? ==> ValidTable(db.value)
    ensures var d := AfterInsertOrUpdate(db, keys, cap, sortCol, render, f);
      d.Some? ==> ValidTable(d.value) && d.value.keys == if db.Some? then db.value.keys else KeyColumns(keys)
  {
    if !F.IsEmpty(f) {
      var created := AfterCreate(db, f.columns, keys);
      CreateEffect(db, f.columns, keys);
      var inserted := AfterInsert(created, keys, f, render);
      if created.Some? {
        ExecInsertValid(created.value, InsertFor(f.columns, keys), BatchValues(f, render));
      }
      if RetentionRuns(cap, sortCol) && inserted.Some? {
        TrimEffect(inserted.value, keys, sortCol, cap);
      }
    }
  }

  // ---------------------------------------------------------------------------------
  // read_table
  // ---------------------------------------------------------------------------------

  /** A stored value as pandas reads it back. */
  function ToCell(v: SqlValue): (c: F.Cell)
    ensures c.Null? <==> v.Null?
    ensures v.Str? ==> c == F.Text(v.s)
  {
    match v
    case Null => F.Null
    case Str(s) => F.Text(s)
  }

  /** `SELECT *` as a DataFrame: the table's columns, one row per stored row, in storage order. */
  function TableFrame(t: Table): (f: F.Frame)
    ensures f.columns == t.columns && F.WellFormed(f) && |f.rows| == |t.rows|
    ensures forall i, j :: 0 <= i < |t.rows| && 0 <= j < |t.columns| ==>
      f.rows[i][j] == ToCell(Get(t.rows[i], t.columns[j]))
  {
    F.Frame(t.columns, seq(|t.rows|, i requires 0 <= i < |t.rows| =>
      seq(|t.columns|, j requires 0 <= j < |t.columns| => ToCell(Get(t.rows[i], t.columns[j])))))
  }

  /** Text and missing cells survive the trip to the database and back. */
  lemma CellRoundTrip(c: F.Cell, render: real -> string)
    requires !c.Num?
    ensures ToCell(ToSql(c, render)) == c
  {
  }

  // ---------------------------------------------------------------------------------
  // The connector
  // ---------------------------------------------------------------------------------

  /** `executemany`: the batch rows applied one after another, each an upsert. */
  method ApplyBatch(rows: seq<Row>, keys: seq<string>, update: seq<string>, batch: seq<Row>)
    returns (res: seq<Row>)
    ensures res == UpsertAll(rows, keys, update, batch)
  {
    res := rows;
    var i := 0;
    while i < |batch|
      invariant 0 <= i <= |batch|
      invariant res == UpsertAll(rows, keys, update, batch[..i])
    {
      assert batch[..i + 1][..i] == batch[..i];
      res := Upsert(res, keys, update, batch[i]);
      i := i + 1;
    }
    assert batch[..|batch|] == batch;
  }

  /** How many rows of row `i`'s partition come before it (`ROW_NUMBER() - 1`), counted by a scan. */
  method RowNumber(rows: seq<Row>, sortCol: string, i: int) returns (n: nat)
    requires 0 <= i < |rows|
    ensures n == R.Rank(rows, sortCol, i)
  {
    n := 0;
    var j := 0;
    while j < |rows|
      invariant 0 <= j <= |rows|
      invariant n == |AheadBelow(rows, sortCol, i, j)|
    {
      AheadBelowStep(rows, sortCol, i, j + 1);
      if R.Ahead(rows, sortCol, j, i) {
        n := n + 1;
      }
      j := j + 1;
    }
    assert AheadBelow(rows, sortCol, i, |rows|) == R.AheadSet(rows, sortCol, i);
  }

  /** The rows among the first `k` that are numbered before row `i`. */
  function AheadBelow(rows: seq<Row>, sortCol: string, i: int, k: int): set<int>
    requires 0 <= i < |rows| && k <= |rows|
  {
    set j | 0 <= j < k && R.Ahead(rows, sortCol, j, i)
  }

  lemma AheadBelowStep(rows: seq<Row>, sortCol: string, i: int, k: int)
    requires 0 <= i < |rows| && 0 < k <= |rows|
    ensures |AheadBelow(rows, sortCol, i, k)|
         == |AheadBelow(rows, sortCol, i, k - 1)| + (if R.Ahead(rows, sortCol, k - 1, i) then 1 else 0)
  {
    var a, b := AheadBelow(rows, sortCol, i, k), AheadBelow(rows, sortCol, i, k - 1);
    var last := if R.Ahead(rows, sortCol, k - 1, i) then {k - 1} else {};
    assert a == b + last by {
      forall j ensures j in a <==> j in b + last {
      }
    }
    if last != {} {
      assert k - 1 !in b;
      R.AddFresh(b, k - 1);
    }
  }

  /** The NULL-free key tuples of the rows among the first `k` numbered past the cap. */
  function DoomedBelow(rows: seq<Row>, keys: seq<string>, sortCol: string, cap: int, k: int): set<seq<SqlValue>>
    requires k <= |rows|
  {
    set i | 0 <= i < k && R.Rank(rows, sortCol, i) >= cap && Null !in Key(rows[i], keys) :: Key(rows[i], keys)
  }

  /**
   * The DELETE evaluated by scans: number every row, collect the key tuples past the cap
   * that `=` can match (those without NULL), keep the rows whose tuple is not collected.
   */
  method TrimRows(rows: seq<Row>, keys: seq<string>, sortCol: string, cap: int) returns (kept: seq<Row>)
    ensures kept == R.Trim(rows, keys, sortCol, cap)
  {
    var doomed := CollectDoomed(rows, keys, sortCol, cap);
    kept := KeepRows(rows, keys, doomed);
  }

  /** The subquery `sub`: the NULL-free key tuples of the rows numbered past the cap. */
  method CollectDoomed(rows: seq<Row>, keys: seq<string>, sortCol: string, cap: int)
    returns (doomed: set<seq<SqlValue>>)
    ensures doomed == R.Doomed(rows, keys, sortCol, cap)
  {
    doomed := {};
    var i := 0;
    while i < |rows|
      invariant 0 <= i <= |rows|
      invariant doomed == DoomedBelow(rows, keys, sortCol, cap, i)
    {
      var n := RowNumber(rows, sortCol, i);
      if n >= cap && Null !in Key(rows[i], keys) {
        doomed := doomed + {Key(rows[i], keys)};
      }
      i := i + 1;
    }
    assert doomed == R.Doomed(rows, keys, sortCol, cap);
  }

  /** `DELETE t ... JOIN sub`: keep the rows whose key tuple `sub` does not hold, in storage order. */
  method KeepRows(rows: seq<Row>, keys: seq<string>, doomed: set<seq<SqlValue>>) returns (kept: seq<Row>)
    ensures kept == R.KeepUnmatched(rows, keys, doomed)
  {
    kept := [];
    var i := 0;
    while i < |rows|
      invariant 0 <= i <= |rows|
      invariant kept == R.KeepUnmatched(rows[..i], keys, doomed)
    {
      assert rows[..i + 1][..i] == rows[..i];
      if Key(rows[i], keys) !in doomed {
        kept := kept + [rows[i]];
      }
      i := i + 1;
    }
    assert rows[..|rows|] == rows;
  }

  class Connector {
    const tableName: string
    const primaryKeys: seq<PyKey>
    /** `max_row_key`; 0 stands for both `None` and 0, which disable the trim alike. */
    const maxRowKey: int
    /** `sort_col`; "" stands for `None`. */
    const sortCol: string
    /** Whether `_connect_to_database` returned a connection. */
    const connected: bool
    /** How the driver renders a number as text. */
    const render: real -> string
    /** The table in the database, or `None` while it does not exist. */
    var table: Option<Table>

    /** The table, when it exists, satisfies the engine's invariant; its key may differ from the connector's. */
    ghost predicate Valid()
      reads this
    {
      table.Some? ==> ValidTable(table.value)
    }

    constructor(tableName: string, keyArg: KeyArg, maxRowKey: int, sortCol: string,
                connected: bool, render: real -> string, db: Option<Table>)
      requires db.Some? ==> ValidTable(db.value)
      ensures Valid()
      ensures this.tableName == tableName && this.primaryKeys == NormalizeKeys(keyArg)
      ensures this.maxRowKey == maxRowKey && this.sortCol == sortCol
      ensures this.connected == connected && this.render == render && table == db
    {
      this.tableName := tableName;
      this.primaryKeys := NormalizeKeys(keyArg);
      this.maxRowKey := maxRowKey;
      this.sortCol := sortCol;
      this.connected := connected;
      this.render := render;
      table := db;
    }

    method CreateTableIfNotExists(f: F.Frame)
      requires Valid()
      modifies this
      ensures Valid()
      ensures table == if connected then AfterCreate(old(table), f.columns, primaryKeys) else old(table)
    {
      if !connected {
        return;
      }
      var r := ExecCreate(table, ColumnDefinitions(f.columns, primaryKeys));
      CreateEffect(table, f.columns, primaryKeys);
      if r.Ok? {
        table := r.value;
      }
    }

    method InsertOrUpdate(f: F.Frame)
      requires Valid()
      modifies this
      ensures Valid()
      ensures table == if connected then AfterInsertOrUpdate(old(table), primaryKeys, maxRowKey, sortCol, render, f)
                       else old(table)
    {
      if !connected || F.IsEmpty(f) {
        return;
      }
      CreateTableIfNotExists(f);
      var created := table;
      var stmt := InsertFor(f.columns, primaryKeys);
      var values := BatchValues(f, render);
      if table.Some? {
        var t := table.value;
        ExecInsertValid(t, stmt, values);
        if InsertCheck(t, stmt, values).None? {
          var batch := BatchRows(t, stmt, values);
          var update := if stmt.update.Some? then stmt.update.value else [];
          if stmt.update.Some? || |t.keys| == 0 {
            var rows := ApplyBatch(t.rows, t.keys, update, batch);
            table := Some(t.(rows := rows));
          } else if KeysUnique(t.rows + batch, t.keys) {
            table := Some(t.(rows := t.rows + batch));
          }
        }
      }
      assert table == AfterInsert(created, primaryKeys, f, render);
      if RetentionRuns(maxRowKey, sortCol) {
        EnforceMaxRows();
      }
    }

    method EnforceMaxRows()
      requires Valid()
      modifies this
      ensures Valid()
      ensures table == if connected then AfterTrim(old(table), primaryKeys, sortCol, maxRowKey) else old(table)
    {
      if !connected || |primaryKeys| == 0 || sortCol == "" {
        return;
      }
      if table.None? {
        return;
      }
      var t := table.value;
      var keys := KeyColumns(primaryKeys);
      if R.PartitionColumn !in t.columns || sortCol !in t.columns || exists k :: k in keys && k !in t.columns {
        return;
      }
      if !Distinct(keys) || R.RowNumberColumn in keys {
        return;
      }
      var rows := TrimRows(t.rows, keys, sortCol, maxRowKey);
      R.TrimValid(t, keys, sortCol, maxRowKey);
      table := Some(t.(rows := rows));
    }

    /**
     * `read_table`: the empty frame without a connection, otherwise `SELECT *` as a frame.
     * Reading a missing table raises: pandas re-raises the driver's error as its own
     * `DatabaseError`, which `except Error` does not catch, so it reaches the caller.
     */
    method ReadTable() returns (r: Result<F.Frame, SqlError>)
      ensures !connected ==> r == Ok(F.Frame([], []))
      ensures connected && table.None? ==> r == Err(NoSuchTable)
      ensures connected && table.Some? ==> r == Ok(TableFrame(table.value))
    {
      if !connected {
        return Ok(F.Frame([], []));
      }
      if table.None? {
        return Err(NoSuchTable);
      }
      r := Ok(TableFrame(table.value));
    }
  }
}
