/**
 * The MySQL sink: one table of the database, seen through the client that
 * creates, drops and loads it. The table is a flag saying whether it exists and
 * its rows in insertion order; every statement the client sends is logged.
 */
module MySql {
  import opened Wrappers
  import opened Frame

  /** A column of a table definition (`Column(name, type, nullable=..., primary_key=...)`). */
  datatype Column = Column(name: string, nullable: bool, primaryKey: bool)

  datatype TableDef = TableDef(name: string, columns: seq<Column>)

  function ColumnNames(table: TableDef): set<string> {
    set c | c in table.columns :: c.name
  }

  /** Columns the database refuses NULL in: those declared NOT NULL and every primary-key column. */
  function NotNullColumns(table: TableDef): set<string> {
    set c | c in table.columns && (!c.nullable || c.primaryKey) :: c.name
  }

  /** The names of the table's primary-key columns, in declaration order. */
  function KeyColumns(columns: seq<Column>): (names: seq<string>)
    ensures |names| <= |columns|
    ensures forall k :: k in names <==> exists c :: c in columns && c.primaryKey && c.name == k
  {
    if columns == [] then []
    else (if columns[0].primaryKey then [columns[0].name] else []) + KeyColumns(columns[1..])
  }

  /** A primary-key tuple. */
  type Key = seq<Value>

  /** A row's key tuple: its cell in each key column, in key-column order. */
  function KeyOf(row: Record, keyColumns: seq<string>): Key {
    seq(|keyColumns|, i requires 0 <= i < |keyColumns| => Cell(row, keyColumns[i]))
  }

  /** The batch's key tuples: one per row, in row order. */
  function KeyValues(batch: seq<Record>, keyColumns: seq<string>): (keys: seq<Key>)
    ensures |keys| == |batch|
    ensures forall i :: 0 <= i < |batch| ==> keys[i] == KeyOf(batch[i], keyColumns)
  {
    if batch == [] then [] else [KeyOf(batch[0], keyColumns)] + KeyValues(batch[1..], keyColumns)
  }

  /** No two rows share a key. */
  predicate KeysDistinct(rows: seq<Record>, keyColumns: seq<string>) {
    forall i, j :: 0 <= i < j < |rows| ==> KeyOf(rows[i], keyColumns) != KeyOf(rows[j], keyColumns)
  }

  /** No row of `batch` has the key of a row of `rows`. */
  predicate KeysFresh(rows: seq<Record>, batch: seq<Record>, keyColumns: seq<string>) {
    forall i, j :: 0 <= i < |batch| && 0 <= j < |rows| ==> KeyOf(batch[i], keyColumns) != KeyOf(rows[j], keyColumns)
  }

  /** Every column of every row is a column of the table. */
  predicate ColumnsKnown(rows: seq<Record>, table: TableDef) {
    forall i :: 0 <= i < |rows| ==> rows[i].Keys <= ColumnNames(table)
  }

  /** No row holds NULL in a NOT NULL column. */
  predicate NotNullFilled(rows: seq<Record>, table: TableDef) {
    forall i, c :: 0 <= i < |rows| && c in NotNullColumns(table) ==> Cell(rows[i], c) != Null
  }

  datatype TableState = TableState(present: bool, rows: seq<Record>)

  /** What the database's schema guarantees of the stored table. */
  predicate TableInvariant(s: TableState, table: TableDef) {
    && (!s.present ==> s.rows == [])
    && ColumnsKnown(s.rows, table)
    && NotNullFilled(s.rows, table)
    && KeysDistinct(s.rows, KeyColumns(table.columns))
  }

  datatype SinkError =
    | UnknownColumn     // a row carries a column the table does not have
    | NotNullViolation  // NULL in a NOT NULL or primary-key column
    | DuplicateKey      // a primary-key value already stored, or repeated within the batch
    | MissingKeyColumn  // `row[pk]` raises KeyError: the batch has no such column
    | DeleteRejected    // the DELETE text is not valid SQL: a key tuple is empty or holds None

  datatype Outcome = Ok | Err(error: SinkError)

  /** The statements the client sends to the server. */
  datatype Statement =
    | CreateIfAbsent          // metadata.create_all: CREATE TABLE unless it exists
    | DropIfExists            // DROP TABLE IF EXISTS
    | DeleteKeys(keys: seq<Key>)  // DELETE ... WHERE (key columns) IN (key tuples)
    | Commit
    | InsertRows(rows: seq<Record>)  // the INSERT that DataFrame.to_sql issues

  /** The table afterwards, whether the call raised, and the statements it sent. */
  datatype Effect = Effect(state: TableState, outcome: Outcome, statements: seq<Statement>)

  /** `create_table`: creates the table when it is absent and leaves an existing one alone. */
  function CreateTableSpec(s: TableState): (r: TableState)
    ensures r.present
    ensures s.present ==> r == s
    ensures !s.present ==> r.rows == []
  {
    if s.present then s else TableState(true, [])
  }

  /** `drop_table` (DROP TABLE IF EXISTS): whatever there was, afterwards there is no table. */
  function DropTableSpec(s: TableState): (r: TableState)
    ensures !r.present && r.rows == []
  {
    TableState(false, [])
  }

  /** The row holds a value in every column the database refuses NULL in. */
  predicate RowFilled(row: Record, table: TableDef) {
    forall c :: c in NotNullColumns(table) ==> Cell(row, c) != Null
  }

  /**
   * The error of the first row the database refuses when it stores `batch`
   * after `rows` one row at a time: a NULL in a NOT NULL column is caught
   * before the row is written, a key already stored (or stored earlier in the
   * batch) when it is written.
   */
  function FirstRowError(rows: seq<Record>, batch: seq<Record>, table: TableDef): Option<SinkError>
    decreases |batch|
  {
    if batch == [] then None
    else if !RowFilled(batch[0], table) then Some(NotNullViolation)
    else if KeyOf(batch[0], KeyColumns(table.columns)) in KeyValues(rows, KeyColumns(table.columns)) then Some(DuplicateKey)
    else FirstRowError(rows + [batch[0]], batch[1..], table)
  }

  /**
   * Why the database would refuse to append `batch` to `rows`, if it would: a
   * column the table lacks fails the whole INSERT before any row; otherwise
   * the first refused row decides.
   */
  function AppendCheck(rows: seq<Record>, batch: seq<Record>, table: TableDef): (r: Option<SinkError>)
    ensures r == None <==> AppendAcceptable(rows, batch, table)
  {
    if !ColumnsKnown(batch, table) then Some(UnknownColumn)
    else
      FirstRowErrorNone(rows, batch, table);
      FirstRowError(rows, batch, table)
  }

  /** What the schema demands of rows appended after `rows`: known columns, no NULL where refused, no key met twice. */
  predicate AppendAcceptable(rows: seq<Record>, batch: seq<Record>, table: TableDef) {
    && ColumnsKnown(batch, table)
    && NotNullFilled(batch, table)
    && KeysFresh(rows, batch, KeyColumns(table.columns))
    && KeysDistinct(batch, KeyColumns(table.columns))
  }

  /** Row by row, nothing is refused exactly when no row has a NULL to refuse and no key is met twice. */
  lemma {:induction false} FirstRowErrorNone(rows: seq<Record>, batch: seq<Record>, table: TableDef)
    ensures FirstRowError(rows, batch, table) == None <==>
      && NotNullFilled(batch, table)
      && KeysFresh(rows, batch, KeyColumns(table.columns))
      && KeysDistinct(batch, KeyColumns(table.columns))
    decreases |batch|
  {
    if batch != [] {
      FirstRowErrorNone(rows + [batch[0]], batch[1..], table);
      FilledHead(batch, table);
      KeysHead(rows, batch, KeyColumns(table.columns));
    }
  }

  /** A batch is filled exactly when its first row and the rest are. */
  lemma FilledHead(batch: seq<Record>, table: TableDef)
    requires batch != []
    ensures NotNullFilled(batch, table) <==> RowFilled(batch[0], table) && NotNullFilled(batch[1..], table)
  {
    if RowFilled(batch[0], table) && NotNullFilled(batch[1..], table) {
      forall i, c | 0 <= i < |batch| && c in NotNullColumns(table) ensures Cell(batch[i], c) != Null {
        if i > 0 { assert batch[i] == batch[1..][i - 1]; }
      }
    }
  }

  /**
   * The keys of a batch are new and distinct exactly when its first row's key
   * is new and the rest's keys are new after that row and distinct.
   */
  lemma KeysHead(rows: seq<Record>, batch: seq<Record>, kc: seq<string>)
    requires batch != []
    ensures KeysFresh(rows, batch, kc) && KeysDistinct(batch, kc) <==>
      && KeyOf(batch[0], kc) !in KeyValues(rows, kc)
      && KeysFresh(rows + [batch[0]], batch[1..], kc)
      && KeysDistinct(batch[1..], kc)
  {
    if KeysFresh(rows, batch, kc) && KeysDistinct(batch, kc) {
      KeysSplit(rows, batch, kc);
    }
    if KeyOf(batch[0], kc) !in KeyValues(rows, kc) && KeysFresh(rows + [batch[0]], batch[1..], kc) && KeysDistinct(batch[1..], kc) {
      KeysJoin(rows, batch, kc);
    }
  }

  /** `KeysHead`, left to right. */
  lemma KeysSplit(rows: seq<Record>, batch: seq<Record>, kc: seq<string>)
    requires batch != [] && KeysFresh(rows, batch, kc) && KeysDistinct(batch, kc)
    ensures KeyOf(batch[0], kc) !in KeyValues(rows, kc)
    ensures KeysFresh(rows + [batch[0]], batch[1..], kc)
    ensures KeysDistinct(batch[1..], kc)
  {
    var rest, grown := batch[1..], rows + [batch[0]];
    var keys := KeyValues(rows, kc);
    forall j | 0 <= j < |keys| ensures keys[j] != KeyOf(batch[0], kc) {
      assert keys[j] == KeyOf(rows[j], kc);
    }
    forall i, j | 0 <= i < |rest| && 0 <= j < |grown| ensures KeyOf(rest[i], kc) != KeyOf(grown[j], kc) {
      assert rest[i] == batch[i + 1];
      if j < |rows| { assert grown[j] == rows[j]; } else { assert grown[j] == batch[0]; }
    }
    forall i, j | 0 <= i < j < |rest| ensures KeyOf(rest[i], kc) != KeyOf(rest[j], kc) {
      assert rest[i] == batch[i + 1] && rest[j] == batch[j + 1];
    }
  }

  /** `KeysHead`, right to left. */
  lemma KeysJoin(rows: seq<Record>, batch: seq<Record>, kc: seq<string>)
    requires batch != [] && KeyOf(batch[0], kc) !in KeyValues(rows, kc)
    requires KeysFresh(rows + [batch[0]], batch[1..], kc) && KeysDistinct(batch[1..], kc)
    ensures KeysFresh(rows, batch, kc) && KeysDistinct(batch, kc)
  {
    var rest, grown := batch[1..], rows + [batch[0]];
    var keys := KeyValues(rows, kc);
    forall i, j | 0 <= i < |batch| && 0 <= j < |rows| ensures KeyOf(batch[i], kc) != KeyOf(rows[j], kc) {
      assert keys[j] == KeyOf(rows[j], kc);
      if i > 0 { assert batch[i] == rest[i - 1] && grown[j] == rows[j]; }
    }
    forall i, j | 0 <= i < j < |batch| ensures KeyOf(batch[i], kc) != KeyOf(batch[j], kc) {
      assert batch[j] == rest[j - 1];
      if i == 0 { assert grown[|rows|] == batch[0]; } else { assert batch[i] == rest[i - 1]; }
    }
  }

  /**
   * The first refused row decides the error: a first row that repeats a stored
   * key is reported as a duplicate, whatever NULLs the later rows hold.
   */
  lemma FirstRowDecides(rows: seq<Record>, batch: seq<Record>, table: TableDef, j: int)
    requires batch != [] && ColumnsKnown(batch, table) && RowFilled(batch[0], table)
    requires 0 <= j < |rows| && KeyOf(rows[j], KeyColumns(table.columns)) == KeyOf(batch[0], KeyColumns(table.columns))
    ensures AppendCheck(rows, batch, table) == Some(DuplicateKey)
  {
    assert KeyValues(rows, KeyColumns(table.columns))[j] == KeyOf(rows[j], KeyColumns(table.columns));
  }

  /**
   * `df.to_sql(..., if_exists="append")` on an existing table. The INSERT runs in
   * one transaction, so a refused batch adds no row; an empty frame sends nothing.
   */
  function AppendSpec(s: TableState, batch: seq<Record>, table: TableDef): (e: Effect)
    requires s.present
  {
    if batch == [] then Effect(s, Ok, [])
    else match AppendCheck(s.rows, batch, table)
      case Some(err) => Effect(s, Err(err), [InsertRows(batch)])
      case None => Effect(TableState(true, s.rows + batch), Ok, [InsertRows(batch)])
  }

  /** `insert`: create the table if absent, then append every row of the batch. */
  function InsertSpec(s: TableState, batch: seq<Record>, table: TableDef): (e: Effect)
    ensures e.state.present
    ensures e.outcome == Ok <==> batch == [] || AppendCheck(CreateTableSpec(s).rows, batch, table) == None
    ensures e.outcome == Ok ==> e.state.rows == CreateTableSpec(s).rows + batch
    ensures e.outcome != Ok ==> e.state.rows == CreateTableSpec(s).rows
  {
    var e := AppendSpec(CreateTableSpec(s), batch, table);
    e.(statements := [CreateIfAbsent] + e.statements)
  }

  /** The rows of `rows` whose key is not among `keys`, in their order: what the DELETE leaves. */
  function Survivors(rows: seq<Record>, keys: seq<Key>, keyColumns: seq<string>): (r: seq<Record>)
    ensures |r| <= |rows|
    ensures forall x :: x in r ==> x in rows && KeyOf(x, keyColumns) !in keys
    ensures forall x :: x in rows && KeyOf(x, keyColumns) !in keys ==> x in r
  {
    if rows == [] then []
    else (if KeyOf(rows[0], keyColumns) in keys then [] else [rows[0]]) + Survivors(rows[1..], keys, keyColumns)
  }

  /** A key tuple the DELETE statement can spell: not empty, and no None in it. */
  predicate KeyRenderable(k: Key) {
    |k| > 0 && forall i :: 0 <= i < |k| ==> k[i] != Null
  }

  /** Whether the DELETE can spell every key tuple. */
  function AllRenderable(keys: seq<Key>): (b: bool)
    ensures b <==> forall i :: 0 <= i < |keys| ==> KeyRenderable(keys[i])
  {
    if keys == [] then true else KeyRenderable(keys[0]) && AllRenderable(keys[1..])
  }

  /**
   * `upsert`: create the table if absent; compute the batch's key tuples; when
   * there are any, DELETE the stored rows with those keys and COMMIT; then append
   * the batch. The DELETE is committed before the append runs.
   */
  function UpsertSpec(s: TableState, batch: seq<Record>, table: TableDef): Effect {
    var created := CreateTableSpec(s);
    var kc := KeyColumns(table.columns);
    if batch != [] && AbsentColumns(batch, kc) != [] then
      Effect(created, Err(MissingKeyColumn), [CreateIfAbsent])
    else
      var keys := KeyValues(batch, kc);
      if keys == [] then
        Effect(created, Ok, [CreateIfAbsent])
      else if !AllRenderable(keys) then
        Effect(created, Err(DeleteRejected), [CreateIfAbsent, DeleteKeys(keys)])
      else
        var e := AppendSpec(TableState(true, Survivors(created.rows, keys, kc)), batch, table);
        e.(statements := [CreateIfAbsent, DeleteKeys(keys), Commit] + e.statements)
  }

  /** `overwrite`: create the table if absent, drop it, then insert the batch. */
  function OverwriteSpec(s: TableState, batch: seq<Record>, table: TableDef): (e: Effect)
    ensures e.state.present
    ensures e.outcome == Ok <==> batch == [] || AppendCheck([], batch, table) == None
    ensures e.outcome == Ok ==> e.state.rows == batch
    ensures e.outcome != Ok ==> e.state.rows == []
  {
    var e := InsertSpec(DropTableSpec(CreateTableSpec(s)), batch, table);
    e.(statements := [CreateIfAbsent, DropIfExists] + e.statements)
  }

  /** When every key column is there and every key can be spelled, `upsert` deletes and then appends. */
  lemma UpsertAppendPath(s: TableState, batch: seq<Record>, table: TableDef)
    requires batch != []
    requires AbsentColumns(batch, KeyColumns(table.columns)) == []
    requires AllRenderable(KeyValues(batch, KeyColumns(table.columns)))
    ensures var kc := KeyColumns(table.columns);
            var keys := KeyValues(batch, kc);
            var e := AppendSpec(TableState(true, Survivors(CreateTableSpec(s).rows, keys, kc)), batch, table);
            UpsertSpec(s, batch, table) == e.(statements := [CreateIfAbsent, DeleteKeys(keys), Commit] + e.statements)
  {
  }

  /** The key tuples of a batch can all be spelled exactly when each row's can. */
  lemma BatchRenderable(batch: seq<Record>, kc: seq<string>)
    ensures AllRenderable(KeyValues(batch, kc)) <==> forall i :: 0 <= i < |batch| ==> KeyRenderable(KeyOf(batch[i], kc))
  {
    var keys := KeyValues(batch, kc);
    forall i | 0 <= i < |keys| ensures keys[i] == KeyOf(batch[i], kc) {
    }
  }

  /**
   * A batch row holding NULL in a key column, or lacking a key column the rest
   * of the batch has, cannot be spelled in the DELETE:
   * the upsert raises once the table exists, before any row is deleted.
   */
  lemma UpsertRejectsNullKey(s: TableState, batch: seq<Record>, table: TableDef, i: int)
    requires 0 <= i < |batch|
    requires forall k :: k in KeyColumns(table.columns) ==> HasColumn(batch, k)
    requires exists k :: k in KeyColumns(table.columns) && Cell(batch[i], k) == Null
    ensures UpsertSpec(s, batch, table).outcome == Err(DeleteRejected)
    ensures UpsertSpec(s, batch, table).state == CreateTableSpec(s)
  {
    var kc := KeyColumns(table.columns);
    var k :| k in kc && Cell(batch[i], k) == Null;
    var j :| 0 <= j < |kc| && kc[j] == k;
    assert KeyOf(batch[i], kc)[j] == Null;
    BatchRenderable(batch, kc);
  }

  /** Calling `create_table` twice is calling it once. */
  lemma CreateTableIdempotent(s: TableState)
    ensures CreateTableSpec(CreateTableSpec(s)) == CreateTableSpec(s)
  {
  }

  /** A second `insert` of a non-empty batch that went in fails on its keys and changes nothing. */
  lemma InsertTwiceFails(s: TableState, batch: seq<Record>, table: TableDef)
    requires batch != []
    requires InsertSpec(s, batch, table).outcome == Ok
    ensures var once := InsertSpec(s, batch, table).state;
            InsertSpec(once, batch, table).outcome == Err(DuplicateKey)
            && InsertSpec(once, batch, table).state == once
  {
    var once := InsertSpec(s, batch, table).state;
    var kc := KeyColumns(table.columns);
    var n := |CreateTableSpec(s).rows|;
    assert once.rows[n] == batch[0];
    assert KeyValues(once.rows, kc)[n] == KeyOf(batch[0], kc);
    assert RowFilled(batch[0], table);
  }

  /** The batches `upsert` takes: what the DELETE and the schema need, and no key twice. */
  predicate UpsertAccepts(batch: seq<Record>, table: TableDef) {
    var kc := KeyColumns(table.columns);
    || batch == []
    || (&& (forall k :: k in kc ==> HasColumn(batch, k))
        && (forall i :: 0 <= i < |batch| ==> KeyRenderable(KeyOf(batch[i], kc)))
        && ColumnsKnown(batch, table)
        && NotNullFilled(batch, table)
        && KeysDistinct(batch, kc))
  }

  /**
   * Whether `upsert` succeeds depends on the batch alone, never on the rows
   * already stored; when it does, the stored rows whose key is not in the batch
   * stay, in their order, and the batch follows them.
   */
  lemma UpsertOutcome(s: TableState, batch: seq<Record>, table: TableDef)
    ensures var e := UpsertSpec(s, batch, table);
            var kc := KeyColumns(table.columns);
            && e.state.present
            && (e.outcome == Ok <==> UpsertAccepts(batch, table))
            && (e.outcome == Ok ==>
                  e.state.rows == Survivors(CreateTableSpec(s).rows, KeyValues(batch, kc), kc) + batch)
  {
    var kc := KeyColumns(table.columns);
    var keys := KeyValues(batch, kc);
    BatchRenderable(batch, kc);
    if batch == [] {
      UpsertEmptyBatch(s, table);
      SurvivorsNone(CreateTableSpec(s).rows, keys, kc);
    } else if AbsentColumns(batch, kc) == [] && AllRenderable(keys) {
      UpsertAcceptedKeys(s, batch, table);
    }
  }

  /** `UpsertOutcome` once the DELETE went through: the append decides. */
  lemma UpsertAcceptedKeys(s: TableState, batch: seq<Record>, table: TableDef)
    requires batch != []
    requires AbsentColumns(batch, KeyColumns(table.columns)) == []
    requires AllRenderable(KeyValues(batch, KeyColumns(table.columns)))
    ensures var e := UpsertSpec(s, batch, table);
            var kc := KeyColumns(table.columns);
            && e.state.present
            && (e.outcome == Ok <==> ColumnsKnown(batch, table) && NotNullFilled(batch, table) && KeysDistinct(batch, kc))
            && (e.outcome == Ok ==>
                  e.state.rows == Survivors(CreateTableSpec(s).rows, KeyValues(batch, kc), kc) + batch)
  {
    var kc := KeyColumns(table.columns);
    UpsertAppendPath(s, batch, table);
    SurvivorsFresh(Survivors(CreateTableSpec(s).rows, KeyValues(batch, kc), kc), batch, kc);
  }

  /** No survivor of the DELETE shares a key with the batch that named the keys. */
  lemma SurvivorsFresh(surv: seq<Record>, batch: seq<Record>, kc: seq<string>)
    requires forall x :: x in surv ==> KeyOf(x, kc) !in KeyValues(batch, kc)
    ensures KeysFresh(surv, batch, kc)
  {
    var keys := KeyValues(batch, kc);
    forall i, j | 0 <= i < |batch| && 0 <= j < |surv|
      ensures KeyOf(batch[i], kc) != KeyOf(surv[j], kc)
    {
      assert keys[i] == KeyOf(batch[i], kc);
      assert surv[j] in surv;
    }
  }

  /** An empty batch sends no DELETE and no INSERT, and leaves the rows as they were. */
  lemma UpsertEmptyBatch(s: TableState, table: TableDef)
    ensures UpsertSpec(s, [], table) == Effect(CreateTableSpec(s), Ok, [CreateIfAbsent])
  {
  }

  /**
   * `upsert` is not atomic: when the DELETE went through and the append is
   * refused, the rows with the batch's keys are gone and no row of the batch
   * took their place.
   */
  lemma UpsertNotAtomic(s: TableState, batch: seq<Record>, table: TableDef)
    requires batch != []
    requires forall k :: k in KeyColumns(table.columns) ==> HasColumn(batch, k)
    requires forall i :: 0 <= i < |batch| ==> KeyRenderable(KeyOf(batch[i], KeyColumns(table.columns)))
    requires UpsertSpec(s, batch, table).outcome != Ok
    ensures var e := UpsertSpec(s, batch, table);
            var kc := KeyColumns(table.columns);
            var keys := KeyValues(batch, kc);
            && e.state.rows == Survivors(CreateTableSpec(s).rows, keys, kc)
            && (forall x :: x in batch ==> x !in e.state.rows)
            && e.statements == [CreateIfAbsent, DeleteKeys(keys), Commit, InsertRows(batch)]
  {
    var kc := KeyColumns(table.columns);
    var keys := KeyValues(batch, kc);
    var surv := Survivors(CreateTableSpec(s).rows, keys, kc);
    BatchRenderable(batch, kc);
    UpsertAppendPath(s, batch, table);
    AppendRefused(TableState(true, surv), batch, table);
    BatchDeleted(CreateTableSpec(s).rows, batch, kc);
  }

  /** A refused append sends its one INSERT and leaves the table as it was. */
  lemma AppendRefused(st: TableState, batch: seq<Record>, table: TableDef)
    requires st.present
    requires AppendSpec(st, batch, table).outcome != Ok
    ensures AppendSpec(st, batch, table).state == st
    ensures AppendSpec(st, batch, table).statements == [InsertRows(batch)]
  {
  }

  /** A stored row whose key the batch does not name is still there after the upsert, whatever its outcome. */
  lemma UpsertKeepsUnnamed(s: TableState, batch: seq<Record>, table: TableDef, x: Record)
    requires x in CreateTableSpec(s).rows
    requires KeyOf(x, KeyColumns(table.columns)) !in KeyValues(batch, KeyColumns(table.columns))
    ensures x in UpsertSpec(s, batch, table).state.rows
  {
    var kc := KeyColumns(table.columns);
    var keys := KeyValues(batch, kc);
    assert x in Survivors(CreateTableSpec(s).rows, keys, kc);
    if batch != [] && AbsentColumns(batch, kc) == [] && AllRenderable(keys) {
      UpsertAppendPath(s, batch, table);
    }
  }

  /** The DELETE for a batch's keys leaves no row equal to a row of the batch. */
  lemma BatchDeleted(rows: seq<Record>, batch: seq<Record>, kc: seq<string>)
    ensures forall x :: x in batch ==> x !in Survivors(rows, KeyValues(batch, kc), kc)
  {
    var keys := KeyValues(batch, kc);
    forall x | x in batch ensures KeyOf(x, kc) in keys {
      var i :| 0 <= i < |batch| && batch[i] == x;
      assert keys[i] == KeyOf(x, kc);
    }
  }

  /**
   * Upserting the same batch a second time changes nothing, whatever the first
   * upsert did: when the append went in, the DELETE takes exactly the batch out
   * again; when it was refused, the DELETE finds nothing left to take.
   */
  lemma UpsertIdempotent(s: TableState, batch: seq<Record>, table: TableDef)
    ensures UpsertSpec(UpsertSpec(s, batch, table).state, batch, table) == UpsertSpec(s, batch, table)
  {
    var kc := KeyColumns(table.columns);
    var keys := KeyValues(batch, kc);
    if batch != [] && AbsentColumns(batch, kc) == [] && AllRenderable(keys) {
      var surv := Survivors(CreateTableSpec(s).rows, keys, kc);
      var once := UpsertSpec(s, batch, table).state;
      UpsertAppendPath(s, batch, table);
      SecondDeleteSurvivors(surv, once.rows, batch, kc);
      UpsertRepeat(s, once, batch, table, surv);
    }
  }

  /**
   * After an upsert on the DELETE path the table holds the survivors, with the
   * batch after them when it went in; deleting the batch's keys again leaves
   * the survivors.
   */
  lemma SecondDeleteSurvivors(surv: seq<Record>, rows: seq<Record>, batch: seq<Record>, kc: seq<string>)
    requires forall x :: x in surv ==> KeyOf(x, kc) !in KeyValues(batch, kc)
    requires rows == surv || rows == surv + batch
    ensures Survivors(rows, KeyValues(batch, kc), kc) == surv
  {
    var keys := KeyValues(batch, kc);
    SurvivorsNone(surv, keys, kc);
    if rows != surv {
      SurvivorsConcat(surv, batch, keys, kc);
      SurvivorsAll(batch, keys, kc);
    }
  }

  /** The second upsert of `UpsertIdempotent`: the DELETE leaves the same survivors as the first. */
  lemma UpsertRepeat(s: TableState, once: TableState, batch: seq<Record>, table: TableDef, surv: seq<Record>)
    requires batch != []
    requires AbsentColumns(batch, KeyColumns(table.columns)) == []
    requires AllRenderable(KeyValues(batch, KeyColumns(table.columns)))
    requires once.present
    requires surv == Survivors(CreateTableSpec(s).rows, KeyValues(batch, KeyColumns(table.columns)), KeyColumns(table.columns))
    requires Survivors(once.rows, KeyValues(batch, KeyColumns(table.columns)), KeyColumns(table.columns)) == surv
    requires UpsertSpec(s, batch, table).state == once
    ensures UpsertSpec(once, batch, table) == UpsertSpec(s, batch, table)
  {
    assert CreateTableSpec(once) == once;
    UpsertAppendPath(once, batch, table);
    UpsertAppendPath(s, batch, table);
  }

  /** The DELETE treats each row on its own. */
  lemma {:induction false} SurvivorsConcat(a: seq<Record>, b: seq<Record>, keys: seq<Key>, kc: seq<string>)
    ensures Survivors(a + b, keys, kc) == Survivors(a, keys, kc) + Survivors(b, keys, kc)
  {
    if a == [] {
      assert a + b == b;
    } else {
      var head := if KeyOf(a[0], kc) in keys then [] else [a[0]];
      assert (a + b)[0] == a[0] && (a + b)[1..] == a[1..] + b;
      SurvivorsConcat(a[1..], b, keys, kc);
      assert Survivors(a + b, keys, kc) == head + Survivors(a[1..] + b, keys, kc);
    }
  }

  /** A DELETE that names none of the rows keeps them all. */
  lemma {:induction false} SurvivorsNone(rows: seq<Record>, keys: seq<Key>, kc: seq<string>)
    requires forall x :: x in rows ==> KeyOf(x, kc) !in keys
    ensures Survivors(rows, keys, kc) == rows
  {
    if rows != [] {
      assert rows[0] in rows;
      SurvivorsNone(rows[1..], keys, kc);
      assert rows == [rows[0]] + rows[1..];
    }
  }

  /** A DELETE that names every row's key removes them all. */
  lemma {:induction false} SurvivorsAll(batch: seq<Record>, keys: seq<Key>, kc: seq<string>)
    requires forall i :: 0 <= i < |batch| ==> KeyOf(batch[i], kc) in keys
    ensures Survivors(batch, keys, kc) == []
  {
    if batch != [] {
      assert KeyOf(batch[0], kc) in keys;
      SurvivorsAll(batch[1..], keys, kc);
    }
  }

  /** Two key-distinct blocks with no key in common make a key-distinct table. */
  lemma {:induction false} KeysDistinctConcat(a: seq<Record>, b: seq<Record>, kc: seq<string>)
    requires KeysDistinct(a, kc) && KeysDistinct(b, kc) && KeysFresh(a, b, kc)
    ensures KeysDistinct(a + b, kc)
  {
    forall i, j | 0 <= i < j < |a + b| ensures KeyOf((a + b)[i], kc) != KeyOf((a + b)[j], kc) {
      if j >= |a| {
        assert (a + b)[j] == b[j - |a|];
        if i >= |a| {
          assert (a + b)[i] == b[i - |a|];
        }
      }
    }
  }

  /** A successful append keeps the schema's guarantees: the database checked the new rows. */
  lemma AppendKeepsInvariant(s: TableState, batch: seq<Record>, table: TableDef)
    requires s.present && TableInvariant(s, table)
    ensures TableInvariant(AppendSpec(s, batch, table).state, table)
  {
    var kc := KeyColumns(table.columns);
    if batch != [] && AppendCheck(s.rows, batch, table) == None {
      var rows := s.rows + batch;
      KeysDistinctConcat(s.rows, batch, kc);
      forall i | 0 <= i < |rows| ensures rows[i].Keys <= ColumnNames(table) {
        if i >= |s.rows| { assert rows[i] == batch[i - |s.rows|]; }
      }
      forall i, c | 0 <= i < |rows| && c in NotNullColumns(table) ensures Cell(rows[i], c) != Null {
        if i >= |s.rows| { assert rows[i] == batch[i - |s.rows|]; }
      }
    }
  }

  /** The rows a DELETE leaves keep the schema's guarantees. */
  lemma {:induction false} SurvivorsKeepInvariant(rows: seq<Record>, keys: seq<Key>, table: TableDef)
    requires TableInvariant(TableState(true, rows), table)
    ensures TableInvariant(TableState(true, Survivors(rows, keys, KeyColumns(table.columns))), table)
  {
    var kc := KeyColumns(table.columns);
    if rows != [] {
      var rest := Survivors(rows[1..], keys, kc);
      TailKeepsInvariant(rows, table);
      SurvivorsKeepInvariant(rows[1..], keys, table);
      if KeyOf(rows[0], kc) !in keys {
        forall y | y in rest ensures KeyOf(y, kc) != KeyOf(rows[0], kc) {
          var m :| 0 <= m < |rows[1..]| && rows[1..][m] == y;
          assert rows[m + 1] == y;
        }
        assert rows[0] in rows;
        ConsKeepsInvariant(rows[0], rest, table);
      }
    }
  }

  /** Dropping the first row keeps the schema's guarantees. */
  lemma TailKeepsInvariant(rows: seq<Record>, table: TableDef)
    requires rows != [] && TableInvariant(TableState(true, rows), table)
    ensures TableInvariant(TableState(true, rows[1..]), table)
  {
    var kc := KeyColumns(table.columns);
    forall i, j | 0 <= i < j < |rows[1..]|
      ensures KeyOf(rows[1..][i], kc) != KeyOf(rows[1..][j], kc)
    {
      assert rows[1..][i] == rows[i + 1] && rows[1..][j] == rows[j + 1];
    }
  }

  /** A row the schema accepts, put before rows with other keys, keeps the schema's guarantees. */
  lemma ConsKeepsInvariant(x: Record, rest: seq<Record>, table: TableDef)
    requires x.Keys <= ColumnNames(table)
    requires forall c :: c in NotNullColumns(table) ==> Cell(x, c) != Null
    requires TableInvariant(TableState(true, rest), table)
    requires forall y :: y in rest ==> KeyOf(y, KeyColumns(table.columns)) != KeyOf(x, KeyColumns(table.columns))
    ensures TableInvariant(TableState(true, [x] + rest), table)
  {
    var kc := KeyColumns(table.columns);
    var r := [x] + rest;
    assert KeysFresh([x], rest, kc) by {
      forall i | 0 <= i < |rest| ensures KeyOf(rest[i], kc) != KeyOf(x, kc) {
        assert rest[i] in rest;
      }
    }
    KeysDistinctConcat([x], rest, kc);
    forall i | 0 <= i < |r| ensures r[i].Keys <= ColumnNames(table) {
      if i > 0 { assert r[i] == rest[i - 1]; }
    }
    forall i, c | 0 <= i < |r| && c in NotNullColumns(table) ensures Cell(r[i], c) != Null {
      if i > 0 { assert r[i] == rest[i - 1]; }
    }
  }

  /** `insert` keeps the schema's guarantees. */
  lemma InsertKeepsInvariant(s: TableState, batch: seq<Record>, table: TableDef)
    requires TableInvariant(s, table)
    ensures TableInvariant(InsertSpec(s, batch, table).state, table)
  {
    AppendKeepsInvariant(CreateTableSpec(s), batch, table);
  }

  /** `upsert` never leaves two rows with one key, a NULL in a NOT NULL column or an unknown column. */
  lemma UpsertKeepsInvariant(s: TableState, batch: seq<Record>, table: TableDef)
    requires TableInvariant(s, table)
    ensures TableInvariant(UpsertSpec(s, batch, table).state, table)
  {
    var kc := KeyColumns(table.columns);
    var keys := KeyValues(batch, kc);
    var created := CreateTableSpec(s);
    SurvivorsKeepInvariant(created.rows, keys, table);
    AppendKeepsInvariant(TableState(true, Survivors(created.rows, keys, kc)), batch, table);
  }

  /** `overwrite` leaves a table the schema accepts, whatever the table held before. */
  lemma OverwriteKeepsInvariant(s: TableState, batch: seq<Record>, table: TableDef)
    ensures TableInvariant(OverwriteSpec(s, batch, table).state, table)
  {
    InsertKeepsInvariant(DropTableSpec(CreateTableSpec(s)), batch, table);
  }

  /** After `overwrite` the table holds the batch whatever it held before. */
  lemma OverwriteForgetsPast(s1: TableState, s2: TableState, batch: seq<Record>, table: TableDef)
    ensures OverwriteSpec(s1, batch, table) == OverwriteSpec(s2, batch, table)
  {
  }

  /**
   * `MySqlClient`: its methods change the table of the database it is connected
   * to, one statement at a time, and `statements` lists what it sent.
   */
  class MySqlClient {
    var present: bool
    var rows: seq<Record>
    var statements: seq<Statement>

    function State(): TableState
      reads this
    {
      TableState(present, rows)
    }

    /** A client for a database whose table is in state `s`; building the engine sends nothing. */
    constructor(s: TableState)
      requires !s.present ==> s.rows == []
      ensures State() == s && statements == []
    {
      present, rows, statements := s.present, s.rows, [];
    }

    method CreateTable()
      modifies this
      ensures State() == CreateTableSpec(old(State()))
      ensures statements == old(statements) + [CreateIfAbsent]
    {
      if !present {
        present, rows := true, [];
      }
      statements := statements + [CreateIfAbsent];
    }

    method DropTable()
      modifies this
      ensures State() == DropTableSpec(old(State()))
      ensures statements == old(statements) + [DropIfExists]
    {
      present, rows := false, [];
      statements := statements + [DropIfExists];
    }

    /** `df.to_sql(name, engine, if_exists="append", index=False)` on the existing table. */
    method Append(batch: seq<Record>, table: TableDef) returns (outcome: Outcome)
      requires present
      modifies this
      ensures State() == AppendSpec(old(State()), batch, table).state
      ensures outcome == AppendSpec(old(State()), batch, table).outcome
      ensures statements == old(statements) + AppendSpec(old(State()), batch, table).statements
    {
      if batch == [] {
        return Ok;
      }
      statements := statements + [InsertRows(batch)];
      match AppendCheck(rows, batch, table)
      case Some(err) =>
        outcome := Err(err);
      case None =>
        rows := rows + batch;
        outcome := Ok;
    }

    method Insert(batch: seq<Record>, table: TableDef) returns (outcome: Outcome)
      modifies this
      ensures State() == InsertSpec(old(State()), batch, table).state
      ensures outcome == InsertSpec(old(State()), batch, table).outcome
      ensures statements == old(statements) + InsertSpec(old(State()), batch, table).statements
    {
      CreateTable();
      outcome := Append(batch, table);
    }

    method Upsert(batch: seq<Record>, table: TableDef) returns (outcome: Outcome)
      modifies this
      ensures State() == UpsertSpec(old(State()), batch, table).state
      ensures outcome == UpsertSpec(old(State()), batch, table).outcome
      ensures statements == old(statements) + UpsertSpec(old(State()), batch, table).statements
    {
      ghost var log0 := statements;
      CreateTable();
      var kc := KeyColumns(table.columns);
      if batch != [] && AbsentColumns(batch, kc) != [] {
        return Err(MissingKeyColumn);
      }
      var keys := KeyValues(batch, kc);
      if keys == [] {
        return Ok;
      }
      { // the connection block: one DELETE naming every key tuple, then a COMMIT
        statements := statements + [DeleteKeys(keys)];
        if !AllRenderable(keys) {
          return Err(DeleteRejected);
        }
        rows := Survivors(rows, keys, kc);
        statements := statements + [Commit];
        assert statements == log0 + [CreateIfAbsent, DeleteKeys(keys), Commit];
      }
      outcome := Append(batch, table);
    }

    method Overwrite(batch: seq<Record>, table: TableDef) returns (outcome: Outcome)
      modifies this
      ensures State() == OverwriteSpec(old(State()), batch, table).state
      ensures outcome == OverwriteSpec(old(State()), batch, table).outcome
      ensures statements == old(statements) + OverwriteSpec(old(State()), batch, table).statements
    {
      CreateTable();
      DropTable();
      outcome := Insert(batch, table);
    }
  }
}
