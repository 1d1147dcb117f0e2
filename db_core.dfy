/**
 * The record store of primitive_db/core.py. Every operation loads the
 * metadata and the table's rows, changes them in memory and writes them
 * back whole, so the persisted state is a `Store`: the metadata dict and one
 * row list per table file. The functions below say what each operation does
 * to a `Store`; `Database` is the running program, whose methods change its
 * fields step by step as the source does and are proved to agree with them.
 */
module DbCore {
  import opened Wrappers
  import opened PyDict
  import opened PyStr
  import opened DbSchema

  /** The metadata file (table name to schema, in creation order) and the table files. */
  datatype Store = Store(meta: Dict<Schema>, tables: map<string, seq<Row>>)
  {
    /** `load_table_data`: a table file that does not exist reads as no rows. */
    function Load(name: string): seq<Row> {
      if name in tables then tables[name] else []
    }

    predicate Has(name: string) {
      name in Keys(meta)
    }

    function SchemaOf(name: string): Schema
      requires Has(name)
    {
      Get(meta, name).value
    }
  }

  /** A metadata file that does not exist reads as no tables. */
  const EmptyStore: Store := Store([], map[])

  /** Every table has a well-formed schema and well-formed rows. */
  predicate StoreOk(st: Store) {
    && UniqueKeys(st.meta)
    && forall i :: 0 <= i < |st.meta| ==> EntryOk(st, st.meta[i])
  }

  /** Tables other than `name` keep their schemas and rows. */
  ghost predicate OthersUnchanged(st: Store, st': Store, name: string) {
    && (forall t :: t != name ==> st'.Load(t) == st.Load(t))
    && (forall t :: t != name ==> Get(st'.meta, t) == Get(st.meta, t))
  }

  lemma KeyIndex<V>(d: Dict<V>, k: string) returns (j: nat)
    requires k in Keys(d)
    ensures j < |d| && d[j].0 == k
  {
    j :| 0 <= j < |d| && Keys(d)[j] == k;
  }

  /** In a well-formed store each table's schema and rows are well formed. */
  lemma StoreOkAt(st: Store, name: string)
    requires StoreOk(st) && st.Has(name)
    ensures SchemaOk(st.SchemaOf(name)) && RowsOk(st.SchemaOf(name), st.Load(name))
  {
    var j := KeyIndex(st.meta, name);
    GetAt(st.meta, j);
  }

  /** One table's schema and rows are well formed. */
  predicate EntryOk(st: Store, entry: (string, Schema)) {
    SchemaOk(entry.1) && RowsOk(entry.1, st.Load(entry.0))
  }

  lemma EntryUnchanged(st: Store, st': Store, entry: (string, Schema))
    requires EntryOk(st, entry) && st'.Load(entry.0) == st.Load(entry.0)
    ensures EntryOk(st', entry)
  {
  }

  /** Replacing one table's schema and rows by well-formed ones keeps the store well formed. */
  lemma StoreOkReplace(st: Store, name: string, s: Schema, rows: seq<Row>)
    requires StoreOk(st) && st.Has(name) && SchemaOk(s) && RowsOk(s, rows)
    ensures StoreOk(Store(Put(st.meta, name, s), st.tables[name := rows]))
  {
    var j := KeyIndex(st.meta, name);
    PutExisting(st.meta, j, s);
    PutUnique(st.meta, name, s);
    EntriesReplace(st, j, s, rows);
  }

  lemma EntriesReplace(st: Store, j: nat, s: Schema, rows: seq<Row>)
    requires StoreOk(st) && j < |st.meta| && SchemaOk(s) && RowsOk(s, rows)
    ensures var st' := Store(st.meta[j := (st.meta[j].0, s)], st.tables[st.meta[j].0 := rows]);
      forall i :: 0 <= i < |st'.meta| ==> EntryOk(st', st'.meta[i])
  {
    var name := st.meta[j].0;
    var st' := Store(st.meta[j := (name, s)], st.tables[name := rows]);
    forall i | 0 <= i < |st'.meta| ensures EntryOk(st', st'.meta[i]) {
      if i != j {
        assert st.meta[i].0 != name;
        EntryUnchanged(st, st', st.meta[i]);
      }
    }
  }

  /** Adding a new table with a well-formed schema and no rows keeps the store well formed. */
  lemma StoreOkAppend(st: Store, name: string, s: Schema)
    requires StoreOk(st) && !st.Has(name) && SchemaOk(s) && RowsOk(s, [])
    ensures StoreOk(Store(st.meta + [(name, s)], st.tables[name := []]))
  {
    UniqueSnoc(st.meta, name, s);
    EntriesAppend(st, name, s);
  }

  lemma EntriesAppend(st: Store, name: string, s: Schema)
    requires StoreOk(st) && !st.Has(name) && SchemaOk(s) && RowsOk(s, [])
    ensures var st' := Store(st.meta + [(name, s)], st.tables[name := []]);
      forall i :: 0 <= i < |st'.meta| ==> EntryOk(st', st'.meta[i])
  {
    var st' := Store(st.meta + [(name, s)], st.tables[name := []]);
    forall i | 0 <= i < |st'.meta| ensures EntryOk(st', st'.meta[i]) {
      if i < |st.meta| {
        assert st'.meta[i] == st.meta[i];
        assert Keys(st.meta)[i] == st.meta[i].0;
        EntryUnchanged(st, st', st.meta[i]);
      }
    }
  }

  // ---------------------------------------------------------------- operations

  /** `create_table`: the name must be new and every declared type supported. */
  function Create(st: Store, name: string, declared: Dict<string>): Result<Store, DbError> {
    if st.Has(name) then Err(TableAlreadyExists(name))
    else
      match CheckTypes(declared)
      case Fail(e) => Err(e)
      case Pass => Ok(Store(Put(st.meta, name, NewSchema(declared)), st.tables[name := []]))
  }

  /** `select_rows`: all rows of an existing table. */
  function Select(st: Store, name: string): Result<seq<Row>, DbError> {
    if st.Has(name) then Ok(st.Load(name)) else Err(TableNotFound(name))
  }

  /** The store after `row` is appended to an existing table and its next id advanced. */
  function Appended(st: Store, name: string, row: Row): Store
    requires st.Has(name)
  {
    Store(Put(st.meta, name, Advanced(st.SchemaOf(name))), st.tables[name := st.Load(name) + [row]])
  }

  /** `insert_row`: check the fields, build the row, append it and advance the table's next id. */
  function Insert(st: Store, name: string, values: Dict<string>): Result<Store, DbError> {
    if !st.Has(name) then Err(TableNotFound(name))
    else
      var s := st.SchemaOf(name);
      match CheckFields(s.columns, values)
      case Fail(e) => Err(e)
      case Pass =>
        var row :- NewRow(s, values);
        Ok(Appended(st, name, row))
  }

  /** `update_row_by_id`. */
  function Update(st: Store, name: string, id: int, values: Dict<string>): Result<Store, DbError> {
    if !st.Has(name) then Err(TableNotFound(name))
    else
      var rows :- UpdateRows(name, st.SchemaOf(name), st.Load(name), id, values);
      Ok(Store(st.meta, st.tables[name := rows]))
  }

  /** `delete_row_by_id`. */
  function Delete(st: Store, name: string, id: int): Result<Store, DbError> {
    if !st.Has(name) then Err(TableNotFound(name))
    else
      var rows :- DeleteRows(st.Load(name), id);
      Ok(Store(st.meta, st.tables[name := rows]))
  }

  /** `drop_table`: forget the schema and empty the table file (the file itself stays). */
  function Drop(st: Store, name: string): Result<Store, DbError> {
    if !st.Has(name) then Err(TableNotFound(name))
    else Ok(Store(Without(st.meta, name), st.tables[name := []]))
  }

  // ---------------------------------------------------------------- properties

  /** With no metadata and no table files there are no tables, and the store is well formed. */
  lemma EmptyStoreOk()
    ensures StoreOk(EmptyStore) && forall t :: !EmptyStore.Has(t) && EmptyStore.Load(t) == []
  {
  }

  /** A create fails on an existing name, then on the first unsupported type. */
  lemma CreateOutcome(st: Store, name: string, declared: Dict<string>)
    ensures var r := Create(st, name, declared);
      && (st.Has(name) ==> r == Err(TableAlreadyExists(name)))
      && (!st.Has(name) && CheckTypes(declared).Fail? ==> r == Err(CheckTypes(declared).error))
      && (r.Ok? <==> !st.Has(name) && forall i :: 0 <= i < |declared| ==> Supported(declared[i].1))
  {
  }

  /** A successful create adds the table last, with the merged columns, next id 1 and no rows. */
  lemma CreateEffect(st: Store, name: string, declared: Dict<string>)
    requires Create(st, name, declared).Ok?
    ensures var st' := Create(st, name, declared).value;
      && st'.meta == st.meta + [(name, NewSchema(declared))]
      && st'.SchemaOf(name).columns == Columns(declared)
      && st'.SchemaOf(name).nextId == 1
      && st'.Load(name) == []
  {
    var s := NewSchema(declared);
    PutAbsent(st.meta, name, s);
    PutGet(st.meta, name, s);
  }

  /** A create leaves every other table as it was. */
  lemma CreateFrame(st: Store, name: string, declared: Dict<string>)
    requires Create(st, name, declared).Ok?
    ensures OthersUnchanged(st, Create(st, name, declared).value, name)
  {
    PutGet(st.meta, name, NewSchema(declared));
  }

  /** A create keeps a well-formed store well formed. */
  lemma CreateKeepsStoreOk(st: Store, name: string, declared: Dict<string>)
    requires StoreOk(st) && UniqueKeys(declared) && Create(st, name, declared).Ok?
    ensures StoreOk(Create(st, name, declared).value)
  {
    var s := NewSchema(declared);
    PutAbsent(st.meta, name, s);
    NewSchemaOk(declared);
    StoreOkAppend(st, name, s);
  }

  /** Selecting succeeds exactly on an existing table, and in a well-formed store yields well-formed rows. */
  lemma SelectSpec(st: Store, name: string)
    ensures Select(st, name).Ok? <==> st.Has(name)
    ensures StoreOk(st) && st.Has(name) ==> RowsOk(st.SchemaOf(name), Select(st, name).value)
  {
    if StoreOk(st) && st.Has(name) {
      StoreOkAt(st, name);
    }
  }

  /** Every table's schema and rows in a well-formed store, and the table's position in the metadata. */
  lemma StoreOkIndex(st: Store, name: string) returns (j: nat)
    requires StoreOk(st) && st.Has(name)
    ensures j < |st.meta| && st.meta[j] == (name, st.SchemaOf(name))
    ensures SchemaOk(st.SchemaOf(name)) && RowsOk(st.SchemaOf(name), st.Load(name))
  {
    j := KeyIndex(st.meta, name);
    GetAt(st.meta, j);
  }

  /** Rewriting one table's rows, keeping its schema, keeps the store well formed. */
  lemma StoreOkRows(st: Store, name: string, rows: seq<Row>)
    requires StoreOk(st) && st.Has(name) && RowsOk(st.SchemaOf(name), rows)
    ensures StoreOk(Store(st.meta, st.tables[name := rows]))
  {
    var j := StoreOkIndex(st, name);
    var s := st.SchemaOf(name);
    PutExisting(st.meta, j, s);
    assert st.meta[j := (name, s)] == st.meta;
    StoreOkReplace(st, name, s, rows);
  }

  // ---------------------------------------------------------------- insert

  /**
   * An insert fails on a missing table, then on the first field that is
   * undeclared or `id`, then on a value that does not coerce; it succeeds
   * exactly when none of these happens.
   */
  lemma InsertOutcome(st: Store, name: string, values: Dict<string>)
    ensures var r := Insert(st, name, values);
      && (!st.Has(name) ==> r == Err(TableNotFound(name)))
      && (st.Has(name) && CheckFields(st.SchemaOf(name).columns, values).Fail? ==>
            r == Err(CheckFields(st.SchemaOf(name).columns, values).error))
      && (r.Ok? <==>
            && st.Has(name)
            && (forall i :: 0 <= i < |values| ==> Writable(st.SchemaOf(name).columns, values[i].0))
            && CellsOk(st.SchemaOf(name).columns, values))
  {
    if st.Has(name) {
      var s := st.SchemaOf(name);
      BuildCellsOk(s.columns, values, [(IdColumn, IntVal(s.nextId))]);
    }
  }

  /** What a successful insert stores: the checks passed and the built row went last. */
  lemma InsertValue(st: Store, name: string, values: Dict<string>)
    requires Insert(st, name, values).Ok?
    ensures st.Has(name)
    ensures CheckFields(st.SchemaOf(name).columns, values).Pass? && NewRow(st.SchemaOf(name), values).Ok?
    ensures Insert(st, name, values).value == Appended(st, name, NewRow(st.SchemaOf(name), values).value)
  {
  }

  /**
   * A successful insert appends exactly one row, whose id is the table's old
   * next id (larger than every id already stored) and whose cells are the
   * given values coerced to the column types, `null` where none was given;
   * the earlier rows stay and the next id goes up by one.
   */
  lemma InsertEffect(st: Store, name: string, values: Dict<string>)
    requires StoreOk(st) && Insert(st, name, values).Ok?
    ensures st.Has(name)
    ensures AppendedRow(st, Insert(st, name, values).value, name, values)
  {
    InsertValue(st, name, values);
    var s := st.SchemaOf(name);
    var row := NewRow(s, values).value;
    AppendedSpec(st, name, row);
    var _ := StoreOkIndex(st, name);
    NewRowSpec(s, values);
    NewRowKeepsRowsOk(s, st.Load(name), values);
  }

  /**
   * `st'` is `st` with one row appended to table `name`: the table stays
   * well formed (so ids keep increasing), the new row's id is the old next
   * id, its cells are the given values coerced, `null` where none was
   * given, and the next id has advanced.
   */
  ghost predicate AppendedRow(st: Store, st': Store, name: string, values: Dict<string>)
    requires st.Has(name)
  {
    var s := st.SchemaOf(name);
    var rows := st.Load(name);
    var rows' := st'.Load(name);
    && Keys(st'.meta) == Keys(st.meta)
    && st'.Has(name) && st'.SchemaOf(name) == Advanced(s)
    && |rows'| == |rows| + 1 && rows'[..|rows|] == rows
    && RowsOk(Advanced(s), rows')
    && IdOf(rows'[|rows|]) == s.nextId
    && (forall i :: 1 <= i < |s.columns| ==>
          CellFor(s.columns[i].0, s.columns[i].1, values) == Ok(rows'[|rows|][i].1))
  }

  lemma AppendedSpec(st: Store, name: string, row: Row)
    requires st.Has(name)
    ensures var st' := Appended(st, name, row);
      && Keys(st'.meta) == Keys(st.meta)
      && st'.Has(name) && st'.SchemaOf(name) == Advanced(st.SchemaOf(name))
      && st'.Load(name) == st.Load(name) + [row]
      && st'.Load(name)[..|st.Load(name)|] == st.Load(name)
      && OthersUnchanged(st, st', name)
  {
    PutGet(st.meta, name, Advanced(st.SchemaOf(name)));
  }

  /** An insert leaves every other table as it was. */
  lemma InsertFrame(st: Store, name: string, values: Dict<string>)
    requires Insert(st, name, values).Ok?
    ensures OthersUnchanged(st, Insert(st, name, values).value, name)
  {
    InsertValue(st, name, values);
    AppendedSpec(st, name, NewRow(st.SchemaOf(name), values).value);
  }

  /** An insert keeps a well-formed store well formed. */
  lemma InsertKeepsStoreOk(st: Store, name: string, values: Dict<string>)
    requires StoreOk(st) && Insert(st, name, values).Ok?
    ensures StoreOk(Insert(st, name, values).value)
  {
    InsertValue(st, name, values);
    var s := st.SchemaOf(name);
    var _ := StoreOkIndex(st, name);
    NewRowKeepsRowsOk(s, st.Load(name), values);
    StoreOkReplace(st, name, Advanced(s), st.Load(name) + [NewRow(s, values).value]);
  }

  // ---------------------------------------------------------------- update

  /**
   * An update fails on a missing table, then on a table without rows, then
   * on a missing id, then on a bad field or value; it succeeds exactly when
   * none of these happens.
   */
  lemma UpdateOutcome(st: Store, name: string, id: int, values: Dict<string>)
    ensures var r := Update(st, name, id, values);
      && (!st.Has(name) ==> r == Err(TableNotFound(name)))
      && (st.Has(name) && st.Load(name) == [] ==> r == Err(NoRows(name)))
      && (st.Has(name) && st.Load(name) != [] && FindRow(st.Load(name), id).None? ==> r == Err(RowNotFound(id)))
      && (r.Ok? <==>
            && st.Has(name) && st.Load(name) != [] && FindRow(st.Load(name), id).Some?
            && ValuesOk(st.SchemaOf(name).columns, values))
  {
    if st.Has(name) && st.Load(name) != [] && FindRow(st.Load(name), id).Some? {
      var rows := st.Load(name);
      ApplyValuesOk(st.SchemaOf(name).columns, rows[FindRow(rows, id).value], values);
    }
  }

  /**
   * A successful update rewrites only the named fields of the first row with
   * that id; the row count, the order, the other rows, the schemas and the
   * other tables stay as they were.
   */
  lemma UpdateEffect(st: Store, name: string, id: int, values: Dict<string>)
    requires StoreOk(st) && UniqueKeys(values) && Update(st, name, id, values).Ok?
    ensures var st' := Update(st, name, id, values).value;
      var rows := st.Load(name);
      var rows' := st'.Load(name);
      var i := FindRow(rows, id).value;
      && st'.meta == st.meta
      && |rows'| == |rows|
      && (forall k :: 0 <= k < |rows| && k != i ==> rows'[k] == rows[k])
      && Aligned(st.SchemaOf(name), rows[i])
      && UpdatedFrom(st.SchemaOf(name), rows[i], values, rows'[i])
      && OthersUnchanged(st, st', name)
  {
    var _ := StoreOkIndex(st, name);
    var s, rows := st.SchemaOf(name), st.Load(name);
    UpdateRowsSpec(name, s, rows, id, values);
    UpdateFrame(st, name, id, values);
    assert Update(st, name, id, values).value.Load(name) == UpdateRows(name, s, rows, id, values).value;
  }

  /** An update leaves the schemas and every other table as they were. */
  lemma UpdateFrame(st: Store, name: string, id: int, values: Dict<string>)
    requires Update(st, name, id, values).Ok?
    ensures Update(st, name, id, values).value.meta == st.meta
    ensures OthersUnchanged(st, Update(st, name, id, values).value, name)
  {
  }

  /** An update keeps a well-formed store well formed. */
  lemma UpdateKeepsStoreOk(st: Store, name: string, id: int, values: Dict<string>)
    requires StoreOk(st) && UniqueKeys(values) && Update(st, name, id, values).Ok?
    ensures StoreOk(Update(st, name, id, values).value)
  {
    var _ := StoreOkIndex(st, name);
    UpdateRowsSpec(name, st.SchemaOf(name), st.Load(name), id, values);
    StoreOkRows(st, name, UpdateRows(name, st.SchemaOf(name), st.Load(name), id, values).value);
  }

  // ---------------------------------------------------------------- delete

  /** A delete fails on a missing table, then when no row has the id. */
  lemma DeleteOutcome(st: Store, name: string, id: int)
    ensures var r := Delete(st, name, id);
      && (!st.Has(name) ==> r == Err(TableNotFound(name)))
      && (r.Ok? <==> st.Has(name) && FindRow(st.Load(name), id).Some?)
      && (st.Has(name) && r.Err? ==> r == Err(RowNotFound(id)))
  {
    RemoveRowsNone(st.Load(name), id);
  }

  /**
   * A successful delete keeps exactly the rows without that id, in their
   * order; in a well-formed store that is one row fewer.
   */
  lemma DeleteEffect(st: Store, name: string, id: int)
    requires Delete(st, name, id).Ok?
    ensures var st' := Delete(st, name, id).value;
      && st'.meta == st.meta
      && st'.Load(name) == RemoveRows(st.Load(name), id)
      && (StoreOk(st) ==> |st'.Load(name)| == |st.Load(name)| - 1)
      && OthersUnchanged(st, st', name)
  {
    if StoreOk(st) {
      var _ := StoreOkIndex(st, name);
      DeleteRowsSpec(st.SchemaOf(name), st.Load(name), id);
    }
  }

  /** A delete leaves the schemas and every other table as they were. */
  lemma DeleteFrame(st: Store, name: string, id: int)
    requires Delete(st, name, id).Ok?
    ensures Delete(st, name, id).value.meta == st.meta
    ensures OthersUnchanged(st, Delete(st, name, id).value, name)
  {
  }

  /** A delete keeps a well-formed store well formed. */
  lemma DeleteKeepsStoreOk(st: Store, name: string, id: int)
    requires StoreOk(st) && Delete(st, name, id).Ok?
    ensures StoreOk(Delete(st, name, id).value)
  {
    var _ := StoreOkIndex(st, name);
    DeleteRowsSpec(st.SchemaOf(name), st.Load(name), id);
    StoreOkRows(st, name, RemoveRows(st.Load(name), id));
  }

  // ---------------------------------------------------------------- drop

  /**
   * A drop fails exactly on a missing table; otherwise the table is gone
   * from the metadata, its file is emptied, and every other table keeps its
   * schema, its position and its rows.
   */
  lemma DropSpec(st: Store, name: string)
    ensures Drop(st, name).Ok? <==> st.Has(name)
    ensures !st.Has(name) ==> Drop(st, name) == Err(TableNotFound(name))
    ensures st.Has(name) ==>
      var st' := Drop(st, name).value;
      && !st'.Has(name) && st'.Load(name) == []
      && st'.meta == Without(st.meta, name)
      && OthersUnchanged(st, st', name)
  {
  }

  /** A drop keeps a well-formed store well formed. */
  lemma DropKeepsStoreOk(st: Store, name: string)
    requires StoreOk(st) && Drop(st, name).Ok?
    ensures StoreOk(Drop(st, name).value)
  {
    var st' := Drop(st, name).value;
    WithoutIn(st.meta, name);
    forall i | 0 <= i < |st'.meta| ensures EntryOk(st', st'.meta[i]) {
      var p := st'.meta[i];
      assert p in st.meta;
      var k :| 0 <= k < |st.meta| && st.meta[k] == p;
      assert Keys(st'.meta)[i] == p.0;
      EntryUnchanged(st, st', p);
    }
  }

  // ---------------------------------------------------------------- the select cache

  /** Every cached table exists and its cached rows are its stored rows. */
  ghost predicate CacheOk(st: Store, cache: map<string, seq<Row>>) {
    forall t :: t in cache ==> st.Has(t) && cache[t] == st.Load(t)
  }

  /**
   * A write that changes only table `name` and drops `name` from the cache
   * keeps the cache coherent.
   */
  lemma CacheAfterWrite(st: Store, st': Store, cache: map<string, seq<Row>>, name: string)
    requires CacheOk(st, cache) && OthersUnchanged(st, st', name)
    ensures CacheOk(st', cache - {name})
  {
    forall t | t in cache - {name} ensures st'.Has(t) && (cache - {name})[t] == st'.Load(t) {
      assert Get(st'.meta, t) == Get(st.meta, t);
    }
  }

  // ---------------------------------------------------------------- the loops of the operations

  /** The type check of `create_table`: the first unsupported type is reported. */
  method CheckColumnTypes(declared: Dict<string>) returns (r: Outcome<DbError>)
    ensures r == CheckTypes(declared)
  {
    var i := 0;
    while i < |declared|
      invariant 0 <= i <= |declared|
      invariant forall j :: 0 <= j < i ==> Supported(declared[j].1)
    {
      var (column, columnType) := declared[i];
      if !Supported(columnType) {
        CheckTypesFirst(declared, i);
        return Fail(UnsupportedType(column, columnType));
      }
      i := i + 1;
    }
    return Pass;
  }

  /** The field check of `insert_row`: the first undeclared field, or `id`, is reported. */
  method CheckInsertFields(columns: Dict<string>, values: Dict<string>) returns (r: Outcome<DbError>)
    ensures r == CheckFields(columns, values)
  {
    var k := 0;
    while k < |values|
      invariant 0 <= k <= |values|
      invariant forall j :: 0 <= j < k ==> Writable(columns, values[j].0)
    {
      var field := values[k].0;
      if field !in Keys(columns) || field == IdColumn {
        CheckFieldsFirst(columns, values, k);
        return Fail(UnknownField(field));
      }
      k := k + 1;
    }
    return Pass;
  }

  /** The row `insert_row` builds: `id` first, then every other column's cell in column order. */
  method BuildRow(schema: Schema, values: Dict<string>) returns (r: Result<Row, DbError>)
    ensures r == NewRow(schema, values)
  {
    var columns := schema.columns;
    var row: Row := [(IdColumn, IntVal(schema.nextId))];
    var i := 0;
    while i < |columns|
      invariant 0 <= i <= |columns|
      invariant NewRow(schema, values) == BuildCells(columns[i..], values, row)
    {
      var (column, columnType) := columns[i];
      assert columns[i..][1..] == columns[i + 1..];
      if column != IdColumn {
        match Get(values, column) {
          case None =>
            row := Put(row, column, Null);
          case Some(raw) =>
            if columnType == "int" {
              match ParseInt(raw) {
                case None =>
                  return Err(NotAnInteger(column, raw));
                case Some(n) =>
                  row := Put(row, column, IntVal(n));
              }
            } else if columnType == "str" {
              row := Put(row, column, StrVal(raw));
            } else {
              return Err(UnsupportedType(column, columnType));
            }
        }
      }
      i := i + 1;
    }
    return Ok(row);
  }

  /** The search of `update_row_by_id`: the position of the first row with the id. */
  method FindRowIndex(rows: seq<Row>, id: int) returns (r: Option<nat>)
    ensures r == FindRow(rows, id)
  {
    var k := 0;
    while k < |rows|
      invariant 0 <= k <= |rows|
      invariant forall j :: 0 <= j < k ==> !HasId(rows[j], id)
    {
      if Get(rows[k], IdColumn) == Some(IntVal(id)) {
        FindRowAt(rows, id, k);
        return Some(k);
      }
      k := k + 1;
    }
    return None;
  }

  /** The field loop of `update_row_by_id`: each given field checked, coerced and rewritten in turn. */
  method AssignFields(columns: Dict<string>, target: Row, values: Dict<string>) returns (r: Result<Row, DbError>)
    ensures r == ApplyValues(columns, target, values)
  {
    var row := target;
    var m := 0;
    while m < |values|
      invariant 0 <= m <= |values|
      invariant ApplyValues(columns, target, values) == ApplyValues(columns, row, values[m..])
    {
      var (field, raw) := values[m];
      assert values[m..][1..] == values[m + 1..];
      if field !in Keys(columns) || field == IdColumn {
        return Err(UnknownField(field));
      }
      var columnType := Get(columns, field).value;
      var cell: Value;
      if columnType == "int" {
        match ParseInt(raw) {
          case None =>
            return Err(NotAnInteger(field, raw));
          case Some(n) =>
            cell := IntVal(n);
        }
      } else if columnType == "str" {
        cell := StrVal(raw);
      } else {
        return Err(UnsupportedType(field, columnType));
      }
      row := Put(row, field, cell);
      m := m + 1;
    }
    return Ok(row);
  }

  // ---------------------------------------------------------------- the running store

  /** The outcome `r` and the new store agree with the result `o` of the operation on the old store. */
  predicate Applied(o: Result<Store, DbError>, r: Outcome<DbError>, before: Store, after: Store) {
    if o.Ok? then r == Pass && after == o.value else r == Fail(o.error) && after == before
  }

  /**
   * The store as the program sees it: the metadata, the table files and the
   * process-wide select cache. A raised error is a `Fail` outcome.
   */
  class Database {
    var meta: Dict<Schema>
    var tables: map<string, seq<Row>>
    var cache: map<string, seq<Row>>

    function State(): Store
      reads this
    {
      Store(meta, tables)
    }

    /**
     * The metadata is a dict, and every cached table exists and caches
     * exactly its stored rows.
     */
    ghost predicate Valid()
      reads this
    {
      && UniqueKeys(meta)
      && CacheOk(State(), cache)
    }

    /** Every table's schema and rows are well formed. */
    ghost predicate WellFormed()
      reads this
    {
      StoreOk(State())
    }

    /** Opens a store from what the files hold; the cache starts empty. */
    constructor (meta0: Dict<Schema>, tables0: map<string, seq<Row>>)
      requires UniqueKeys(meta0)
      ensures State() == Store(meta0, tables0) && cache == map[]
      ensures Valid()
    {
      meta := meta0;
      tables := tables0;
      cache := map[];
    }

    /** `create_table`. */
    method CreateTable(name: string, declared: Dict<string>) returns (r: Outcome<DbError>)
      requires Valid() && UniqueKeys(declared)
      modifies this
      ensures Applied(Create(old(State()), name, declared), r, old(State()), State())
      ensures cache == old(cache)
      ensures Valid()
      ensures old(WellFormed()) ==> WellFormed()
    {
      if name in Keys(meta) {
        return Fail(TableAlreadyExists(name));
      }
      var checked := CheckColumnTypes(declared);
      if checked.Fail? {
        return checked;
      }
      ghost var st := State();
      var schema := NewSchema(declared);
      UniqueSnoc(meta, name, schema);
      meta := Put(meta, name, schema);
      tables := tables[name := []];
      r := Pass;
      ghost var st' := Create(st, name, declared).value;
      CreateEffect(st, name, declared);
      CreateFrame(st, name, declared);
      assert State() == st';
      CacheAfterWrite(st, st', cache, name);
      assert cache - {name} == cache;
      if StoreOk(st) {
        CreateKeepsStoreOk(st, name, declared);
      }
    }

    /** `list_tables`: the metadata, tables in creation order. */
    method ListTables() returns (m: Dict<Schema>)
      ensures m == meta
      ensures WellFormed() ==> forall i :: 0 <= i < |m| ==> SchemaOk(m[i].1)
    {
      m := meta;
    }

    /** `select_rows`. */
    method SelectRows(name: string) returns (r: Result<seq<Row>, DbError>)
      ensures r == Select(State(), name)
      ensures WellFormed() && r.Ok? ==> RowsOk(State().SchemaOf(name), r.value)
    {
      if name !in Keys(meta) {
        return Err(TableNotFound(name));
      }
      SelectSpec(State(), name);
      r := Ok(State().Load(name));
    }

    /**
     * `select_rows_cached`: a cached table is answered from the cache with
     * flag `true`; otherwise the table is selected, cached and returned with
     * flag `false`. Either way the rows are the stored ones.
     */
    method SelectRowsCached(name: string) returns (r: Result<(seq<Row>, bool), DbError>)
      requires Valid()
      modifies this
      ensures State() == old(State())
      ensures name in old(cache) ==> r == Ok((old(cache)[name], true)) && cache == old(cache)
      ensures name !in old(cache) && r.Ok? ==> r.value.1 == false && cache == old(cache)[name := r.value.0]
      ensures name !in old(cache) && r.Err? ==> cache == old(cache)
      ensures r.Ok? <==> Select(State(), name).Ok?
      ensures r.Ok? ==> r.value.0 == Select(State(), name).value
      ensures r.Err? ==> r.error == Select(State(), name).error
      ensures Valid()
    {
      if name in cache {
        return Ok((cache[name], true));
      }
      var rows := SelectRows(name);
      match rows {
        case Err(e) =>
          return Err(e);
        case Ok(found) =>
          cache := cache[name := found];
          return Ok((found, false));
      }
    }

    /** `insert_row`. */
    method InsertRow(name: string, values: Dict<string>) returns (r: Outcome<DbError>)
      requires Valid()
      modifies this
      ensures Applied(Insert(old(State()), name, values), r, old(State()), State())
      ensures cache == if r.Pass? then old(cache) - {name} else old(cache)
      ensures Valid()
      ensures old(WellFormed()) ==> WellFormed()
    {
      if name !in Keys(meta) {
        return Fail(TableNotFound(name));
      }
      ghost var st := State();
      var schema := Get(meta, name).value;
      var checked := CheckInsertFields(schema.columns, values);
      if checked.Fail? {
        return checked;
      }
      var built := BuildRow(schema, values);
      if built.Err? {
        return Fail(built.error);
      }
      var row := built.value;
      var rows := State().Load(name);
      rows := rows + [row];
      tables := tables[name := rows];
      cache := cache - {name};
      PutUnique(meta, name, Advanced(schema));
      meta := Put(meta, name, Advanced(schema));
      r := Pass;
      InsertValue(st, name, values);
      assert State() == Appended(st, name, row);
      InsertFrame(st, name, values);
      CacheAfterWrite(st, State(), old(cache), name);
      if StoreOk(st) {
        InsertKeepsStoreOk(st, name, values);
      }
    }

    /** `update_row_by_id`. */
    method UpdateRowById(name: string, id: int, values: Dict<string>) returns (r: Outcome<DbError>)
      requires Valid()
      modifies this
      ensures Applied(Update(old(State()), name, id, values), r, old(State()), State())
      ensures cache == if r.Pass? then old(cache) - {name} else old(cache)
      ensures Valid()
      ensures old(WellFormed()) && UniqueKeys(values) ==> WellFormed()
    {
      if name !in Keys(meta) {
        return Fail(TableNotFound(name));
      }
      ghost var st := State();
      var columns := Get(meta, name).value.columns;
      var rows := State().Load(name);
      if |rows| == 0 {
        return Fail(NoRows(name));
      }
      var found := FindRowIndex(rows, id);
      if found.None? {
        return Fail(RowNotFound(id));
      }
      var k := found.value;
      var rewritten := AssignFields(columns, rows[k], values);
      if rewritten.Err? {
        return Fail(rewritten.error);
      }
      var row := rewritten.value;
      rows := rows[k := row];
      tables := tables[name := rows];
      cache := cache - {name};
      r := Pass;
      assert State() == Update(st, name, id, values).value by {
        assert UpdateRows(name, st.SchemaOf(name), st.Load(name), id, values) == Ok(rows);
      }
      assert CacheOk(State(), cache) by {
        UpdateFrame(st, name, id, values);
        CacheAfterWrite(st, State(), old(cache), name);
      }
      if StoreOk(st) && UniqueKeys(values) {
        UpdateKeepsStoreOk(st, name, id, values);
      }
    }

    /** `delete_row_by_id`. */
    method DeleteRowById(name: string, id: int) returns (r: Outcome<DbError>)
      requires Valid()
      modifies this
      ensures Applied(Delete(old(State()), name, id), r, old(State()), State())
      ensures cache == if r.Pass? then old(cache) - {name} else old(cache)
      ensures Valid()
      ensures old(WellFormed()) ==> WellFormed()
    {
      if name !in Keys(meta) {
        return Fail(TableNotFound(name));
      }
      ghost var st := State();
      var rows := State().Load(name);
      var kept := RemoveRows(rows, id);
      if |kept| == |rows| {
        return Fail(RowNotFound(id));
      }
      tables := tables[name := kept];
      cache := cache - {name};
      r := Pass;
      DeleteFrame(st, name, id);
      CacheAfterWrite(st, State(), old(cache), name);
      if StoreOk(st) {
        DeleteKeepsStoreOk(st, name, id);
      }
    }

    /** `drop_table`. */
    method DropTable(name: string) returns (r: Outcome<DbError>)
      requires Valid()
      modifies this
      ensures Applied(Drop(old(State()), name), r, old(State()), State())
      ensures cache == if r.Pass? then old(cache) - {name} else old(cache)
      ensures Valid()
      ensures old(WellFormed()) ==> WellFormed()
    {
      if name !in Keys(meta) {
        return Fail(TableNotFound(name));
      }
      ghost var st := State();
      meta := Without(meta, name);
      tables := tables[name := []];
      cache := cache - {name};
      r := Pass;
      DropSpec(st, name);
      CacheAfterWrite(st, State(), old(cache), name);
      if StoreOk(st) {
        DropKeepsStoreOk(st, name);
      }
    }
  }
}
