/**
 * The table-level rules of the record store (primitive_db/core.py): column
 * types, the implicit `id` column, how a new row is built, how an update
 * rewrites one row, which rows a delete removes, and the invariants every
 * stored table keeps. `DbCore.Database` applies these to its state.
 */
module DbSchema {
  import opened Wrappers
  import opened PyDict
  import opened PyStr

  /** The auto-numbered key column every table has. */
  const IdColumn: string := "id"

  /** The column types a table may declare. */
  const SupportedTypes: seq<string> := ["int", "str"]

  predicate Supported(t: string) {
    t in SupportedTypes
  }

  /** A stored cell: JSON `null`, a number or a string. */
  datatype Value = Null | IntVal(n: int) | StrVal(s: string)

  /** A row maps column names to cells, in column order. */
  type Row = Dict<Value>

  /** A table's metadata: its columns with their types, and the next id to hand out. */
  datatype Schema = Schema(columns: Dict<string>, nextId: int)

  /** The schema after an insert: the same columns, the next id advanced by one. */
  function Advanced(s: Schema): Schema {
    Schema(s.columns, s.nextId + 1)
  }

  datatype DbError =
    | TableAlreadyExists(table: string)
    | TableNotFound(table: string)
    | UnsupportedType(column: string, columnType: string)
    | UnknownField(field: string)
    | NoRows(table: string)
    | RowNotFound(id: int)
    | NotAnInteger(field: string, raw: string)

  // ---------------------------------------------------------------- cells

  /** `int(raw)` for an `int` column, `str(raw)` for a `str` column; any other type is refused. */
  function Coerce(column: string, columnType: string, raw: string): (r: Result<Value, DbError>)
    ensures r.Ok? <==> (columnType == "int" && ParseInt(raw).Some?) || columnType == "str"
    ensures r.Ok? ==> Fits(columnType, r.value) && !r.value.Null?
  {
    if columnType == "int" then
      match ParseInt(raw)
      case None => Err(NotAnInteger(column, raw))
      case Some(n) => Ok(IntVal(n))
    else if columnType == "str" then Ok(StrVal(raw))
    else Err(UnsupportedType(column, columnType))
  }

  /** A cell may be stored in a column of the given type. */
  predicate Fits(columnType: string, v: Value) {
    v.Null? || (columnType == "int" && v.IntVal?) || (columnType == "str" && v.StrVal?)
  }

  /** Coercion to `int` reads back any integer written in decimal. */
  lemma CoerceIntRoundTrip(column: string, n: int)
    ensures Coerce(column, "int", DecimalString(n)) == Ok(IntVal(n))
  {
    ParseIntOfDecimal(n);
  }

  /**
   * The cell for column `c` of a new row: `null` when no value is given for
   * it. Only a given value that does not coerce fails, and every cell made
   * fits the column; a given value never becomes `null`.
   */
  function CellFor(c: string, columnType: string, values: Dict<string>): (r: Result<Value, DbError>)
    ensures r.Ok? <==> Get(values, c).None? || Coerce(c, columnType, Get(values, c).value).Ok?
    ensures r.Ok? ==> Fits(columnType, r.value)
    ensures r.Ok? ==> (r.value.Null? <==> Get(values, c).None?)
  {
    match Get(values, c)
    case None => Ok(Null)
    case Some(raw) => Coerce(c, columnType, raw)
  }

  // ---------------------------------------------------------------- columns

  /** `{"id": "int", **declared}`: the stored column layout of a new table. */
  function Columns(declared: Dict<string>): Dict<string> {
    PutAll([(IdColumn, "int")], declared)
  }

  /**
   * Merging declarations into a dict whose first key is `key`: `key` keeps
   * the first position with its last declared value, and the other declared
   * keys follow the existing ones in order.
   */
  lemma {:induction false} MergeAfterFirst(key: string, v: string, rest: Dict<string>, ps: Dict<string>)
    requires UniqueKeys(rest) && key !in Keys(rest)
    requires UniqueKeys(ps)
    requires forall k :: k in Keys(ps) ==> k !in Keys(rest)
    ensures PutAll([(key, v)] + rest, ps)
            == [(key, GetOr(Get(ps, key), v))] + rest + Without(ps, key)
    decreases |ps|
  {
    if ps != [] {
      var (k, x) := ps[0];
      var tail := ps[1..];
      UniqueTail(ps);
      var acc := [(key, v)] + rest;
      assert PutAll(acc, ps) == PutAll(Put(acc, k, x), tail);
      assert Keys(ps) == [k] + Keys(tail);
      if k == key {
        PutFirst(key, v, rest, x);
        MergeAfterFirst(key, x, rest, tail);
        assert Get(tail, key).None?;
        assert Get(ps, key) == Some(x);
        assert Without(ps, key) == Without(tail, key);
      } else {
        PutAfterFirst(key, v, rest, k, x);
        UniqueSnoc(rest, k, x);
        var rest' := rest + [(k, x)];
        MergeAfterFirst(key, v, rest', tail);
        assert Get(ps, key) == Get(tail, key);
        assert Without(ps, key) == [(k, x)] + Without(tail, key);
        var head := [(key, GetOr(Get(ps, key), v))];
        var w := Without(tail, key);
        Regroup(head, rest, [(k, x)], w);
      }
    }
  }

  /** Re-bracketing of four concatenated pieces, a step of the proof above. */
  lemma Regroup<T>(a: seq<T>, b: seq<T>, c: seq<T>, d: seq<T>)
    ensures a + (b + c) + d == a + b + (c + d)
  {
  }

  lemma PutFirst(key: string, v: string, rest: Dict<string>, x: string)
    ensures Put([(key, v)] + rest, key, x) == [(key, x)] + rest
  {
    assert ([(key, v)] + rest)[1..] == rest;
  }

  lemma PutAfterFirst(key: string, v: string, rest: Dict<string>, k: string, x: string)
    requires k != key && k !in Keys(rest)
    ensures Put([(key, v)] + rest, k, x) == [(key, v)] + (rest + [(k, x)])
  {
    KeysCons((key, v), rest);
    PutAbsent([(key, v)] + rest, k, x);
  }

  /**
   * The stored layout is `id` first (typed `int` unless the declaration
   * overrides it), then every other declared column in declaration order.
   */
  lemma ColumnsLayout(declared: Dict<string>)
    requires UniqueKeys(declared)
    ensures Columns(declared)
            == [(IdColumn, GetOr(Get(declared, IdColumn), "int"))] + Without(declared, IdColumn)
  {
    var empty: Dict<string> := [];
    assert [(IdColumn, "int")] + empty == [(IdColumn, "int")];
    MergeAfterFirst(IdColumn, "int", empty, declared);
    var head := [(IdColumn, GetOr(Get(declared, IdColumn), "int"))];
    assert head + empty == head;
  }

  /** The schema `create` stores: the merged columns and the first id, 1. */
  function NewSchema(declared: Dict<string>): Schema {
    Schema(Columns(declared), 1)
  }

  /** A table created from supported declarations starts well formed, with no rows. */
  lemma NewSchemaOk(declared: Dict<string>)
    requires UniqueKeys(declared) && CheckTypes(declared).Pass?
    ensures SchemaOk(NewSchema(declared)) && RowsOk(NewSchema(declared), [])
  {
    ColumnsLayout(declared);
    var rest := Without(declared, IdColumn);
    var t := GetOr(Get(declared, IdColumn), "int");
    UniqueCons(IdColumn, t, rest);
    SupportedColumns(declared, t, rest);
  }

  lemma SupportedColumns(declared: Dict<string>, t: string, rest: Dict<string>)
    requires CheckTypes(declared).Pass?
    requires t == GetOr(Get(declared, IdColumn), "int") && rest == Without(declared, IdColumn)
    ensures forall i :: 0 <= i < |[(IdColumn, t)] + rest| ==> Supported(([(IdColumn, t)] + rest)[i].1)
  {
    if Get(declared, IdColumn).Some? {
      GetIn(declared, IdColumn);
    }
    WithoutIn(declared, IdColumn);
    var cols := [(IdColumn, t)] + rest;
    forall i | 0 <= i < |cols| ensures Supported(cols[i].1) {
      if i > 0 { assert cols[i] == rest[i - 1] && rest[i - 1] in rest; }
    }
  }

  /** Every declared type is supported, or the first one that is not is reported. */
  function CheckTypes(declared: Dict<string>): (r: Outcome<DbError>)
    ensures r.Pass? <==> forall i :: 0 <= i < |declared| ==> Supported(declared[i].1)
    ensures r.Fail? ==> exists i :: 0 <= i < |declared| && !Supported(declared[i].1)
                                    && r.error == UnsupportedType(declared[i].0, declared[i].1)
                                    && forall j :: 0 <= j < i ==> Supported(declared[j].1)
  {
    if declared == [] then Pass
    else if !Supported(declared[0].1) then Fail(UnsupportedType(declared[0].0, declared[0].1))
    else
      var r := CheckTypes(declared[1..]);
      assert forall i :: 1 <= i < |declared| ==> declared[i] == declared[1..][i - 1];
      r
  }

  /** The first unsupported declaration is the one reported. */
  lemma CheckTypesFirst(declared: Dict<string>, i: nat)
    requires i < |declared| && !Supported(declared[i].1)
    requires forall j :: 0 <= j < i ==> Supported(declared[j].1)
    ensures CheckTypes(declared) == Fail(UnsupportedType(declared[i].0, declared[i].1))
  {
    var r := CheckTypes(declared);
    var k :| 0 <= k < |declared| && !Supported(declared[k].1) && r.error == UnsupportedType(declared[k].0, declared[k].1)
             && forall j :: 0 <= j < k ==> Supported(declared[j].1);
    assert k == i;
  }

  /** A field that names a declared column other than `id`. */
  predicate Writable(columns: Dict<string>, field: string) {
    field in Keys(columns) && field != IdColumn
  }

  /** Every given field is writable, or the first one that is not is reported. */
  function CheckFields(columns: Dict<string>, values: Dict<string>): (r: Outcome<DbError>)
    ensures r.Pass? <==> forall i :: 0 <= i < |values| ==> Writable(columns, values[i].0)
    ensures r.Fail? ==> exists i :: 0 <= i < |values| && !Writable(columns, values[i].0)
                                    && r.error == UnknownField(values[i].0)
                                    && forall j :: 0 <= j < i ==> Writable(columns, values[j].0)
  {
    if values == [] then Pass
    else if !Writable(columns, values[0].0) then Fail(UnknownField(values[0].0))
    else
      var r := CheckFields(columns, values[1..]);
      assert forall i :: 1 <= i < |values| ==> values[i] == values[1..][i - 1];
      r
  }

  /** The first field that is not writable is the one reported. */
  lemma CheckFieldsFirst(columns: Dict<string>, values: Dict<string>, i: nat)
    requires i < |values| && !Writable(columns, values[i].0)
    requires forall j :: 0 <= j < i ==> Writable(columns, values[j].0)
    ensures CheckFields(columns, values) == Fail(UnknownField(values[i].0))
  {
    var r := CheckFields(columns, values);
    var k :| 0 <= k < |values| && !Writable(columns, values[k].0) && r.error == UnknownField(values[k].0)
             && forall j :: 0 <= j < k ==> Writable(columns, values[j].0);
    assert k == i;
  }

  // ---------------------------------------------------------------- table invariants

  /** Columns are unique, `id` comes first, and every declared type is supported. */
  predicate SchemaOk(s: Schema) {
    && UniqueKeys(s.columns)
    && |s.columns| > 0 && s.columns[0].0 == IdColumn
    && (forall i :: 0 <= i < |s.columns| ==> Supported(s.columns[i].1))
    && s.nextId >= 1
  }

  /**
   * A stored row has exactly the schema's columns in the schema's order, an
   * integer id below the next one to be handed out, and cells that fit their
   * column types.
   */
  predicate RowOk(s: Schema, row: Row) {
    && |row| == |s.columns| > 0
    && (forall i :: 0 <= i < |row| ==> row[i].0 == s.columns[i].0)
    && row[0].1.IntVal? && 1 <= row[0].1.n < s.nextId
    && (forall i :: 1 <= i < |row| ==> Fits(s.columns[i].1, row[i].1))
  }

  /** The id of a well-formed row. */
  function IdOf(row: Row): int
    requires |row| > 0 && row[0].1.IntVal?
  {
    row[0].1.n
  }

  /** Every row is well formed and the ids strictly increase down the table. */
  predicate RowsOk(s: Schema, rows: seq<Row>) {
    && (forall i :: 0 <= i < |rows| ==> RowOk(s, rows[i]))
    && (forall i, j :: 0 <= i < j < |rows| ==> IdOf(rows[i]) < IdOf(rows[j]))
  }

  // ---------------------------------------------------------------- insert

  /**
   * The cells of a new row after `row`: for each column but `id`, in column
   * order, the coerced given value or `null`; the first failing coercion
   * aborts.
   */
  function BuildCells(columns: Dict<string>, values: Dict<string>, row: Row): Result<Row, DbError>
    decreases |columns|
  {
    if columns == [] then Ok(row)
    else if columns[0].0 == IdColumn then BuildCells(columns[1..], values, row)
    else
      var cell :- CellFor(columns[0].0, columns[0].1, values);
      BuildCells(columns[1..], values, Put(row, columns[0].0, cell))
  }

  /** The row `insert` adds: `id` set to the table's next id, then the other columns. */
  function NewRow(s: Schema, values: Dict<string>): Result<Row, DbError> {
    BuildCells(s.columns, values, [(IdColumn, IntVal(s.nextId))])
  }

  /** Every column of `columns` other than `id` gets a cell from `values`. */
  predicate CellsOk(columns: Dict<string>, values: Dict<string>) {
    forall i :: 0 <= i < |columns| && columns[i].0 != IdColumn ==> CellFor(columns[i].0, columns[i].1, values).Ok?
  }

  /** Building cells succeeds exactly when every column but `id` gets a cell. */
  lemma {:induction false} BuildCellsOk(columns: Dict<string>, values: Dict<string>, row: Row)
    ensures BuildCells(columns, values, row).Ok? <==> CellsOk(columns, values)
    decreases |columns|
  {
    if columns != [] {
      var tail := columns[1..];
      assert forall i :: 1 <= i < |columns| ==> columns[i] == tail[i - 1];
      assert CellsOk(columns, values) <==>
        (columns[0].0 != IdColumn ==> CellFor(columns[0].0, columns[0].1, values).Ok?) && CellsOk(tail, values);
      match CellFor(columns[0].0, columns[0].1, values)
      case Err(_) =>
        BuildCellsOk(tail, values, row);
      case Ok(cell) =>
        BuildCellsOk(tail, values, row);
        BuildCellsOk(tail, values, Put(row, columns[0].0, cell));
    }
  }

  /**
   * Building cells onto `row` from columns that are neither `id` nor in `row`
   * appends one pair per column, in column order, each holding that column's
   * cell.
   */
  lemma {:induction false} BuildCellsSpec(columns: Dict<string>, values: Dict<string>, row: Row)
    requires UniqueKeys(columns) && IdColumn !in Keys(columns) && UniqueKeys(row)
    requires forall i :: 0 <= i < |columns| ==> columns[i].0 !in Keys(row)
    ensures var r := BuildCells(columns, values, row);
      r.Ok? ==>
        && |r.value| == |row| + |columns| && r.value[..|row|] == row
        && forall i :: 0 <= i < |columns| ==>
             r.value[|row| + i].0 == columns[i].0
             && CellFor(columns[i].0, columns[i].1, values) == Ok(r.value[|row| + i].1)
    decreases |columns|
  {
    if columns != [] {
      var (c, t) := columns[0];
      var tail := columns[1..];
      assert Keys(columns)[0] == c;
      UniqueTail(columns);
      match CellFor(c, t, values)
      case Err(_) =>
        assert BuildCells(columns, values, row).Err?;
      case Ok(cell) =>
        PutAbsent(row, c, cell);
        UniqueSnoc(row, c, cell);
        var row' := row + [(c, cell)];
        assert forall i :: 0 <= i < |tail| ==> tail[i].0 !in Keys(row') by {
          forall i | 0 <= i < |tail| ensures tail[i].0 !in Keys(row') {
            assert Keys(tail)[i] == tail[i].0;
          }
        }
        BuildCellsSpec(tail, values, row');
        var r := BuildCells(tail, values, row');
        assert BuildCells(columns, values, row) == r;
        if r.Ok? {
          assert row'[..|row|] == row;
          ShiftCells(columns, tail, values, row, row', r.value);
        }
    }
  }

  /** Re-indexes the cells appended after the first column onto the whole column list. */
  lemma ShiftCells(columns: Dict<string>, tail: Dict<string>, values: Dict<string>, row: Row, row': Row, r: Row)
    requires columns != [] && tail == columns[1..]
    requires |row'| == |row| + 1 && row'[..|row|] == row && row'[|row|].0 == columns[0].0
    requires CellFor(columns[0].0, columns[0].1, values) == Ok(row'[|row|].1)
    requires |r| == |row'| + |tail| && r[..|row'|] == row'
    requires forall i :: 0 <= i < |tail| ==>
               r[|row'| + i].0 == tail[i].0
               && CellFor(tail[i].0, tail[i].1, values) == Ok(r[|row'| + i].1)
    ensures |r| == |row| + |columns| && r[..|row|] == row
    ensures forall i :: 0 <= i < |columns| ==>
              r[|row| + i].0 == columns[i].0
              && CellFor(columns[i].0, columns[i].1, values) == Ok(r[|row| + i].1)
  {
    assert r[..|row|] == r[..|row'|][..|row|];
    assert r[|row|] == r[..|row'|][|row|];
    forall i | 1 <= i < |columns|
      ensures r[|row| + i].0 == columns[i].0
      ensures CellFor(columns[i].0, columns[i].1, values) == Ok(r[|row| + i].1)
    {
      var j := i - 1;
      assert tail[j] == columns[i];
      assert |row| + i == |row'| + j;
    }
  }

  /**
   * `insert` builds a row exactly when every given value coerces to its
   * column's type; the row then holds the old next id, then for every other
   * column in order its coerced value or `null`, and it fits the schema with
   * the next id advanced by one.
   */
  lemma NewRowSpec(s: Schema, values: Dict<string>)
    requires SchemaOk(s)
    ensures var r := NewRow(s, values);
      && (r.Ok? <==> forall i :: 1 <= i < |s.columns| ==> CellFor(s.columns[i].0, s.columns[i].1, values).Ok?)
      && (r.Ok? ==>
            && RowOk(Advanced(s), r.value)
            && IdOf(r.value) == s.nextId
            && forall i :: 1 <= i < |s.columns| ==> CellFor(s.columns[i].0, s.columns[i].1, values) == Ok(r.value[i].1))
  {
    NewRowOutcome(s, values);
    if NewRow(s, values).Ok? {
      NewRowCells(s, values);
    }
  }

  /** The first cell of a new row is its id; the others are built from the columns after `id`. */
  lemma NewRowFromTail(s: Schema, values: Dict<string>)
    requires SchemaOk(s)
    ensures var tail := s.columns[1..];
      var head: Row := [(IdColumn, IntVal(s.nextId))];
      && NewRow(s, values) == BuildCells(tail, values, head)
      && UniqueKeys(tail) && IdColumn !in Keys(tail) && UniqueKeys(head)
      && forall i :: 0 <= i < |tail| ==> tail[i].0 !in Keys(head)
  {
    var cols := s.columns;
    var tail := cols[1..];
    var head: Row := [(IdColumn, IntVal(s.nextId))];
    UniqueTail(cols);
    assert BuildCells(cols, values, head) == BuildCells(tail, values, head);
    assert Keys(head) == [IdColumn];
    forall i | 0 <= i < |tail| ensures tail[i].0 !in Keys(head) {
      assert Keys(tail)[i] == tail[i].0;
    }
  }

  lemma NewRowOutcome(s: Schema, values: Dict<string>)
    requires SchemaOk(s)
    ensures NewRow(s, values).Ok? <==>
      forall i :: 1 <= i < |s.columns| ==> CellFor(s.columns[i].0, s.columns[i].1, values).Ok?
  {
    var cols := s.columns;
    UniqueTail(cols);
    BuildCellsOk(cols, values, [(IdColumn, IntVal(s.nextId))]);
    forall i | 1 <= i < |cols| ensures cols[i].0 != IdColumn {
      assert cols[0].0 != cols[i].0;
    }
  }

  lemma NewRowCells(s: Schema, values: Dict<string>)
    requires SchemaOk(s) && NewRow(s, values).Ok?
    ensures var r := NewRow(s, values).value;
      && RowOk(Advanced(s), r)
      && IdOf(r) == s.nextId
      && forall i :: 1 <= i < |s.columns| ==> CellFor(s.columns[i].0, s.columns[i].1, values) == Ok(r[i].1)
  {
    var cols := s.columns;
    var tail := cols[1..];
    var head: Row := [(IdColumn, IntVal(s.nextId))];
    NewRowFromTail(s, values);
    BuildCellsSpec(tail, values, head);
    var r := BuildCells(tail, values, head).value;
    assert r[0] == head[0];
    forall i | 1 <= i < |cols|
      ensures r[i].0 == cols[i].0
      ensures CellFor(cols[i].0, cols[i].1, values) == Ok(r[i].1)
      ensures Fits(cols[i].1, r[i].1)
    {
      var k := i - 1;
      assert cols[i] == tail[k];
      assert r[|head| + k] == r[i];
      assert CellFor(tail[k].0, tail[k].1, values) == Ok(r[|head| + k].1);
    }
  }

  /** A new row appended with the old next id keeps the table well formed once the next id advances. */
  lemma InsertKeepsRowsOk(s: Schema, rows: seq<Row>, row: Row)
    requires RowsOk(s, rows) && RowOk(Advanced(s), row) && IdOf(row) == s.nextId
    ensures RowsOk(Advanced(s), rows + [row])
  {
    var rows' := rows + [row];
    assert forall i :: 0 <= i < |rows| ==> rows'[i] == rows[i];
  }

  /** Appending the row an insert builds keeps a well-formed table well formed under the advanced next id. */
  lemma NewRowKeepsRowsOk(s: Schema, rows: seq<Row>, values: Dict<string>)
    requires SchemaOk(s) && RowsOk(s, rows) && NewRow(s, values).Ok?
    ensures SchemaOk(Advanced(s))
    ensures RowsOk(Advanced(s), rows + [NewRow(s, values).value])
  {
    NewRowSpec(s, values);
    InsertKeepsRowsOk(s, rows, NewRow(s, values).value);
  }

  // ---------------------------------------------------------------- lookup by id

  /** `row.get("id") == id`. */
  predicate HasId(row: Row, id: int) {
    Get(row, IdColumn) == Some(IntVal(id))
  }

  /** In a well-formed row the id cell is the first one. */
  lemma HasIdOfRowOk(s: Schema, row: Row, id: int)
    requires RowOk(s, row) && s.columns[0].0 == IdColumn
    ensures HasId(row, id) <==> IdOf(row) == id
  {
  }

  /** The position of the first row with the given id. */
  function FindRow(rows: seq<Row>, id: int): (r: Option<nat>)
    ensures r.None? <==> forall i :: 0 <= i < |rows| ==> !HasId(rows[i], id)
    ensures r.Some? ==> r.value < |rows| && HasId(rows[r.value], id)
                        && forall i :: 0 <= i < r.value ==> !HasId(rows[i], id)
  {
    if rows == [] then None
    else if HasId(rows[0], id) then Some(0)
    else
      match FindRow(rows[1..], id)
      case None => None
      case Some(i) => Some(i + 1)
  }

  /** The first row with the id is the one `FindRow` finds. */
  lemma FindRowAt(rows: seq<Row>, id: int, k: nat)
    requires k < |rows| && HasId(rows[k], id)
    requires forall j :: 0 <= j < k ==> !HasId(rows[j], id)
    ensures FindRow(rows, id) == Some(k)
  {
    var r := FindRow(rows, id);
    assert r.Some? && r.value <= k;
  }

  // ---------------------------------------------------------------- update

  /** The declared type of a column; empty for an undeclared one. */
  function ColumnType(columns: Dict<string>, field: string): string {
    GetOr(Get(columns, field), "")
  }

  /**
   * `target_row[field] = coerced value` for each given field in order; an
   * undeclared field, the `id` field or a failing coercion aborts at that
   * field.
   */
  function ApplyValues(columns: Dict<string>, row: Row, values: Dict<string>): Result<Row, DbError>
    decreases |values|
  {
    if values == [] then Ok(row)
    else
      var (field, raw) := values[0];
      if !Writable(columns, field) then Err(UnknownField(field))
      else
        var cell :- Coerce(field, ColumnType(columns, field), raw);
        ApplyValues(columns, Put(row, field, cell), values[1..])
  }

  /** Every given field is writable and its value coerces to the column's type. */
  predicate ValuesOk(columns: Dict<string>, values: Dict<string>) {
    forall i :: 0 <= i < |values| ==>
      Writable(columns, values[i].0) && Coerce(values[i].0, ColumnType(columns, values[i].0), values[i].1).Ok?
  }

  /** Applying values succeeds exactly when every field is writable and every value coerces. */
  lemma {:induction false} ApplyValuesOk(columns: Dict<string>, row: Row, values: Dict<string>)
    ensures ApplyValues(columns, row, values).Ok? <==> ValuesOk(columns, values)
    ensures ApplyValues(columns, row, values).Err? ==>
              var e := ApplyValues(columns, row, values).error;
              e.UnknownField? || e.NotAnInteger? || e.UnsupportedType?
    decreases |values|
  {
    if values != [] {
      var (field, raw) := values[0];
      var tail := values[1..];
      assert forall i :: 1 <= i < |values| ==> values[i] == tail[i - 1];
      assert ValuesOk(columns, values) <==>
        Writable(columns, field) && Coerce(field, ColumnType(columns, field), raw).Ok? && ValuesOk(columns, tail);
      if Writable(columns, field) {
        match Coerce(field, ColumnType(columns, field), raw)
        case Err(_) =>
        case Ok(cell) =>
          ApplyValuesOk(columns, Put(row, field, cell), tail);
          assert ApplyValues(columns, row, values) == ApplyValues(columns, Put(row, field, cell), tail);
      }
    }
  }

  /**
   * `r` is `row` with the given fields rewritten: same columns in the same
   * order, every named cell holding its coerced value, every other cell
   * untouched.
   */
  predicate UpdatedFrom(s: Schema, row: Row, values: Dict<string>, r: Row)
    requires |row| <= |s.columns|
  {
    && |r| == |row|
    && forall j :: 0 <= j < |r| ==>
         && r[j].0 == row[j].0
         && (if r[j].0 in Keys(values)
             then Coerce(r[j].0, s.columns[j].1, Get(values, r[j].0).value) == Ok(r[j].1)
             else r[j].1 == row[j].1)
  }

  /** The row's keys are the schema's columns, position by position. */
  predicate Aligned(s: Schema, row: Row) {
    |row| == |s.columns| && forall i :: 0 <= i < |row| ==> row[i].0 == s.columns[i].0
  }

  lemma AlignedKeys(s: Schema, row: Row)
    requires Aligned(s, row) && UniqueKeys(s.columns)
    ensures UniqueKeys(row) && Keys(row) == Keys(s.columns)
  {
  }

  /** Assigning a declared column of an aligned row rewrites that column's cell in place. */
  lemma PutAligned(s: Schema, row: Row, field: string, cell: Value) returns (j: nat)
    requires Aligned(s, row) && UniqueKeys(s.columns) && field in Keys(s.columns)
    ensures j < |row| && s.columns[j].0 == field && ColumnType(s.columns, field) == s.columns[j].1
    ensures Put(row, field, cell) == row[j := (field, cell)]
    ensures Aligned(s, row[j := (field, cell)])
  {
    j :| 0 <= j < |s.columns| && Keys(s.columns)[j] == field;
    GetAt(s.columns, j);
    AlignedKeys(s, row);
    PutExisting(row, j, cell);
  }

  /** One step of the update loop, composed with what the remaining fields do. */
  lemma UpdatedFromStep(s: Schema, row: Row, values: Dict<string>, j: nat, cell: Value, r: Row)
    requires UniqueKeys(s.columns) && Aligned(s, row) && UniqueKeys(values) && values != []
    requires j < |row| && s.columns[j].0 == values[0].0
    requires Coerce(values[0].0, s.columns[j].1, values[0].1) == Ok(cell)
    requires Aligned(s, row[j := (values[0].0, cell)])
    requires UpdatedFrom(s, row[j := (values[0].0, cell)], values[1..], r)
    ensures UpdatedFrom(s, row, values, r)
  {
    var f := values[0].0;
    var tail := values[1..];
    var row' := row[j := (f, cell)];
    UniqueTail(values);
    assert Keys(values) == [f] + Keys(tail);
    forall p | 0 <= p < |r|
      ensures r[p].0 == row[p].0
      ensures if r[p].0 in Keys(values)
              then Coerce(r[p].0, s.columns[p].1, Get(values, r[p].0).value) == Ok(r[p].1)
              else r[p].1 == row[p].1
    {
      var k := r[p].0;
      if k == f {
        assert s.columns[p].0 == s.columns[j].0;
      } else {
        assert p != j;
        assert Get(values, k) == Get(tail, k);
      }
    }
  }

  /**
   * A successful update rewrites exactly the named cells of the row, each
   * with its coerced value, and leaves the columns, their order, `id` and
   * every other cell as they were.
   */
  lemma {:induction false} ApplyValuesSpec(s: Schema, row: Row, values: Dict<string>)
    requires UniqueKeys(s.columns) && Aligned(s, row) && UniqueKeys(values)
    ensures var r := ApplyValues(s.columns, row, values);
      r.Ok? ==> UpdatedFrom(s, row, values, r.value) && Aligned(s, r.value)
    decreases |values|
  {
    var r := ApplyValues(s.columns, row, values);
    if values != [] && r.Ok? {
      var (field, raw) := values[0];
      assert Writable(s.columns, field);
      var cell := Coerce(field, ColumnType(s.columns, field), raw).value;
      var j := PutAligned(s, row, field, cell);
      var row' := row[j := (field, cell)];
      assert r == ApplyValues(s.columns, row', values[1..]);
      UniqueTail(values);
      ApplyValuesSpec(s, row', values[1..]);
      UpdatedFromStep(s, row, values, j, cell, r.value);
    }
  }

  /** An update of writable fields keeps a row well formed and keeps its id. */
  lemma UpdatedRowOk(s: Schema, row: Row, values: Dict<string>, r: Row)
    requires SchemaOk(s) && RowOk(s, row) && ValuesOk(s.columns, values)
    requires UpdatedFrom(s, row, values, r)
    ensures RowOk(s, r) && IdOf(r) == IdOf(row)
  {
    assert IdColumn !in Keys(values) by {
      forall i | 0 <= i < |values| ensures Keys(values)[i] != IdColumn {
        assert Writable(s.columns, values[i].0);
      }
    }
    forall j | 1 <= j < |r| ensures Fits(s.columns[j].1, r[j].1) {
      if r[j].0 in Keys(values) {
        var raw := Get(values, r[j].0).value;
        assert Coerce(r[j].0, s.columns[j].1, raw) == Ok(r[j].1);
      }
    }
  }

  /**
   * `update_row_by_id` on a table's rows: no rows at all, then no row with
   * that id, then the fields of the first row with that id are rewritten.
   */
  function UpdateRows(table: string, s: Schema, rows: seq<Row>, id: int, values: Dict<string>): Result<seq<Row>, DbError> {
    if rows == [] then Err(NoRows(table))
    else
      match FindRow(rows, id)
      case None => Err(RowNotFound(id))
      case Some(i) =>
        var row :- ApplyValues(s.columns, rows[i], values);
        Ok(rows[i := row])
  }

  /**
   * An update fails on an empty table, then on a missing id, then on a bad
   * field; when it succeeds only the first row with that id changes, only
   * in the named fields, and the table stays well formed.
   */
  lemma UpdateRowsSpec(table: string, s: Schema, rows: seq<Row>, id: int, values: Dict<string>)
    requires SchemaOk(s) && RowsOk(s, rows) && UniqueKeys(values)
    ensures var r := UpdateRows(table, s, rows, id, values);
      && (rows == [] ==> r == Err(NoRows(table)))
      && (rows != [] && FindRow(rows, id).None? ==> r == Err(RowNotFound(id)))
      && (r.Ok? <==> rows != [] && FindRow(rows, id).Some? && ValuesOk(s.columns, values))
      && (r.Ok? ==>
            var i := FindRow(rows, id).value;
            && |r.value| == |rows|
            && (forall k :: 0 <= k < |rows| && k != i ==> r.value[k] == rows[k])
            && UpdatedFrom(s, rows[i], values, r.value[i])
            && RowsOk(s, r.value))
  {
    if rows != [] && FindRow(rows, id).Some? {
      var i := FindRow(rows, id).value;
      ApplyValuesOk(s.columns, rows[i], values);
      var a := ApplyValues(s.columns, rows[i], values);
      if a.Ok? {
        ApplyValuesSpec(s, rows[i], values);
        UpdatedRowOk(s, rows[i], values, a.value);
        var rows' := rows[i := a.value];
        assert forall k :: 0 <= k < |rows| && k != i ==> rows'[k] == rows[k];
      }
    }
  }

  // ---------------------------------------------------------------- delete

  /** `[row for row in rows if row.get("id") != id]`. */
  function RemoveRows(rows: seq<Row>, id: int): (r: seq<Row>)
    ensures |r| <= |rows|
    ensures forall i :: 0 <= i < |r| ==> !HasId(r[i], id) && r[i] in rows
  {
    if rows == [] then []
    else if HasId(rows[0], id) then RemoveRows(rows[1..], id)
    else [rows[0]] + RemoveRows(rows[1..], id)
  }

  /** Filtering distributes over concatenation, so the kept rows stay in their order. */
  lemma {:induction false} RemoveRowsAppend(a: seq<Row>, b: seq<Row>, id: int)
    ensures RemoveRows(a + b, id) == RemoveRows(a, id) + RemoveRows(b, id)
  {
    if a != [] {
      assert (a + b)[0] == a[0];
      assert (a + b)[1..] == a[1..] + b;
      RemoveRowsAppend(a[1..], b, id);
      if !HasId(a[0], id) {
        assert RemoveRows(a + b, id) == [a[0]] + RemoveRows(a[1..] + b, id);
        assert RemoveRows(a, id) == [a[0]] + RemoveRows(a[1..], id);
      }
    } else {
      assert a + b == b;
    }
  }

  /** Every row without the id survives the filter. */
  lemma {:induction false} RemoveRowsKeeps(rows: seq<Row>, id: int)
    ensures forall i :: 0 <= i < |rows| && !HasId(rows[i], id) ==> rows[i] in RemoveRows(rows, id)
  {
    if rows != [] {
      RemoveRowsKeeps(rows[1..], id);
      forall i | 1 <= i < |rows| && !HasId(rows[i], id) ensures rows[i] in RemoveRows(rows, id) {
        assert rows[i] == rows[1..][i - 1];
      }
    }
  }

  /** The filter removes nothing exactly when no row has the id. */
  lemma {:induction false} RemoveRowsNone(rows: seq<Row>, id: int)
    ensures |RemoveRows(rows, id)| == |rows| <==> FindRow(rows, id).None?
  {
    if rows != [] {
      RemoveRowsNone(rows[1..], id);
      assert forall i :: 1 <= i < |rows| ==> rows[i] == rows[1..][i - 1];
    }
  }

  /** `delete_row_by_id` on a table's rows: the rows without that id, or an error if none had it. */
  function DeleteRows(rows: seq<Row>, id: int): Result<seq<Row>, DbError> {
    var kept := RemoveRows(rows, id);
    if |kept| == |rows| then Err(RowNotFound(id)) else Ok(kept)
  }

  /**
   * In a well-formed table the filter keeps the table well formed, and
   * since ids are unique it removes exactly one row when the id occurs.
   */
  lemma {:induction false} RemoveRowsOk(s: Schema, rows: seq<Row>, id: int)
    requires SchemaOk(s) && RowsOk(s, rows)
    ensures RowsOk(s, RemoveRows(rows, id))
    ensures FindRow(rows, id).Some? ==> |RemoveRows(rows, id)| == |rows| - 1
  {
    if rows != [] {
      var tail := rows[1..];
      assert forall i :: 1 <= i < |rows| ==> rows[i] == tail[i - 1];
      assert RowsOk(s, tail);
      RemoveRowsOk(s, tail, id);
      var kept := RemoveRows(tail, id);
      HasIdOfRowOk(s, rows[0], id);
      if HasId(rows[0], id) {
        assert forall i :: 0 <= i < |tail| ==> !HasId(tail[i], id) by {
          forall i | 0 <= i < |tail| ensures !HasId(tail[i], id) {
            HasIdOfRowOk(s, tail[i], id);
          }
        }
        RemoveRowsNone(tail, id);
      } else {
        assert rows == [rows[0]] + tail;
        KeepHead(s, rows[0], tail, kept);
      }
    }
  }

  /** Keeping a table's first row in front of rows kept from the rest keeps the ids increasing. */
  lemma KeepHead(s: Schema, row: Row, tail: seq<Row>, kept: seq<Row>)
    requires RowsOk(s, [row] + tail) && RowsOk(s, kept)
    requires forall i :: 0 <= i < |kept| ==> kept[i] in tail
    ensures RowsOk(s, [row] + kept)
  {
    var rows := [row] + tail;
    var r := [row] + kept;
    assert forall i :: 1 <= i < |r| ==> r[i] == kept[i - 1];
    assert r[0] == rows[0];
    assert forall i :: 0 <= i < |r| ==> RowOk(s, r[i]);
    forall i, j | 0 <= i < j < |r| ensures IdOf(r[i]) < IdOf(r[j]) {
      if i == 0 {
        var k :| 0 <= k < |tail| && tail[k] == r[j];
        assert rows[k + 1] == r[j];
      }
    }
  }

  /** A delete fails exactly when no row has the id, and otherwise keeps the table well formed. */
  lemma DeleteRowsSpec(s: Schema, rows: seq<Row>, id: int)
    requires SchemaOk(s) && RowsOk(s, rows)
    ensures var r := DeleteRows(rows, id);
      && (r.Err? <==> FindRow(rows, id).None?)
      && (r.Ok? ==> r.value == RemoveRows(rows, id) && |r.value| == |rows| - 1 && RowsOk(s, r.value))
  {
    RemoveRowsNone(rows, id);
    RemoveRowsOk(s, rows, id);
  }
}
