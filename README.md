# Record store and labyrinth game, modelled in Dafny

This project models two small Python programs from one repository.

- **primitive_db** is a record store driven by a command line.
  - Tables are declared with typed columns (`int` or `str`) and get an implicit `id` column.
  - Rows are inserted, selected, updated and deleted by id, and tables are dropped.
  - A select cache remembers each table's rows until the next write to that table.
  - The command parser turns one input line into a complete command or an error.
- **labyrinth_treasure** is a text adventure played on a map of rooms.
  - The player moves through exits, and traps and the hall's random event change their health.
  - The player takes items from rooms, uses the key or the treasure, and answers the riddle.
  - A small reader splits each input line into a command and its arguments.

Python's built-ins are modelled once, in `py_dict.dfy` and `py_str.dfy`.

- A `dict` is an insertion-ordered sequence of pairs. Assigning to an existing key replaces it in place.
- The model covers `str.strip`, `str.split()`, `" ".join`, `str.lower`, `split(sep, 1)`, `list.index` and `int()`.

The files:

| file | what it holds |
|---|---|
| `db_schema.dfy` | column types and schemas; the value-level spec of every store operation (new rows, field updates, the delete filter) |
| `db_core.dfy` | the store as a `Store` value, one spec function per operation with its lemmas, and `class Database` holding `meta`, `tables` and `cache` |
| `db_parser.dfy` | the record store's `parse_command` |
| `labyrinth_rooms.dfy` | rooms, the shipped map and the game's constants |
| `player_actions.dfy` | moving, `class Game` for taking items, using items, solving the riddle |
| `game_utils.dfy` | the game's `parse_command` |

Each store operation is written two ways.

- A pure function from the old `Store` to the new one, or to an error. Lemmas state what each result is.
- A method of `Database` that mirrors the Python statements, loops included. Its `ensures` ties the new fields to that function through `Applied`:
  - on success the state is the function's result;
  - on failure the error is the function's error and nothing changed.

Two invariants are kept.

- `Valid()` is cache coherence: every cached table exists and its cached rows equal the stored ones. Every method keeps it.
- `WellFormed()` says the store is well formed:
  - every schema starts with `id`, its types are supported and its `next_id` is at least 1;
  - every row has exactly the schema's columns, in the schema's order;
  - ids are increasing and below `next_id`.

  The empty store is well formed, and every operation keeps it so.

## Model

| member | source | states |
|---|---|---|
| DbSchema.Coerce | primitive_db/primitive_db/core.py:173-180 | converting a raw value succeeds exactly for a `str` column, or an `int` column whose text `int()` accepts; the result fits the column type |
| DbSchema.CoerceIntRoundTrip | primitive_db/primitive_db/core.py:173-175 | every integer printed in decimal coerces back to itself in an `int` column |
| DbSchema.CellFor | primitive_db/primitive_db/core.py:168-180 | a cell is made exactly when no value is given for the column or the given one coerces to its type; every cell made fits the column, and it is `null` exactly when no value was given |
| DbSchema.MergeAfterFirst | primitive_db/primitive_db/core.py:30-33 | merging declarations into a dict whose first key is `id` keeps `id` first with its last declared type; the other declared columns follow in order |
| DbSchema.ColumnsLayout | primitive_db/primitive_db/core.py:30-33 | a new table's columns are `id` first, typed as declared (or `int`), then every other declared column in declaration order |
| DbSchema.NewSchemaOk | primitive_db/primitive_db/core.py:30-37 | a table created from supported declarations has a well-formed schema with `next_id` 1 and no rows |
| DbSchema.CheckTypes | primitive_db/primitive_db/core.py:23-28 | the declarations pass exactly when every type is `int` or `str`; otherwise the error names the first unsupported column |
| DbSchema.CheckTypesFirst | primitive_db/primitive_db/core.py:23-28 | the reported error is the first unsupported declaration, whichever later ones are also bad |
| DbSchema.CheckFields | primitive_db/primitive_db/core.py:155-158 | the given fields pass exactly when each is a declared column other than `id`; otherwise the error names the first bad field |
| DbSchema.CheckFieldsFirst | primitive_db/primitive_db/core.py:155-158 | the reported field is the first bad one |
| DbSchema.BuildCellsOk | primitive_db/primitive_db/core.py:161-180 | building a row fails exactly when some non-`id` column's given value does not coerce |
| DbSchema.BuildCellsSpec | primitive_db/primitive_db/core.py:161-180 | the built row keeps the cells already there, then holds one cell per column, in column order, each the coerced given value or `null` |
| DbSchema.NewRowSpec | primitive_db/primitive_db/core.py:161-180 | the new row has `id` = `next_id` first, then each declared column's coerced value or `null`; it fits the schema once `next_id` is advanced |
| DbSchema.InsertKeepsRowsOk | primitive_db/primitive_db/core.py:184-190 | appending a row whose id is the old `next_id` keeps ids increasing and below the advanced counter |
| DbSchema.NewRowKeepsRowsOk | primitive_db/primitive_db/core.py:184-192 | after an insert the advanced schema is well formed and all rows, old and new, fit it |
| DbSchema.HasIdOfRowOk | primitive_db/primitive_db/core.py:89 | in a well-formed row `row.get("id") == id` holds exactly when the row's id is `id` |
| DbSchema.FindRow | primitive_db/primitive_db/core.py:87-95 | finds no index exactly when no row has the id; otherwise the index of the first row with that id |
| DbSchema.ApplyValuesOk | primitive_db/primitive_db/core.py:97-109 | assigning the fields succeeds exactly when each is writable and its value coerces; a failure is an unknown-field, not-an-integer or unsupported-type error |
| DbSchema.ApplyValuesSpec | primitive_db/primitive_db/core.py:97-109 | a successful assignment rewrites exactly the named cells with their coerced values; the other cells and the column order stay |
| DbSchema.UpdatedRowOk | primitive_db/primitive_db/core.py:97-109 | an updated row still fits the schema and keeps its id |
| DbSchema.UpdateRowsSpec | primitive_db/primitive_db/core.py:84-109 | update fails on no rows, then on a missing id, then on a bad field; on success only the first row with the id changes, only in the named fields, and the count, the order and well-formedness stay |
| DbSchema.RemoveRows | primitive_db/primitive_db/core.py:122 | every kept row is one of the old rows, and none has the id |
| DbSchema.RemoveRowsKeeps | primitive_db/primitive_db/core.py:122 | every old row without the id is kept |
| DbSchema.RemoveRowsAppend | primitive_db/primitive_db/core.py:122 | the filter distributes over concatenation, so the kept rows keep their order |
| DbSchema.RemoveRowsNone | primitive_db/primitive_db/core.py:122-126 | the filter removes nothing exactly when no row has the id |
| DbSchema.RemoveRowsOk | primitive_db/primitive_db/core.py:122 | the filtered table is well formed, and since ids are unique a present id removes exactly one row |
| DbSchema.DeleteRowsSpec | primitive_db/primitive_db/core.py:121-126 | delete fails exactly when no row has the id; otherwise it yields the filtered rows, one fewer, still well formed |
| DbCore.EmptyStoreOk | primitive_db/primitive_db/engine.py:15-21 | with no metadata and no table files there are no tables, every table reads as empty, and the store is well formed |
| DbCore.CreateOutcome | primitive_db/primitive_db/core.py:17-28 | create fails if the table exists, then on an unsupported type, and succeeds exactly when neither holds |
| DbCore.CreateEffect | primitive_db/primitive_db/core.py:30-37 | a created table is appended to `meta` with the `id`-first columns, `next_id` 1 and no rows |
| DbCore.CreateFrame | primitive_db/primitive_db/core.py:34-37 | create leaves every other table's schema and rows unchanged |
| DbCore.CreateKeepsStoreOk | primitive_db/primitive_db/core.py:17-37 | create keeps the store well formed |
| DbCore.SelectSpec | primitive_db/primitive_db/core.py:61-67 | select succeeds exactly for an existing table, and its rows fit the table's schema |
| DbCore.InsertOutcome | primitive_db/primitive_db/core.py:145-180 | insert fails on a missing table, then on the first unknown or `id` field, then on a failing coercion, all before any write; it succeeds exactly when none holds |
| DbCore.InsertValue | primitive_db/primitive_db/core.py:161-192 | a successful insert is the store with the built row appended and the table's `next_id` advanced |
| DbCore.AppendedSpec | primitive_db/primitive_db/core.py:184-192 | appending keeps the table names, advances only this table's `next_id`, adds exactly one row at the end and leaves every other table alone |
| DbCore.InsertEffect | primitive_db/primitive_db/core.py:161-192 | after an insert, the old rows are a prefix of one more row, whose id is the old `next_id` and whose cells are the coerced values or `null` |
| DbCore.InsertFrame | primitive_db/primitive_db/core.py:184-192 | insert leaves every other table's schema and rows unchanged |
| DbCore.InsertKeepsStoreOk | primitive_db/primitive_db/core.py:145-192 | insert keeps the store well formed |
| DbCore.UpdateOutcome | primitive_db/primitive_db/core.py:73-109 | update fails in order on a missing table, an empty table, a missing id, then a bad field or value; it succeeds exactly when none holds |
| DbCore.UpdateEffect | primitive_db/primitive_db/core.py:87-111 | update keeps `meta` and the row count; only the first row with the id changes, only in the named fields; other tables stay |
| DbCore.UpdateFrame | primitive_db/primitive_db/core.py:111 | update writes no metadata and no other table |
| DbCore.UpdateKeepsStoreOk | primitive_db/primitive_db/core.py:73-111 | update keeps the store well formed |
| DbCore.DeleteOutcome | primitive_db/primitive_db/core.py:115-126 | delete fails on a missing table or a missing id, and succeeds exactly when the id occurs |
| DbCore.DeleteEffect | primitive_db/primitive_db/core.py:121-128 | delete stores the filtered rows, one fewer in a well-formed table; `meta` and other tables stay |
| DbCore.DeleteFrame | primitive_db/primitive_db/core.py:128 | delete writes no metadata and no other table |
| DbCore.DeleteKeepsStoreOk | primitive_db/primitive_db/core.py:115-128 | delete keeps the store well formed |
| DbCore.DropSpec | primitive_db/primitive_db/core.py:132-141 | drop succeeds exactly for an existing table; it removes the `meta` entry, empties the rows and leaves other tables alone |
| DbCore.DropKeepsStoreOk | primitive_db/primitive_db/core.py:132-141 | drop keeps the store well formed |
| DbCore.CacheAfterWrite | primitive_db/primitive_db/core.py:112 | after a write to one table, dropping that table's cache entry keeps every other cached entry equal to the stored rows |
| DbCore.CheckColumnTypes | primitive_db/primitive_db/core.py:23-28 | the type-checking loop computes `CheckTypes` |
| DbCore.CheckInsertFields | primitive_db/primitive_db/core.py:155-158 | the field-checking loop computes `CheckFields` |
| DbCore.BuildRow | primitive_db/primitive_db/core.py:161-180 | the row-building loop computes `NewRow` |
| DbCore.FindRowIndex | primitive_db/primitive_db/core.py:87-95 | the search loop finds the first row with the id, as `FindRow` |
| DbCore.AssignFields | primitive_db/primitive_db/core.py:97-109 | the assignment loop computes `ApplyValues` |
| DbCore.Database.constructor | primitive_db/primitive_db/engine.py:15-21 | a store opened on the given metadata and tables starts with an empty cache and is coherent |
| DbCore.Database.CreateTable | primitive_db/primitive_db/core.py:17-37 | the new state is `Create`'s, or unchanged with its error; the cache is untouched and the store stays well formed |
| DbCore.Database.ListTables | primitive_db/primitive_db/core.py:40-42 | returns the metadata, every schema of which is well formed |
| DbCore.Database.SelectRows | primitive_db/primitive_db/core.py:61-67 | returns `Select` of the current state, rows that fit the schema |
| DbCore.Database.SelectRowsCached | primitive_db/primitive_db/core.py:45-58 | a cached table comes back with `true`; otherwise the rows are selected, stored in the cache and come back with `false`; the result always equals the stored rows |
| DbCore.Database.InsertRow | primitive_db/primitive_db/core.py:145-192 | the new state is `Insert`'s, or unchanged with its error; a success drops only this table's cache entry; the store stays well formed |
| DbCore.Database.UpdateRowById | primitive_db/primitive_db/core.py:73-112 | the new state is `Update`'s, or unchanged with its error; a success drops only this table's cache entry |
| DbCore.Database.DeleteRowById | primitive_db/primitive_db/core.py:115-129 | the new state is `Delete`'s, or unchanged with its error; a success drops only this table's cache entry; the store stays well formed |
| DbCore.Database.DropTable | primitive_db/primitive_db/core.py:132-142 | the new state is `Drop`'s, or unchanged with its error; a success drops only this table's cache entry; the store stays well formed |
| DbParser.ParseColumns | primitive_db/primitive_db/parser.py:56-63 | a failing declaration list fails on a token without `:` or with an empty side |
| DbParser.ParseColumnsSpec | primitive_db/primitive_db/parser.py:56-63 | declarations parse exactly when every token is `name:type` with both sides non-empty; the result is the pairs assigned in order, later duplicates overwriting |
| DbParser.ParseAssignmentsSpec | primitive_db/primitive_db/parser.py:69-76 | assignments parse exactly when every token has `=` and a non-empty name; the result is the pairs assigned in order |
| DbParser.ParseCondition | primitive_db/primitive_db/parser.py:85-93 | the condition parses exactly when a `field=value` token follows, and the token is the field, `=`, then the value |
| DbParser.ParseWhere | primitive_db/primitive_db/parser.py:100-111 | the condition after the first `where` parses exactly when it is present and well formed, with a non-empty field |
| DbParser.ParseCreate | primitive_db/primitive_db/parser.py:53-64 | `create` needs at least one declaration and yields a create command on `tokens[1]` |
| DbParser.ParseInsert | primitive_db/primitive_db/parser.py:66-77 | `insert` needs at least one field and yields an insert command on `tokens[1]` |
| DbParser.ParseSelect | primitive_db/primitive_db/parser.py:79-94 | without `where` a select has no filter; with one the filter is the condition after the first `where` |
| DbParser.ParseUpdate | primitive_db/primitive_db/parser.py:99-130 | a parsed update is on `tokens[1]` with the condition after the first `where`; its values are stated by `UpdateParsesValues` |
| DbParser.ParseDelete | primitive_db/primitive_db/parser.py:99-111 | delete parses exactly when the condition does, and carries it |
| DbParser.ParseTableCommand | primitive_db/primitive_db/parser.py:42-51 | a command that names a table has the kind of its keyword and `table` = `tokens[1]` |
| DbParser.ParseTokens | primitive_db/primitive_db/parser.py:21-134 | no tokens is the only empty-command error; a result has the kind its keyword selects; an unknown keyword is the only unknown-command error |
| DbParser.BlankLineFails | primitive_db/primitive_db/parser.py:21-23 | a line fails as an empty command exactly when it is blank |
| DbParser.KeywordIgnoresArguments | primitive_db/primitive_db/parser.py:33-40 | `help`, `list` and `exit` and their aliases succeed and ignore the rest of the line |
| DbParser.TableNameRequired | primitive_db/primitive_db/parser.py:42-51 | every command but `help`, `list` and `exit` fails without a table name |
| DbParser.CreateParses | primitive_db/primitive_db/parser.py:53-64 | `create t specs` parses exactly when there are declarations and each is valid; each column reads its last declared type |
| DbParser.InsertParses | primitive_db/primitive_db/parser.py:66-77 | `insert t fields` parses exactly when there are fields and each is valid; each field reads its last given value |
| DbParser.TableCommandDispatch | primitive_db/primitive_db/parser.py:48-132 | with a table name, the keyword alone picks the branch |
| DbParser.SelectParses | primitive_db/primitive_db/parser.py:79-94 | select without `where` always parses with no filter; with `where` it parses exactly when the condition is valid |
| DbParser.UpdateParses | primitive_db/primitive_db/parser.py:99-130 | update parses exactly when the condition is valid and the first `set` comes before the first `where` with only valid assignments, at least one, between them |
| DbParser.UpdateParsesValues | primitive_db/primitive_db/parser.py:113-130 | a parsed update's values are the assignments strictly between the first `set` and the first `where`, read in order with a later assignment to a field overriding an earlier one; no field appears twice |
| DbParser.DeleteParses | primitive_db/primitive_db/parser.py:99-132 | delete parses exactly when the condition is valid, and carries it |
| DbParser.LineOfWords | primitive_db/primitive_db/parser.py:21 | a line of words joined by single spaces parses as those words |
| DbParser.ConditionAt | primitive_db/primitive_db/parser.py:84-93 | the condition is read from the token after the first `where`, split at its first `=` |
| DbParser.SelectWhereExample | primitive_db/tests/test_parser.py:6-10 | `select users where age=30` parses with the filter `age` = `30` |
| DbParser.AliasExamples | primitive_db/primitive_db/parser.py:28-31 | `q` parses as exit and `ls` as list |
| DbParser.SelectWithoutConditionFails | primitive_db/tests/test_parser.py:16-19 | `select users where` fails for want of a condition |
| DbParser.UpdateWithEmptySetFails | primitive_db/tests/test_parser.py:21-24 | `update users set where id=1` fails with an empty set clause |
| DbParser.UpdateSetExample | primitive_db/primitive_db/parser.py:99-130 | `update users set age=31 where id=1` parses as an update of `users` setting `age` to `31` where `id` = `1` |
| PyDict.PutGet | primitive_db/primitive_db/core.py:107 | after `d[k] = v`, `k` reads `v` and every other key reads as before |
| PyDict.PutExisting | primitive_db/primitive_db/core.py:105-107 | assigning an existing key replaces its pair where it stands |
| PyDict.PutAllGet | primitive_db/primitive_db/parser.py:57-63 | after a run of assignments each key reads its last assigned value, or its old one |
| PyDict.Without | primitive_db/primitive_db/core.py:138 | `del d[k]` removes `k`, keeps every other key's value and keeps keys unique |
| PyStr.WordsOfJoin | labyrinth_treasure/labyrinth_treasure/utils.py:27 | splitting a space-joined sequence of words gives the words back |
| PyStr.ParseIntOfDecimal | primitive_db/primitive_db/core.py:173-175 | `int()` reads back every integer's decimal text |
| LabyrinthRooms.ShippedClosed | labyrinth_treasure/labyrinth_treasure/constants.py:14-43 | every exit of the shipped map leads to a room of the map, and the entrance exists |
| LabyrinthRooms.ShippedTrapRoomUnreachable | labyrinth_treasure/labyrinth_treasure/constants.py:14-43 | no exit of the shipped map leads into the trap room |
| PlayerActions.MovePlayer | labyrinth_treasure/labyrinth_treasure/player_actions.py:39-92 | an unknown direction changes nothing; a firing trap costs exactly 1 health and sends the player to the entrance from the trap room, or otherwise into the room; without a fired trap the player enters the room and gains `HEAL_AMOUNT` only on the hall's heal roll; health changes by at most 1 |
| PlayerActions.RemoveFirst | labyrinth_treasure/labyrinth_treasure/player_actions.py:100 | removing a present item takes exactly one occurrence out; an absent item leaves the list as it is |
| PlayerActions.RemoveFirstSplit | labyrinth_treasure/labyrinth_treasure/player_actions.py:100 | it is the first occurrence that goes, and the rest keep their order |
| PlayerActions.Game.constructor | labyrinth_treasure/labyrinth_treasure/constants.py:14-43 | a new game has each room's listed items and an empty inventory |
| PlayerActions.Game.TakeItem | labyrinth_treasure/labyrinth_treasure/player_actions.py:94-102 | a present item moves, one occurrence, from the room's list to the end of the inventory; an absent one changes nothing; the items of room and inventory together are conserved |
| PlayerActions.UseItem | labyrinth_treasure/labyrinth_treasure/player_actions.py:105-124 | the door opens exactly for a held key in the treasure room; the game is won exactly for held treasure once the riddle is solved; never both |
| PlayerActions.UseItemReadsMembership | labyrinth_treasure/labyrinth_treasure/player_actions.py:111-113 | using an item depends on the inventory only through whether the item is in it |
| PlayerActions.TakenKeyOpens | labyrinth_treasure/labyrinth_treasure/player_actions.py:101-117 | a key just appended to the inventory opens the treasure room's door |
| PlayerActions.SolvePuzzle | labyrinth_treasure/labyrinth_treasure/player_actions.py:127-146 | the flag becomes true exactly when it was already true or the treasure room's riddle gets its answer, trimmed and lower-cased; it never goes from true to false |
| PlayerActions.LowerIsLower | labyrinth_treasure/labyrinth_treasure/player_actions.py:139 | a lower-cased string is left alone by lower-casing |
| PlayerActions.SolveNormalised | labyrinth_treasure/labyrinth_treasure/player_actions.py:139 | an answer trimmed and lower-cased beforehand is judged like the raw one |
| PlayerActions.ShippedPuzzle | labyrinth_treasure/labyrinth_treasure/constants.py:35-42 | the shipped treasure room has a riddle whose answer is "завтра" |
| PlayerActions.ShippedRiddle | labyrinth_treasure/labyrinth_treasure/player_actions.py:138-142 | in the shipped map any answer that trims and lower-cases to "завтра" solves the riddle |
| PlayerActions.ShippedRiddleSpelling | labyrinth_treasure/labyrinth_treasure/player_actions.py:139 | " ЗАВТРА " trims and lower-cases to "завтра" |
| GameUtils.ParseBlank | labyrinth_treasure/labyrinth_treasure/utils.py:23-25 | a line reads as `("", [])` exactly when it is blank |
| GameUtils.ParseTokens | labyrinth_treasure/labyrinth_treasure/utils.py:27-30 | for a non-blank line the command and every argument are non-empty, whitespace-free and lower-case |
| GameUtils.JoinLower | labyrinth_treasure/labyrinth_treasure/utils.py:23 | joining lower-case words with spaces gives a lower-case line |
| GameUtils.ParseReparse | labyrinth_treasure/labyrinth_treasure/utils.py:22-30 | reading the space-joined command and arguments again gives the same command and arguments |

## Left out

- File I/O in engine.py (directories, JSON encoding) is not modelled. The store is two in-memory maps, with a missing metadata file reading as no tables and a missing table file as no rows. Crash atomicity and concurrent processes are out of scope.
- The record store's main.py is not part of this model. That covers the input loop, the prompts, table rendering, the dispatch and the `where` filter of `select`. The same holds for decorators.py (error printing, confirmation, timing) and the UI helpers.
- The game loop in the labyrinth's main.py is not modelled, and neither are `look`, `show_inventory`, `print_welcome` and `show_help`. They only print.
- Printed messages are not modelled, and error texts become error kinds. This includes the un-interpolated `{table_name!r}` literals.
- DbCore.Database.SelectRowsCached: `make_select_with_cache` is modelled only as applied to `select_rows`, its one use.
- Values given to insert and update are strings, as the command line delivers them. Stored cells are `null`, integers or strings, so floats and booleans a hand-edited file could hold are not modelled.
- DbCore.Database.UpdateRowById: it keeps the store well formed only when the given field names are distinct. That always holds for a Python dict but is not a requirement of the method.
- DbCore.Database.CreateTable requires distinct declared column names, which a Python dict always has.
- The in-place aliasing is not modelled. `update_row_by_id` edits `target_row` inside the loaded list, and the cache holds the list object that `select_rows` returned. The model copies values instead, so a caller mutating a returned list is not captured.
- `int()` is modelled as an optional sign and ASCII digits after stripping whitespace. Underscores and non-ASCII digits are not accepted.
- `str.lower` covers ASCII and the basic Cyrillic capitals (А–Я, Ё). Every other character is left unchanged.
- PlayerActions.MovePlayer: the two `random.random()` draws are parameters (`trapRoll`, `eventRoll`). They are compared as exact reals rather than floats. The hall's draught event below 0.5 only prints, so it has no effect.
- `ROOMS[...]` raising `KeyError` for an unknown room is not modelled. The actions require the current room to be on the map, and `MovePlayer` requires every exit to lead to one, as the shipped map does.
- PlayerActions.Game.TakeItem: the shared room lists are held once per game, in `roomItems`, rather than as mutable lists inside a module-level map.
