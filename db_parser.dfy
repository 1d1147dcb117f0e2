/**
 * The command language of the record store (primitive_db/parser.py): one
 * input line, split on whitespace, becomes a complete `Command` or a
 * `ParseError` naming the grammar rule that was violated.
 *
 *   help | list | ls | exit | q
 *   describe <table>            drop <table>
 *   create <table> (<col>:<type>)+
 *   insert <table> (<field>=<value>)+
 *   select <table> [where <field>=<value>]
 *   update <table> set (<field>=<value>)+ where <field>=<value>
 *   delete <table> where <field>=<value>
 */
module DbParser {
  import opened Wrappers
  import opened PyDict
  import opened PyStr

  /** The single `field=value` equality of a `where` clause. */
  datatype Condition = Condition(field: string, value: string)

  /** One constructor per command kind, carrying what that kind needs. */
  datatype Command =
    | Help
    | List
    | Exit
    | Describe(table: string)
    | Create(table: string, columns: Dict<string>)
    | Insert(table: string, values: Dict<string>)
    | Select(table: string, filter: Option<Condition>)
    | Update(table: string, values: Dict<string>, condition: Condition)
    | Delete(table: string, condition: Condition)
    | Drop(table: string)
  {
    predicate HasTable() {
      !(Help? || List? || Exit?)
    }

    /** The keyword this command stands for. */
    function Kind(): Keyword {
      match this
      case Help => KHelp
      case List => KList
      case Exit => KExit
      case Describe(_) => KDescribe
      case Create(_, _) => KCreate
      case Insert(_, _) => KInsert
      case Select(_, _) => KSelect
      case Update(_, _, _) => KUpdate
      case Delete(_, _) => KDelete
      case Drop(_) => KDrop
    }
  }

  /** What the first token of a line selects. */
  datatype Keyword =
    | KHelp | KList | KExit | KDescribe
    | KCreate | KInsert | KSelect | KUpdate | KDelete | KDrop
    | KUnknown
  {
    /** The commands that take a table name as their second token. */
    predicate NeedsTable() {
      !(KHelp? || KList? || KExit? || KUnknown?)
    }
  }

  datatype ParseError =
    | EmptyCommand
    | MissingTable(command: string)
    | NoColumns
    | BadColumnSpec(token: string)
    | EmptyColumnPart(token: string)
    | NoFields
    | BadField(token: string)
    | EmptyFieldName(token: string)
    | MissingCondition
    | BadCondition(token: string)
    | EmptyConditionField
    | MissingWhere
    | MissingSet
    | EmptySet
    | BadSetField(token: string)
    | EmptySetFieldName(token: string)
    | UnknownCommand(command: string)

  /** The aliases `q` and `ls`. */
  function Canonical(cmd: string): string {
    if cmd == "q" then "exit" else if cmd == "ls" then "list" else cmd
  }

  /** The first token, lower-cased and with aliases resolved, picks the command. */
  function Classify(token: string): Keyword {
    var cmd := Canonical(Lower(token));
    if cmd == "help" then KHelp
    else if cmd == "list" then KList
    else if cmd == "exit" then KExit
    else if cmd == "describe" then KDescribe
    else if cmd == "create" then KCreate
    else if cmd == "insert" then KInsert
    else if cmd == "select" then KSelect
    else if cmd == "update" then KUpdate
    else if cmd == "delete" then KDelete
    else if cmd == "drop" then KDrop
    else KUnknown
  }

  /** A `name:type` token with both sides non-empty, split on the first `:`. */
  predicate IsColumnSpec(token: string) {
    var parts := SplitOnce(token, ':');
    parts.Some? && parts.value.0 != [] && parts.value.1 != []
  }

  /** A `name=value` token with a non-empty name, split on the first `=`; the value may be empty. */
  predicate IsAssignment(token: string) {
    var parts := SplitOnce(token, '=');
    parts.Some? && parts.value.0 != []
  }

  /** The column declarations of `create`, added to `acc` in order. */
  function ParseColumns(specs: seq<string>, acc: Dict<string>): (r: Result<Dict<string>, ParseError>)
    ensures r.Err? ==> r.error.BadColumnSpec? || r.error.EmptyColumnPart?
  {
    if specs == [] then Ok(acc)
    else
      match SplitOnce(specs[0], ':')
      case None => Err(BadColumnSpec(specs[0]))
      case Some(parts) =>
        if parts.0 == [] || parts.1 == [] then Err(EmptyColumnPart(specs[0]))
        else ParseColumns(specs[1..], Put(acc, parts.0, parts.1))
  }

  /** The `name=value` tokens of `insert` or of a `set` clause, added to `acc` in order. */
  function ParseAssignments(tokens: seq<string>, acc: Dict<string>, inSet: bool): (r: Result<Dict<string>, ParseError>)
    ensures r.Err? ==> if inSet then r.error.BadSetField? || r.error.EmptySetFieldName?
                       else r.error.BadField? || r.error.EmptyFieldName?
  {
    if tokens == [] then Ok(acc)
    else
      match SplitOnce(tokens[0], '=')
      case None => Err(if inSet then BadSetField(tokens[0]) else BadField(tokens[0]))
      case Some(parts) =>
        if parts.0 == [] then Err(if inSet then EmptySetFieldName(tokens[0]) else EmptyFieldName(tokens[0]))
        else ParseAssignments(tokens[1..], Put(acc, parts.0, parts.1), inSet)
  }

  /** The condition in the token after the `where` at position `w`. */
  function ParseCondition(tokens: seq<string>, w: nat): (r: Result<Condition, ParseError>)
    requires w < |tokens|
    ensures r.Ok? <==> w + 1 < |tokens| && IsAssignment(tokens[w + 1])
    ensures r.Ok? ==> tokens[w + 1] == r.value.field + "=" + r.value.value
  {
    if w + 1 >= |tokens| then Err(MissingCondition)
    else
      var token := tokens[w + 1];
      match SplitOnce(token, '=')
      case None => Err(BadCondition(token))
      case Some(parts) =>
        if parts.0 == [] then Err(EmptyConditionField)
        else Ok(Condition(parts.0, parts.1))
  }

  /** `create <table> (<col>:<type>)+`. */
  function ParseCreate(tokens: seq<string>): (r: Result<Command, ParseError>)
    requires |tokens| >= 2
    ensures r.Ok? ==> r.value.Create? && r.value.table == tokens[1]
    ensures r.Err? ==> r.error == NoColumns || r.error.BadColumnSpec? || r.error.EmptyColumnPart?
  {
    if |tokens| == 2 then Err(NoColumns)
    else
      var columns :- ParseColumns(tokens[2..], []);
      Ok(Create(tokens[1], columns))
  }

  /** `insert <table> (<field>=<value>)+`. */
  function ParseInsert(tokens: seq<string>): (r: Result<Command, ParseError>)
    requires |tokens| >= 2
    ensures r.Ok? ==> r.value.Insert? && r.value.table == tokens[1]
    ensures r.Err? ==> r.error == NoFields || r.error.BadField? || r.error.EmptyFieldName?
  {
    if |tokens| == 2 then Err(NoFields)
    else
      var values :- ParseAssignments(tokens[2..], [], false);
      Ok(Insert(tokens[1], values))
  }

  /** The first `where` is followed by a `field=value` token with a non-empty field. */
  predicate ValidWhere(tokens: seq<string>) {
    && "where" in tokens
    && var w := IndexOf(tokens, "where").value;
       w + 1 < |tokens| && IsAssignment(tokens[w + 1])
  }

  /** The token holding the condition, once `ValidWhere` holds. */
  function ConditionToken(tokens: seq<string>): string
    requires ValidWhere(tokens)
  {
    tokens[IndexOf(tokens, "where").value + 1]
  }

  /**
   * The first `set` comes before the first `where` with at least one token
   * between them, and every token between them is a valid assignment.
   */
  predicate ValidSet(tokens: seq<string>) {
    && "where" in tokens && "set" in tokens
    && var w := IndexOf(tokens, "where").value;
       var s := IndexOf(tokens, "set").value;
       && s + 1 < w
       && forall i :: s + 1 <= i < w ==> IsAssignment(tokens[i])
  }

  /** The condition after the first `where`, as `update` and `delete` demand and `select` accepts. */
  function ParseWhere(tokens: seq<string>): (r: Result<Condition, ParseError>)
    ensures r.Ok? <==> ValidWhere(tokens)
    ensures r.Ok? ==> ConditionToken(tokens) == r.value.field + "=" + r.value.value && r.value.field != []
    ensures r.Err? ==> r.error == MissingWhere || r.error == MissingCondition
                       || r.error.BadCondition? || r.error == EmptyConditionField
  {
    match IndexOf(tokens, "where")
    case None => Err(MissingWhere)
    case Some(w) => ParseCondition(tokens, w)
  }

  /** `select <table> [where <field>=<value>]`: a filter exactly when `where` occurs. */
  function ParseSelect(tokens: seq<string>): (r: Result<Command, ParseError>)
    requires |tokens| >= 2
    ensures "where" !in tokens ==> r == Ok(Select(tokens[1], None))
    ensures "where" in tokens ==>
      && (r.Ok? <==> ValidWhere(tokens))
      && (r.Ok? ==> r == Ok(Select(tokens[1], Some(ParseWhere(tokens).value))))
    ensures r.Err? ==> r.error == MissingCondition || r.error.BadCondition? || r.error == EmptyConditionField
  {
    if "where" !in tokens then Ok(Select(tokens[1], None))
    else
      var condition :- ParseWhere(tokens);
      Ok(Select(tokens[1], Some(condition)))
  }

  /** `update <table> set (<field>=<value>)+ where <field>=<value>`. */
  function ParseUpdate(tokens: seq<string>): (r: Result<Command, ParseError>)
    requires |tokens| >= 2
    ensures r.Ok? ==> r.value.Update? && r.value.table == tokens[1] && ParseWhere(tokens) == Ok(r.value.condition)
    ensures r.Err? ==> r.error != EmptyCommand && !r.error.UnknownCommand?
  {
    var condition :- ParseWhere(tokens);
    var w := IndexOf(tokens, "where").value;
    match IndexOf(tokens, "set")
    case None => Err(MissingSet)
    case Some(s) =>
      if s + 1 >= w then Err(EmptySet)
      else
        var values :- ParseAssignments(tokens[s + 1..w], [], true);
        Ok(Update(tokens[1], values, condition))
  }

  /** `delete <table> where <field>=<value>`. */
  function ParseDelete(tokens: seq<string>): (r: Result<Command, ParseError>)
    requires |tokens| >= 2
    ensures r.Ok? <==> ValidWhere(tokens)
    ensures r.Ok? ==> r == Ok(Delete(tokens[1], ParseWhere(tokens).value))
    ensures r.Err? ==> r.error == ParseWhere(tokens).error
  {
    var condition :- ParseWhere(tokens);
    Ok(Delete(tokens[1], condition))
  }

  /** Everything after the table name, for the six table commands. */
  function ParseTableCommand(kw: Keyword, tokens: seq<string>): (r: Result<Command, ParseError>)
    requires kw.NeedsTable() && !kw.KDescribe? && |tokens| >= 2
    ensures r.Ok? ==> r.value.Kind() == kw && r.value.HasTable() && r.value.table == tokens[1]
    ensures r.Err? ==> r.error != EmptyCommand && !r.error.UnknownCommand?
  {
    if kw == KCreate then ParseCreate(tokens)
    else if kw == KInsert then ParseInsert(tokens)
    else if kw == KSelect then ParseSelect(tokens)
    else if kw == KDrop then Ok(Drop(tokens[1]))
    else if kw == KUpdate then ParseUpdate(tokens)
    else ParseDelete(tokens)
  }

  /** `parse_command` on the whitespace-split line. */
  function ParseTokens(tokens: seq<string>): (r: Result<Command, ParseError>)
    ensures r == Err(EmptyCommand) <==> tokens == []
    ensures r.Ok? ==> r.value.Kind() == Classify(tokens[0])
    ensures r.Ok? && r.value.HasTable() ==> |tokens| >= 2 && r.value.table == tokens[1]
    ensures r.Err? && r.error.UnknownCommand? <==> tokens != [] && Classify(tokens[0]) == KUnknown
  {
    if tokens == [] then Err(EmptyCommand)
    else
      var kw := Classify(tokens[0]);
      match kw
      case KHelp => Ok(Help)
      case KList => Ok(List)
      case KExit => Ok(Exit)
      case KDescribe =>
        if |tokens| < 2 then Err(MissingTable(Canonical(Lower(tokens[0]))))
        else Ok(Describe(tokens[1]))
      case KUnknown => Err(UnknownCommand(Canonical(Lower(tokens[0]))))
      case _ =>
        if |tokens| < 2 then Err(MissingTable(Canonical(Lower(tokens[0]))))
        else ParseTableCommand(kw, tokens)
  }

  /** `parse_command(line)`. */
  function ParseCommand(line: string): Result<Command, ParseError> {
    ParseTokens(Words(Strip(line)))
  }

  // ---------------------------------------------------------------- properties

  /** An empty or blank line is the only input rejected as an empty command. */
  lemma BlankLineFails(line: string)
    ensures ParseCommand(line) == Err(EmptyCommand) <==> AllSpace(line)
  {
    var t := Strip(line);
    WordsEmpty(t);
    if t != [] {
      assert !AllSpace(t) by { assert !IsSpace(t[0]); }
    }
  }

  /** `help`, `list` and `exit` (and their aliases) ignore whatever follows them. */
  lemma KeywordIgnoresArguments(keyword: string, rest: seq<string>)
    requires Classify(keyword) in {KHelp, KList, KExit}
    ensures ParseTokens([keyword] + rest) == ParseTokens([keyword])
    ensures ParseTokens([keyword] + rest).Ok?
  {
  }

  /** Every command but `help`, `list` and `exit` fails without a table name. */
  lemma TableNameRequired(keyword: string)
    requires Classify(keyword).NeedsTable()
    ensures ParseTokens([keyword]) == Err(MissingTable(Canonical(Lower(keyword))))
  {
  }

  /** The name/type pairs of valid column declarations. */
  function ColumnPairs(specs: seq<string>): (ps: Dict<string>)
    requires forall i :: 0 <= i < |specs| ==> IsColumnSpec(specs[i])
    ensures |ps| == |specs|
  {
    if specs == [] then []
    else
      assert IsColumnSpec(specs[0]);
      [SplitOnce(specs[0], ':').value] + ColumnPairs(specs[1..])
  }

  /** The name/value pairs of valid assignments. */
  function AssignmentPairs(tokens: seq<string>): (ps: Dict<string>)
    requires forall i :: 0 <= i < |tokens| ==> IsAssignment(tokens[i])
    ensures |ps| == |tokens|
  {
    if tokens == [] then []
    else
      assert IsAssignment(tokens[0]);
      [SplitOnce(tokens[0], '=').value] + AssignmentPairs(tokens[1..])
  }

  /**
   * The column declarations parse exactly when each one is a valid
   * `name:type`; the result is then the assignments in order, so a later
   * duplicate name overwrites an earlier one.
   */
  lemma {:induction false} ParseColumnsSpec(specs: seq<string>, acc: Dict<string>)
    ensures ParseColumns(specs, acc).Ok? <==> forall i :: 0 <= i < |specs| ==> IsColumnSpec(specs[i])
    ensures ParseColumns(specs, acc).Ok? ==> ParseColumns(specs, acc).value == PutAll(acc, ColumnPairs(specs))
  {
    if specs != [] {
      var parts := SplitOnce(specs[0], ':');
      var rest := specs[1..];
      assert forall i :: 1 <= i < |specs| ==> specs[i] == rest[i - 1];
      if IsColumnSpec(specs[0]) {
        var acc' := Put(acc, parts.value.0, parts.value.1);
        assert ParseColumns(specs, acc) == ParseColumns(rest, acc');
        ParseColumnsSpec(rest, acc');
        if forall i :: 0 <= i < |specs| ==> IsColumnSpec(specs[i]) {
          var ps := ColumnPairs(specs);
          assert ps == [parts.value] + ColumnPairs(rest);
          assert ps[1..] == ColumnPairs(rest);
          assert PutAll(acc, ps) == PutAll(acc', ColumnPairs(rest));
        }
      } else {
        assert ParseColumns(specs, acc).Err?;
      }
    }
  }

  /**
   * The assignments parse exactly when each one is a valid `name=value`;
   * the result is then the assignments in order.
   */
  lemma {:induction false} ParseAssignmentsSpec(tokens: seq<string>, acc: Dict<string>, inSet: bool)
    ensures ParseAssignments(tokens, acc, inSet).Ok? <==> forall i :: 0 <= i < |tokens| ==> IsAssignment(tokens[i])
    ensures ParseAssignments(tokens, acc, inSet).Ok?
            ==> ParseAssignments(tokens, acc, inSet).value == PutAll(acc, AssignmentPairs(tokens))
  {
    if tokens != [] {
      var parts := SplitOnce(tokens[0], '=');
      var rest := tokens[1..];
      assert forall i :: 1 <= i < |tokens| ==> tokens[i] == rest[i - 1];
      if IsAssignment(tokens[0]) {
        var acc' := Put(acc, parts.value.0, parts.value.1);
        assert ParseAssignments(tokens, acc, inSet) == ParseAssignments(rest, acc', inSet);
        ParseAssignmentsSpec(rest, acc', inSet);
        if forall i :: 0 <= i < |tokens| ==> IsAssignment(tokens[i]) {
          var ps := AssignmentPairs(tokens);
          assert ps == [parts.value] + AssignmentPairs(rest);
          assert ps[1..] == AssignmentPairs(rest);
          assert PutAll(acc, ps) == PutAll(acc', AssignmentPairs(rest));
        }
      }
    }
  }

  /**
   * `create` succeeds exactly when at least one declaration follows the table
   * name and all of them are valid; each column then has the type of its
   * last declaration and no name occurs twice.
   */
  lemma CreateParses(keyword: string, table: string, specs: seq<string>)
    requires Classify(keyword) == KCreate
    ensures var r := ParseTokens([keyword, table] + specs);
      && (r.Ok? <==> |specs| > 0 && forall i :: 0 <= i < |specs| ==> IsColumnSpec(specs[i]))
      && (r.Ok? ==> r.value.Create? && r.value.table == table
                    && UniqueKeys(r.value.columns)
                    && forall n :: Get(r.value.columns, n) == GetLast(ColumnPairs(specs), n))
  {
    var tokens := [keyword, table] + specs;
    assert tokens[2..] == specs;
    ParseColumnsSpec(specs, []);
    if |specs| > 0 && forall i :: 0 <= i < |specs| ==> IsColumnSpec(specs[i]) {
      PutAllUnique([], ColumnPairs(specs));
      PutAllGet([], ColumnPairs(specs));
    }
  }

  /**
   * `insert` succeeds exactly when at least one assignment follows the table
   * name and all of them are valid; each field then holds its last value.
   */
  lemma InsertParses(keyword: string, table: string, tokens: seq<string>)
    requires Classify(keyword) == KInsert
    ensures var r := ParseTokens([keyword, table] + tokens);
      && (r.Ok? <==> |tokens| > 0 && forall i :: 0 <= i < |tokens| ==> IsAssignment(tokens[i]))
      && (r.Ok? ==> r.value.Insert? && r.value.table == table
                    && UniqueKeys(r.value.values)
                    && forall n :: Get(r.value.values, n) == GetLast(AssignmentPairs(tokens), n))
  {
    var all := [keyword, table] + tokens;
    assert all[2..] == tokens;
    ParseAssignmentsSpec(tokens, [], false);
    if |tokens| > 0 && forall i :: 0 <= i < |tokens| ==> IsAssignment(tokens[i]) {
      PutAllUnique([], AssignmentPairs(tokens));
      PutAllGet([], AssignmentPairs(tokens));
    }
  }

  /** A line whose keyword takes a table name is parsed by that keyword's rule. */
  lemma TableCommandDispatch(tokens: seq<string>)
    requires |tokens| >= 2 && Classify(tokens[0]).NeedsTable() && !Classify(tokens[0]).KDescribe?
    ensures ParseTokens(tokens) == ParseTableCommand(Classify(tokens[0]), tokens)
  {
  }

  /**
   * `select` has a filter only when the exact token `where` occurs; the
   * filter is then the token after its first occurrence, which must be a
   * valid `field=value`.
   */
  lemma SelectParses(tokens: seq<string>)
    requires |tokens| >= 2 && Classify(tokens[0]) == KSelect
    ensures var r := ParseTokens(tokens);
      && ("where" !in tokens ==> r == Ok(Select(tokens[1], None)))
      && ("where" in tokens ==>
            && (r.Ok? <==> ValidWhere(tokens))
            && (r.Ok? ==> r.value.Select? && r.value.filter.Some?
                          && ConditionToken(tokens) == r.value.filter.value.field + "=" + r.value.filter.value.value))
  {
    TableCommandDispatch(tokens);
  }

  /** The assignment test over a slice, restated on positions of the whole line. */
  lemma AllAssignmentsSlice(tokens: seq<string>, lo: nat, hi: nat)
    requires lo <= hi <= |tokens|
    ensures (forall i :: lo <= i < hi ==> IsAssignment(tokens[i]))
            <==> (forall j :: 0 <= j < |tokens[lo..hi]| ==> IsAssignment(tokens[lo..hi][j]))
  {
    var span := tokens[lo..hi];
    assert forall i :: lo <= i < hi ==> tokens[i] == span[i - lo];
    assert forall j :: 0 <= j < |span| ==> span[j] == tokens[j + lo];
  }

  /**
   * `update` succeeds exactly when a valid condition follows the first
   * `where`, a `set` occurs, and the tokens strictly between the first `set`
   * and the first `where` are one or more valid assignments.
   */
  lemma UpdateParses(tokens: seq<string>)
    requires |tokens| >= 2 && Classify(tokens[0]) == KUpdate
    ensures ParseTokens(tokens).Ok? <==> ValidWhere(tokens) && ValidSet(tokens)
  {
    TableCommandDispatch(tokens);
    var r := ParseUpdate(tokens);
    if !ValidWhere(tokens) {
      assert r.Err?;
    } else if "set" !in tokens {
      assert r == Err(MissingSet);
    } else {
      var w := IndexOf(tokens, "where").value;
      var s := IndexOf(tokens, "set").value;
      if s + 1 >= w {
        assert r == Err(EmptySet);
        assert !ValidSet(tokens);
      } else {
        var span := tokens[s + 1..w];
        ParseAssignmentsSpec(span, [], true);
        AllAssignmentsSlice(tokens, s + 1, w);
        assert r.Ok? <==> ParseAssignments(span, [], true).Ok?;
      }
    }
  }

  /** The tokens strictly between the first `set` and the first `where`: the assignments of an update. */
  function SetSpanOf(tokens: seq<string>): (span: seq<string>)
    requires ValidSet(tokens)
    ensures |span| > 0 && forall i :: 0 <= i < |span| ==> IsAssignment(span[i])
  {
    var s := IndexOf(tokens, "set").value;
    var w := IndexOf(tokens, "where").value;
    var span := tokens[s + 1..w];
    assert forall i :: 0 <= i < |span| ==> span[i] == tokens[s + 1 + i];
    span
  }

  /**
   * What a valid `update` parses to: the table, the condition after the
   * first `where`, and the assignments of the set span, each field with its
   * last value and no field twice.
   */
  lemma UpdateParsesValues(tokens: seq<string>)
    requires |tokens| >= 2 && Classify(tokens[0]) == KUpdate
    requires ValidWhere(tokens) && ValidSet(tokens)
    ensures var ps := AssignmentPairs(SetSpanOf(tokens));
      && ParseTokens(tokens) == Ok(Update(tokens[1], PutAll([], ps), ParseWhere(tokens).value))
      && UniqueKeys(PutAll([], ps))
      && forall n :: Get(PutAll([], ps), n) == GetLast(ps, n)
  {
    var s := IndexOf(tokens, "set").value;
    var w := IndexOf(tokens, "where").value;
    UpdateValues(tokens, s, w, SetSpanOf(tokens), AssignmentPairs(SetSpanOf(tokens)));
  }

  /** An update whose condition and set span parse carries both. */
  lemma UpdateBuilt(tokens: seq<string>, s: nat, w: nat, values: Dict<string>)
    requires |tokens| >= 2 && ValidWhere(tokens)
    requires IndexOf(tokens, "set") == Some(s) && IndexOf(tokens, "where") == Some(w) && s + 1 < w
    requires ParseAssignments(tokens[s + 1..w], [], true) == Ok(values)
    ensures ParseUpdate(tokens) == Ok(Update(tokens[1], values, ParseWhere(tokens).value))
  {
    var c := ParseWhere(tokens);
    assert c.Ok?;
    assert !(s + 1 >= w);
  }

  /** A valid update carries the assignments of its set span, each field with its last value. */
  lemma UpdateValues(tokens: seq<string>, s: nat, w: nat, span: seq<string>, ps: Dict<string>)
    requires |tokens| >= 2 && Classify(tokens[0]) == KUpdate && ValidWhere(tokens)
    requires IndexOf(tokens, "set") == Some(s) && IndexOf(tokens, "where") == Some(w) && s + 1 < w
    requires span == tokens[s + 1..w] && forall i :: 0 <= i < |span| ==> IsAssignment(span[i])
    requires ps == AssignmentPairs(span)
    ensures ParseTokens(tokens) == Ok(Update(tokens[1], PutAll([], ps), ParseWhere(tokens).value))
    ensures UniqueKeys(PutAll([], ps)) && forall n :: Get(PutAll([], ps), n) == GetLast(ps, n)
  {
    assert ParseAssignments(span, [], true) == Ok(PutAll([], ps)) by {
      ParseAssignmentsSpec(span, [], true);
    }
    UpdateDispatch(tokens);
    UpdateBuilt(tokens, s, w, PutAll([], ps));
    PutAllUnique([], ps);
    PutAllGet([], ps);
  }

  /** `delete` succeeds exactly when a valid condition follows the first `where`. */
  lemma DeleteParses(tokens: seq<string>)
    requires |tokens| >= 2 && Classify(tokens[0]) == KDelete
    ensures ParseTokens(tokens).Ok? <==> ValidWhere(tokens)
    ensures ParseTokens(tokens).Ok? ==> ParseTokens(tokens) == Ok(Delete(tokens[1], ParseWhere(tokens).value))
  {
    TableCommandDispatch(tokens);
  }

  // ---------------------------------------------------------------- concrete lines

  /** A line of words separated by single spaces splits back into those words. */
  lemma LineOfWords(ws: seq<string>)
    requires |ws| > 0 && forall i :: 0 <= i < |ws| ==> IsWord(ws[i])
    ensures ParseCommand(Join(ws)) == ParseTokens(ws)
  {
    JoinBounded(ws);
    StripBounded(Join(ws));
    WordsOfJoin(ws);
  }

  /** A one-word line is parsed as that word alone. */
  lemma AliasLine(w: string)
    requires IsWord(w)
    ensures ParseCommand(w) == ParseTokens([w])
  {
    assert Join([w]) == w;
    LineOfWords([w]);
  }

  /** The condition is read from the token after the first `where`. */
  lemma ConditionAt(tokens: seq<string>, w: nat, field: string, value: string)
    requires w + 1 < |tokens| && tokens[w] == "where" && "where" !in tokens[..w]
    requires field != [] && '=' !in field && tokens[w + 1] == field + "=" + value
    ensures ParseWhere(tokens) == Ok(Condition(field, value))
  {
    assert field + "=" + value == field + ['='] + value;
    SplitOnceAt(field, '=', value);
  }

  /** A line starting with `update` and a table name is parsed by the update rule. */
  lemma UpdateDispatch(tokens: seq<string>)
    requires |tokens| >= 2 && Classify(tokens[0]) == KUpdate
    ensures ParseTokens(tokens) == ParseUpdate(tokens)
  {
    TableCommandDispatch(tokens);
  }

  /** A `select` line with a valid condition filters on that condition. */
  lemma SelectBuilt(tokens: seq<string>, c: Condition)
    requires |tokens| >= 2 && Classify(tokens[0]) == KSelect
    requires "where" in tokens && ParseWhere(tokens) == Ok(c)
    ensures ParseTokens(tokens) == Ok(Select(tokens[1], Some(c)))
  {
    TableCommandDispatch(tokens);
  }

  /** An update whose first `set` is not followed by a token before the first `where` fails. */
  lemma UpdateEmptySet(tokens: seq<string>, s: nat, w: nat)
    requires |tokens| >= 2 && Classify(tokens[0]) == KUpdate && ValidWhere(tokens)
    requires IndexOf(tokens, "set") == Some(s) && IndexOf(tokens, "where") == Some(w) && s + 1 >= w
    ensures ParseTokens(tokens) == Err(EmptySet)
  {
    UpdateDispatch(tokens);
    assert ParseWhere(tokens).Ok?;
  }

  /** `select users where age=30` filters on `age` equal to `30`. */
  lemma SelectWhereExample()
    ensures ParseCommand("select users where age=30") == Ok(Select("users", Some(Condition("age", "30"))))
  {
    SelectWhereLine();
    SelectWhereTokens();
  }

  /** `select users where` has no condition after `where`. */
  lemma SelectWithoutConditionFails()
    ensures ParseCommand("select users where") == Err(MissingCondition)
  {
    SelectWithoutLine();
    SelectWithoutConditionTokens();
  }

  /** `update users set age=31 where id=1` sets `age` to `31` on the row with `id` 1. */
  lemma UpdateSetExample()
    ensures ParseCommand("update users set age=31 where id=1")
         == Ok(Update("users", [("age", "31")], Condition("id", "1")))
  {
    UpdateSetLine();
    UpdateSetTokens();
  }

  /** `update users set where id=1` has nothing between `set` and `where`. */
  lemma UpdateWithEmptySetFails()
    ensures ParseCommand("update users set where id=1") == Err(EmptySet)
  {
    EmptySetLine();
    UpdateWithEmptySetTokens();
  }

  /** `q` and `ls` are `exit` and `list`. */
  lemma AliasExamples()
    ensures ParseCommand("q") == Ok(Exit)
    ensures ParseCommand("ls") == Ok(List)
  {
    AliasQ("q");
    AliasLs("ls");
  }

  // The lemmas below are the steps of the examples above, one concrete word,
  // token list or line each; they state nothing beyond the examples.

  lemma KeywordSelect(w: string)
    requires w == "select"
    ensures Classify(w) == KSelect
  {
    assert Lower(w) == w by { LowerFixed(w); }
  }

  lemma KeywordUpdate(w: string)
    requires w == "update"
    ensures Classify(w) == KUpdate
  {
    assert Lower(w) == w by { LowerFixed(w); }
  }

  lemma SelectWhereTokens()
    ensures ParseTokens(["select", "users", "where", "age=30"]) == Ok(Select("users", Some(Condition("age", "30"))))
  {
    var ws := ["select", "users", "where", "age=30"];
    KeywordSelect("select");
    SelectWhereCondition();
    assert ws[2] == "where";
    SelectBuilt(ws, Condition("age", "30"));
  }

  lemma SelectWhereCondition()
    ensures ParseWhere(["select", "users", "where", "age=30"]) == Ok(Condition("age", "30"))
  {
    var ws := ["select", "users", "where", "age=30"];
    assert ws[..2] == ["select", "users"];
    ConditionAt(ws, 2, "age", "30");
  }

  lemma AliasQ(w: string)
    requires w == "q"
    ensures ParseCommand(w) == Ok(Exit)
  {
    KeywordQ(w);
    AliasLine(w);
    assert ParseTokens([w]) == Ok(Exit);
  }

  lemma AliasLs(w: string)
    requires w == "ls"
    ensures ParseCommand(w) == Ok(List)
  {
    KeywordLs(w);
    AliasLine(w);
    assert ParseTokens([w]) == Ok(List);
  }

  lemma KeywordQ(w: string)
    requires w == "q"
    ensures Classify(w) == KExit
  {
    assert Lower(w) == w by { LowerFixed(w); }
  }

  lemma KeywordLs(w: string)
    requires w == "ls"
    ensures Classify(w) == KList
  {
    assert Lower(w) == w by { LowerFixed(w); }
  }

  lemma SelectWithoutConditionTokens()
    ensures ParseTokens(["select", "users", "where"]) == Err(MissingCondition)
  {
    var ws := ["select", "users", "where"];
    KeywordSelect("select");
    TableCommandDispatch(ws);
    assert IndexOf(ws, "where") == Some(2);
  }

  lemma UpdateWithEmptySetTokens()
    ensures ParseTokens(["update", "users", "set", "where", "id=1"]) == Err(EmptySet)
  {
    var ws := ["update", "users", "set", "where", "id=1"];
    KeywordUpdate("update");
    EmptySetKeywords(ws);
    UpdateEmptySet(ws, 2, 3);
  }

  lemma EmptySetKeywords(ws: seq<string>)
    requires ws == ["update", "users", "set", "where", "id=1"]
    ensures IndexOf(ws, "set") == Some(2) && IndexOf(ws, "where") == Some(3) && ValidWhere(ws)
  {
    assert ws[..2] == ["update", "users"];
    IndexOfAt(ws, 2, "set");
    assert ws[..3] == ["update", "users", "set"];
    IndexOfAt(ws, 3, "where");
    assert ws[4][2] == '=' && ws[4][0] != '=';
  }

  lemma EmptySetLine()
    ensures ParseCommand("update users set where id=1") == ParseTokens(["update", "users", "set", "where", "id=1"])
  {
    var ws := ["update", "users", "set", "where", "id=1"];
    EmptySetJoin();
    EmptySetWords();
    LineOfWords(ws);
  }

  lemma EmptySetJoin()
    ensures Join(["update", "users", "set", "where", "id=1"]) == "update users set where id=1"
  {
    var ws := ["update", "users", "set", "where", "id=1"];
    assert ws[1..][1..][1..][1..] == ["id=1"];
  }

  lemma EmptySetWords()
    ensures var ws := ["update", "users", "set", "where", "id=1"];
      forall i :: 0 <= i < |ws| ==> IsWord(ws[i])
  {
  }

  lemma SelectWhereLine()
    ensures ParseCommand("select users where age=30") == ParseTokens(["select", "users", "where", "age=30"])
  {
    var ws := ["select", "users", "where", "age=30"];
    SelectWhereJoin();
    SelectWhereWords();
    LineOfWords(ws);
  }

  lemma SelectWhereJoin()
    ensures Join(["select", "users", "where", "age=30"]) == "select users where age=30"
  {
    var ws := ["select", "users", "where", "age=30"];
    assert ws[1..][1..][1..] == ["age=30"];
  }

  lemma SelectWhereWords()
    ensures var ws := ["select", "users", "where", "age=30"];
      forall i :: 0 <= i < |ws| ==> IsWord(ws[i])
  {
  }

  lemma SelectWithoutLine()
    ensures ParseCommand("select users where") == ParseTokens(["select", "users", "where"])
  {
    var ws := ["select", "users", "where"];
    SelectWithoutJoin();
    SelectWithoutWords();
    LineOfWords(ws);
  }

  lemma SelectWithoutJoin()
    ensures Join(["select", "users", "where"]) == "select users where"
  {
    var ws := ["select", "users", "where"];
    assert ws[1..][1..] == ["where"];
  }

  lemma SelectWithoutWords()
    ensures var ws := ["select", "users", "where"];
      forall i :: 0 <= i < |ws| ==> IsWord(ws[i])
  {
  }

  lemma UpdateSetTokens()
    ensures ParseTokens(["update", "users", "set", "age=31", "where", "id=1"])
         == Ok(Update("users", [("age", "31")], Condition("id", "1")))
  {
    var ws := ["update", "users", "set", "age=31", "where", "id=1"];
    KeywordUpdate("update");
    UpdateSetKeywords(ws);
    var span := ws[3..4];
    UpdateSetPairs(span);
    UpdateValues(ws, 2, 4, span, [("age", "31")]);
  }

  lemma UpdateSetKeywords(ws: seq<string>)
    requires ws == ["update", "users", "set", "age=31", "where", "id=1"]
    ensures IndexOf(ws, "set") == Some(2) && IndexOf(ws, "where") == Some(4) && ValidWhere(ws)
    ensures ParseWhere(ws) == Ok(Condition("id", "1")) && ws[3..4] == ["age=31"]
  {
    assert ws[..2] == ["update", "users"];
    IndexOfAt(ws, 2, "set");
    assert ws[..4] == ["update", "users", "set", "age=31"];
    IndexOfAt(ws, 4, "where");
    UpdateSetCondition(ws);
  }

  lemma UpdateSetCondition(ws: seq<string>)
    requires ws == ["update", "users", "set", "age=31", "where", "id=1"]
    ensures ParseWhere(ws) == Ok(Condition("id", "1"))
  {
    assert ws[..4] == ["update", "users", "set", "age=31"];
    ConditionAt(ws, 4, "id", "1");
  }

  lemma UpdateSetPairs(span: seq<string>)
    requires span == ["age=31"]
    ensures forall i :: 0 <= i < |span| ==> IsAssignment(span[i])
    ensures AssignmentPairs(span) == [("age", "31")] && PutAll([], [("age", "31")]) == [("age", "31")]
  {
    assert span[0] == "age" + ['='] + "31";
    SplitOnceAt("age", '=', "31");
  }

  lemma UpdateSetLine()
    ensures ParseCommand("update users set age=31 where id=1")
         == ParseTokens(["update", "users", "set", "age=31", "where", "id=1"])
  {
    var ws := ["update", "users", "set", "age=31", "where", "id=1"];
    UpdateSetJoin();
    UpdateSetWords();
    LineOfWords(ws);
  }

  lemma UpdateSetJoin()
    ensures Join(["update", "users", "set", "age=31", "where", "id=1"]) == "update users set age=31 where id=1"
  {
    var ws := ["update", "users", "set", "age=31", "where", "id=1"];
    assert ws[1..][1..][1..][1..][1..] == ["id=1"];
  }

  lemma UpdateSetWords()
    ensures var ws := ["update", "users", "set", "age=31", "where", "id=1"];
      forall i :: 0 <= i < |ws| ==> IsWord(ws[i])
  {
  }
}
