/** The labyrinth's command reader: `parse_command`. */
module GameUtils {
  import opened PyStr
  import PlayerActions

  /**
   * `parse_command`: trim and lower-case the line; a blank line gives
   * `("", [])`, otherwise the first whitespace-separated word is the
   * command and the remaining words, in order, are its arguments.
   */
  function ParseCommand(userInput: string): (string, seq<string>) {
    var cleaned := Lower(Strip(userInput));
    if cleaned == [] then ("", [])
    else
      var parts := Words(cleaned);
      WordsEmpty(cleaned);
      assert !IsSpace(cleaned[0]);
      (parts[0], parts[1..])
  }

  /** A line parses as the empty command exactly when it is blank. */
  lemma ParseBlank(userInput: string)
    ensures ParseCommand(userInput) == ("", []) <==> AllSpace(userInput)
  {
    if !AllSpace(userInput) {
      var parts := Words(Lower(Strip(userInput)));
      assert IsWord(parts[0]);
    }
  }

  /** Every token of a parse is a non-empty, whitespace-free, lower-case word. */
  lemma ParseTokens(userInput: string)
    requires !AllSpace(userInput)
    ensures var (command, args) := ParseCommand(userInput);
      && IsWord(command) && IsLower(command)
      && forall i :: 0 <= i < |args| ==> IsWord(args[i]) && IsLower(args[i])
  {
    var cleaned := Lower(Strip(userInput));
    var parts := Words(cleaned);
    WordsEmpty(cleaned);
    assert !IsSpace(cleaned[0]);
    PlayerActions.LowerIsLower(Strip(userInput));
    WordsLower(cleaned);
    assert parts == [parts[0]] + parts[1..];
  }

  /** The words of a lower-case line are lower-case. */
  lemma WordsLower(line: string)
    requires IsLower(line)
    ensures forall i :: 0 <= i < |Words(line)| ==> IsLower(Words(line)[i])
  {
    var parts := Words(line);
    forall i | 0 <= i < |parts| ensures IsLower(parts[i]) {
      forall j | 0 <= j < |parts[i]| ensures LowerChar(parts[i][j]) == parts[i][j] {
        assert parts[i][j] in line;
      }
    }
  }

  /** `" ".join` of lower-case words is lower-case. */
  lemma {:induction false} JoinLower(ws: seq<string>)
    requires forall i :: 0 <= i < |ws| ==> IsLower(ws[i])
    ensures IsLower(Join(ws))
  {
    if |ws| > 1 {
      JoinLower(ws[1..]);
      var s := ws[0] + " " + Join(ws[1..]);
      forall i | 0 <= i < |s| ensures LowerChar(s[i]) == s[i] {
        if i < |ws[0]| {
          assert s[i] == ws[0][i];
        } else if i > |ws[0]| {
          assert s[i] == Join(ws[1..])[i - |ws[0]| - 1];
        }
      }
    }
  }

  /** Parsing the space-joined result of a parse gives the same command and arguments. */
  lemma ParseReparse(userInput: string)
    ensures var (command, args) := ParseCommand(userInput);
      ParseCommand(Join([command] + args)) == (command, args)
  {
    var (command, args) := ParseCommand(userInput);
    var ws := [command] + args;
    if AllSpace(userInput) {
      ParseBlank(userInput);
      assert Join(ws) == "";
      ParseBlank("");
    } else {
      ParseTokens(userInput);
      assert forall i :: 0 <= i < |ws| ==> IsWord(ws[i]) && IsLower(ws[i]);
      var line := Join(ws);
      JoinBounded(ws);
      StripBounded(line);
      JoinLower(ws);
      LowerFixed(line);
      WordsOfJoin(ws);
      WordsEmpty(line);
      assert !IsSpace(line[0]);
      assert Words(line) == ws;
    }
  }
}
