/** Windows argument quoting and its inverse, the CommandLineToArgvW splitting rules. */
module WindowsCommandLine {

  function Backslashes(n: nat): string {
    seq(n, i => '\\')
  }

  predicate NeedsQuotes(value: string) {
    value == "" || ' ' in value || '\t' in value || '\"' in value
  }

  /** What the character loop appends for the rest of the value, with `pending` backslashes
      not yet written. */
  function Escaped(value: string, pending: nat): string {
    if value == "" then Backslashes(pending * 2)
    else if value[0] == '\\' then Escaped(value[1..], pending + 1)
    else if value[0] == '\"' then Backslashes(pending * 2 + 1) + "\"" + Escaped(value[1..], 0)
    else Backslashes(pending) + [value[0]] + Escaped(value[1..], 0)
  }

  function Quote(value: string): string {
    if NeedsQuotes(value) then "\"" + Escaped(value, 0) + "\"" else value
  }

  function Join(parts: seq<string>): string {
    if parts == [] then ""
    else if |parts| == 1 then parts[0]
    else parts[0] + " " + Join(parts[1..])
  }

  function CommandLine(arguments: seq<string>): string {
    Join(Quoted(arguments))
  }

  function Quoted(arguments: seq<string>): seq<string> {
    seq(|arguments|, i requires 0 <= i < |arguments| => Quote(arguments[i]))
  }

  method QuoteWindowsArgument(value: string) returns (output: string)
    ensures output == Quote(value)
  {
    if !NeedsQuotes(value) {
      return value;
    }
    output := "\"";
    var backslashes := 0;
    for i := 0 to |value|
      invariant output + Escaped(value[i..], backslashes) == "\"" + Escaped(value, 0)
    {
      assert value[i..][0] == value[i] && value[i..][1..] == value[i + 1..];
      ghost var before := output;
      if value[i] == '\\' {
        backslashes := backslashes + 1;
      } else if value[i] == '\"' {
        output := output + Backslashes(backslashes * 2 + 1) + "\"";
        assert output + Escaped(value[i + 1..], 0) == before + Escaped(value[i..], backslashes);
        backslashes := 0;
      } else {
        output := output + Backslashes(backslashes) + [value[i]];
        assert output + Escaped(value[i + 1..], 0) == before + Escaped(value[i..], backslashes);
        backslashes := 0;
      }
    }
    output := output + Backslashes(backslashes * 2) + "\"";
  }

  // ----- splitting a command line -----------------------------------------------------

  // How a quote right after another quote inside a quoted region is read; versions of the
  // runtime differ. None of them can be told apart on quoted output.
  datatype DoubledQuote = Toggles | LiteralStaysQuoted | LiteralLeavesQuoted

  predicate IsBlank(c: char) {
    c == ' ' || c == '\t'
  }

  predicate IsQuote(c: char) {
    c == '\"'
  }

  /** The arguments after the program name. */
  function Arguments(line: string, rule: DoubledQuote): seq<string>
    decreases |line|, 1
  {
    if line == "" then []
    else if IsBlank(line[0]) then Arguments(line[1..], rule)
    else Token(line, rule, false, 0, "")
  }

  /** Reads one argument: `quoted` region, `pending` backslashes, characters so far. */
  function Token(line: string, rule: DoubledQuote, quoted: bool, pending: nat, current: string): seq<string>
    decreases |line|, 0
  {
    if line == "" then [current + Backslashes(pending)]
    else
      var c := line[0];
      var rest := line[1..];
      if c == '\\' then Token(rest, rule, quoted, pending + 1, current)
      else if c == '\"' then
        var kept := current + Backslashes(pending / 2);
        if pending % 2 == 1 then Token(rest, rule, quoted, 0, kept + "\"")
        else if quoted && rest != "" && rest[0] == '\"' && !rule.Toggles? then
          Token(rest[1..], rule, rule.LiteralStaysQuoted?, 0, kept + "\"")
        else Token(rest, rule, !quoted, 0, kept)
      else if IsBlank(c) && !quoted then [current + Backslashes(pending)] + Arguments(rest, rule)
      else Token(rest, rule, quoted, 0, current + Backslashes(pending) + [c])
  }

  /** The text up to the first occurrence of a stop character, and what follows it. */
  function Until(line: string, stop: char -> bool): (string, string) {
    if line == "" then ("", "")
    else if stop(line[0]) then ("", line)
    else
      var (word, rest) := Until(line[1..], stop);
      ([line[0]] + word, rest)
  }

  /** The program name has its own rule: no escapes, up to the closing quote or a blank. */
  function Split(line: string, rule: DoubledQuote): seq<string> {
    if line != "" && line[0] == '\"' then
      var (program, rest) := Until(line[1..], IsQuote);
      [program] + Arguments(if rest == "" then "" else rest[1..], rule)
    else
      var (program, rest) := Until(line, IsBlank);
      [program] + Arguments(rest, rule)
  }

  // ----- round trip -------------------------------------------------------------------

  lemma {:induction false} ReadBackslashes(n: nat, tail: string, rule: DoubledQuote, quoted: bool, pending: nat,
                                           current: string)
    ensures Token(Backslashes(n) + tail, rule, quoted, pending, current)
            == Token(tail, rule, quoted, pending + n, current)
    decreases n
  {
    if n == 0 {
      assert Backslashes(0) + tail == tail;
    } else {
      var line := Backslashes(n) + tail;
      assert line[0] == '\\' && line[1..] == Backslashes(n - 1) + tail;
      ReadBackslashes(n - 1, tail, rule, quoted, pending + 1, current);
    }
  }

  lemma BackslashesAdd(m: nat, n: nat)
    ensures Backslashes(m) + Backslashes(n) == Backslashes(m + n)
  {
  }

  // Text that may follow a finished argument.
  predicate Terminated(tail: string) {
    tail == "" || IsBlank(tail[0])
  }

  function After(tail: string, rule: DoubledQuote): seq<string> {
    if tail == "" then [] else Arguments(tail[1..], rule)
  }

  lemma ReadEscapedQuote(pending: nat, rest: string, rule: DoubledQuote, current: string)
    ensures Token(Backslashes(pending * 2 + 1) + "\"" + rest, rule, true, 0, current) ==
            Token(rest, rule, true, 0, current + Backslashes(pending) + "\"")
  {
    assert Backslashes(pending * 2 + 1) + "\"" + rest == Backslashes(pending * 2 + 1) + ("\"" + rest);
    ReadBackslashes(pending * 2 + 1, "\"" + rest, rule, true, 0, current);
    assert ("\"" + rest)[1..] == rest;
  }

  lemma ReadOrdinary(c: char, pending: nat, rest: string, rule: DoubledQuote, current: string)
    requires c != '\\' && c != '\"'
    ensures Token(Backslashes(pending) + [c] + rest, rule, true, 0, current) ==
            Token(rest, rule, true, 0, current + Backslashes(pending) + [c])
  {
    assert Backslashes(pending) + [c] + rest == Backslashes(pending) + ([c] + rest);
    ReadBackslashes(pending, [c] + rest, rule, true, 0, current);
    assert ([c] + rest)[1..] == rest;
  }

  lemma ReadClosingQuote(pending: nat, tail: string, rule: DoubledQuote, current: string)
    requires Terminated(tail)
    ensures Token(Backslashes(pending * 2) + "\"" + tail, rule, true, 0, current) ==
            [current + Backslashes(pending)] + After(tail, rule)
  {
    assert Backslashes(pending * 2) + "\"" + tail == Backslashes(pending * 2) + ("\"" + tail);
    ReadBackslashes(pending * 2, "\"" + tail, rule, true, 0, current);
    assert ("\"" + tail)[1..] == tail;
    assert current + Backslashes(pending) + Backslashes(0) == current + Backslashes(pending);
  }

  /** Reading escaped text inside quotes restores the value, whatever was pending. */
  lemma {:induction false} ReadEscaped(value: string, pending: nat, tail: string, rule: DoubledQuote, current: string)
    requires Terminated(tail)
    ensures Token(Escaped(value, pending) + "\"" + tail, rule, true, 0, current) ==
            [current + Backslashes(pending) + value] + After(tail, rule)
    decreases |value|
  {
    if value == "" {
      ReadClosingQuote(pending, tail, rule, current);
      assert current + Backslashes(pending) + value == current + Backslashes(pending);
    } else {
      var head := current + Backslashes(pending);
      assert value == [value[0]] + value[1..];
      if value[0] == '\\' {
        ReadEscaped(value[1..], pending + 1, tail, rule, current);
        assert Backslashes(pending + 1) == Backslashes(pending) + ['\\'];
        assert current + Backslashes(pending + 1) + value[1..] == head + value;
      } else {
        var rest := Escaped(value[1..], 0) + "\"" + tail;
        ReadEscaped(value[1..], 0, tail, rule, head + [value[0]]);
        assert head + [value[0]] + Backslashes(0) + value[1..] == head + value;
        if value[0] == '\"' {
          ReadEscapedQuote(pending, rest, rule, current);
          assert Escaped(value, pending) + "\"" + tail == Backslashes(pending * 2 + 1) + "\"" + rest;
        } else {
          ReadOrdinary(value[0], pending, rest, rule, current);
          assert Escaped(value, pending) + "\"" + tail == Backslashes(pending) + [value[0]] + rest;
        }
      }
    }
  }

  lemma {:induction false} ReadPlain(value: string, tail: string, rule: DoubledQuote, pending: nat, current: string)
    requires Terminated(tail) && ' ' !in value && '\t' !in value && '\"' !in value
    ensures Token(value + tail, rule, false, pending, current) ==
            [current + Backslashes(pending) + value] + After(tail, rule)
    decreases |value|
  {
    if value == "" {
      assert value + tail == tail;
      assert current + Backslashes(pending) + value == current + Backslashes(pending);
    } else {
      assert (value + tail)[1..] == value[1..] + tail;
      assert forall c :: c in value[1..] ==> c in value;
      if value[0] == '\\' {
        ReadPlain(value[1..], tail, rule, pending + 1, current);
        BackslashesAdd(pending, 1);
        assert value == Backslashes(1) + value[1..];
        assert current + Backslashes(pending + 1) + value[1..] == current + Backslashes(pending) + value;
      } else {
        ReadPlain(value[1..], tail, rule, 0, current + Backslashes(pending) + [value[0]]);
        assert current + Backslashes(pending) + [value[0]] + Backslashes(0) + value[1..]
               == current + Backslashes(pending) + value;
      }
    }
  }

  /** One quoted argument is read back as exactly that argument, and reading stops at its end. */
  lemma ReadQuoted(value: string, tail: string, rule: DoubledQuote)
    requires Terminated(tail)
    ensures Arguments(Quote(value) + tail, rule) == [value] + After(tail, rule)
  {
    if NeedsQuotes(value) {
      var rest := Escaped(value, 0) + "\"" + tail;
      assert Quote(value) + tail == "\"" + rest;
      assert ("\"" + rest)[1..] == rest;
      if value == "" {
        assert rest == "\"" + tail && rest[1..] == tail;
        assert Token(rest, rule, true, 0, "") == Token(tail, rule, false, 0, "" + Backslashes(0));
        assert "" + Backslashes(0) + Backslashes(0) == value;
        assert "" + Backslashes(0) == "";
      } else {
        ReadEscaped(value, 0, tail, rule, "");
        assert "" + Backslashes(0) + value == value;
        assert "" + Backslashes(0 / 2) == "";
      }
    } else {
      assert (value + tail)[0] == value[0];
      ReadPlain(value, tail, rule, 0, "");
      assert "" + Backslashes(0) + value == value;
    }
  }

  /** Splitting `windows_command_line(args)` gives back `args`: every list of arguments, empty
      ones, embedded quotes and trailing backslashes included. */
  lemma {:induction false} ArgumentsRoundTrip(arguments: seq<string>, rule: DoubledQuote)
    ensures Arguments(CommandLine(arguments), rule) == arguments
    decreases |arguments|
  {
    if arguments != [] {
      FirstOfLine(arguments);
      if |arguments| == 1 {
        ReadQuoted(arguments[0], "", rule);
        assert [arguments[0]] + [] == arguments;
      } else {
        var tail := " " + CommandLine(arguments[1..]);
        ReadQuoted(arguments[0], tail, rule);
        assert tail[1..] == CommandLine(arguments[1..]);
        ArgumentsRoundTrip(arguments[1..], rule);
        assert [arguments[0]] + arguments[1..] == arguments;
      }
    }
  }

  lemma FirstOfLine(arguments: seq<string>)
    requires arguments != []
    ensures CommandLine(arguments) ==
            Quote(arguments[0]) + if |arguments| == 1 then "" else " " + CommandLine(arguments[1..])
  {
    QuotedCons(arguments);
    if |arguments| == 1 {
      assert Quote(arguments[0]) + "" == Quote(arguments[0]);
    } else {
      assert Quote(arguments[0]) + " " + CommandLine(arguments[1..])
             == Quote(arguments[0]) + (" " + CommandLine(arguments[1..]));
    }
  }

  // ----- the program name -------------------------------------------------------------

  lemma {:induction false} UntilFacts(line: string, stop: char -> bool)
    ensures var (word, rest) := Until(line, stop);
            && line == word + rest
            && (forall c :: c in word ==> !stop(c))
            && (rest == "" || stop(rest[0]))
  {
    if line != "" && !stop(line[0]) {
      UntilFacts(line[1..], stop);
    }
  }

  lemma {:induction false} UntilExact(word: string, rest: string, stop: char -> bool)
    requires (forall c :: c in word ==> !stop(c)) && (rest == "" || stop(rest[0]))
    ensures Until(word + rest, stop) == (word, rest)
    decreases |word|
  {
    if word == "" {
      assert word + rest == rest;
    } else {
      assert (word + rest)[0] == word[0] && (word + rest)[1..] == word[1..] + rest;
      assert [word[0]] + word[1..] == word;
      assert word[0] in word && forall c :: c in word[1..] ==> c in word;
      UntilExact(word[1..], rest, stop);
    }
  }

  // The backslashes at the very end of `value`, counting `pending` ones before it.
  function TrailingBackslashes(value: string, pending: nat): nat {
    if value == "" then pending
    else TrailingBackslashes(value[1..], if value[0] == '\\' then pending + 1 else 0)
  }

  lemma {:induction false} EscapedWithoutQuotes(value: string, pending: nat)
    requires '\"' !in value
    ensures Escaped(value, pending) == Backslashes(pending) + value + Backslashes(TrailingBackslashes(value, pending))
    decreases |value|
  {
    if value == "" {
      BackslashesAdd(pending, pending);
    } else {
      assert value == [value[0]] + value[1..];
      if value[0] == '\\' {
        EscapedWithoutQuotes(value[1..], pending + 1);
        BackslashesAdd(pending, 1);
        assert Backslashes(1) == [value[0]];
        assert Backslashes(pending + 1) + value[1..] == Backslashes(pending) + value;
      } else {
        EscapedWithoutQuotes(value[1..], 0);
        assert Backslashes(0) + value[1..] == value[1..];
      }
    }
  }

  lemma {:induction false} TrailingIffLast(value: string, pending: nat)
    requires value != ""
    ensures TrailingBackslashes(value, pending) > 0 <==> value[|value| - 1] == '\\'
    decreases |value|
  {
    if |value| > 1 {
      TrailingIffLast(value[1..], if value[0] == '\\' then pending + 1 else 0);
    } else {
      assert value[1..] == "";
    }
  }

  // The rest of the line after the program name.
  function Tail(arguments: seq<string>): string {
    if arguments == [] then "" else " " + CommandLine(arguments)
  }

  lemma TailArguments(arguments: seq<string>, rule: DoubledQuote)
    ensures Arguments(Tail(arguments), rule) == arguments
  {
    ArgumentsRoundTrip(arguments, rule);
    if arguments != [] {
      assert Tail(arguments)[1..] == CommandLine(arguments);
    }
  }

  lemma ProgramLine(program: string, arguments: seq<string>)
    ensures CommandLine([program] + arguments) == Quote(program) + Tail(arguments)
  {
    var parts := Quoted([program] + arguments);
    assert parts[0] == Quote(program);
    assert parts[1..] == Quoted(arguments);
    if arguments == [] {
      assert parts[0] + "" == parts[0];
    }
  }

  lemma SplitPlainProgram(program: string, arguments: seq<string>, rule: DoubledQuote)
    requires !NeedsQuotes(program)
    ensures Split(CommandLine([program] + arguments), rule) == [program] + arguments
  {
    ProgramLine(program, arguments);
    var line := program + Tail(arguments);
    assert line[0] == program[0] && program[0] in program;
    UntilExact(program, Tail(arguments), IsBlank);
    TailArguments(arguments, rule);
  }

  lemma SplitAtQuote(word: string, tail: string, rule: DoubledQuote)
    requires '\"' !in word
    ensures Split("\"" + word + "\"" + tail, rule) == [word] + Arguments(tail, rule)
  {
    var line := "\"" + word + "\"" + tail;
    var rest := "\"" + tail;
    assert line[0] == '\"' && line[1..] == word + rest;
    UntilExact(word, rest, IsQuote);
    assert rest[1..] == tail;
  }

  lemma SplitQuotedProgram(program: string, arguments: seq<string>, rule: DoubledQuote)
    requires NeedsQuotes(program) && '\"' !in program
    ensures Split(CommandLine([program] + arguments), rule) == [Escaped(program, 0)] + arguments
  {
    ProgramLine(program, arguments);
    EscapedWithoutQuotes(program, 0);
    SplitAtQuote(Escaped(program, 0), Tail(arguments), rule);
    TailArguments(arguments, rule);
  }

  /** A leading program name survives exactly when it holds no quote and, if it must be quoted,
      does not end in a backslash: the program rule knows no escapes, so the doubled
      backslashes before the closing quote stay doubled. */
  lemma ProgramRoundTrip(program: string, arguments: seq<string>, rule: DoubledQuote)
    ensures Split(CommandLine([program] + arguments), rule) == [program] + arguments
            <==> '\"' !in program
                 && (NeedsQuotes(program) && program != "" ==> program[|program| - 1] != '\\')
  {
    if !NeedsQuotes(program) {
      SplitPlainProgram(program, arguments, rule);
    } else if '\"' in program {
      ProgramLine(program, arguments);
      var line := CommandLine([program] + arguments);
      assert line[0] == '\"';
      UntilFacts(line[1..], IsQuote);
      assert Split(line, rule)[0] != program;
      assert ([program] + arguments)[0] == program;
    } else {
      SplitQuotedProgram(program, arguments, rule);
      EscapedWithoutQuotes(program, 0);
      assert ([Escaped(program, 0)] + arguments)[0] == Escaped(program, 0);
      assert ([program] + arguments)[0] == program;
      if program != "" {
        TrailingIffLast(program, 0);
      }
      if program == "" || program[|program| - 1] != '\\' {
        assert Escaped(program, 0) == program;
      } else {
        assert |Escaped(program, 0)| > |program|;
      }
    }
  }

  /** An argument that is not empty and has no blank, tab or quote is passed as it is; any other one starts
      and ends with a quote. */
  lemma QuotedOnlyIfNeeded(value: string)
    ensures value != "" && (forall c :: c in value ==> c != ' ' && c != '\t' && c != '\"') ==> Quote(value) == value
    ensures value == "" || (exists c :: c in value && (c == ' ' || c == '\t' || c == '\"')) ==>
              |Quote(value)| >= 2 && Quote(value)[0] == '\"' && Quote(value)[|Quote(value)| - 1] == '\"'
  {
  }

  /** The line is the quoted arguments in order, with one blank between them. */
  lemma {:induction false} CommandLineInOrder(arguments: seq<string>, last: string)
    ensures CommandLine(arguments + [last]) ==
            (if arguments == [] then "" else CommandLine(arguments) + " ") + Quote(last)
    decreases |arguments|
  {
    if arguments == [] {
      assert Quoted([last]) == [Quote(last)] && arguments + [last] == [last];
    } else {
      var rest := arguments[1..];
      assert (arguments + [last])[1..] == rest + [last];
      QuotedCons(arguments + [last]);
      QuotedCons(arguments);
      CommandLineInOrder(rest, last);
      if rest == [] {
        assert Quoted(rest) == [] && CommandLine(arguments) == Quote(arguments[0]);
      } else {
        assert Quote(arguments[0]) + " " + (CommandLine(rest) + " " + Quote(last))
               == CommandLine(arguments) + " " + Quote(last);
      }
    }
  }

  lemma QuotedCons(arguments: seq<string>)
    requires arguments != []
    ensures Quoted(arguments) == [Quote(arguments[0])] + Quoted(arguments[1..])
  {
  }
}
