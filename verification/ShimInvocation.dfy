/** How the shim reads an app-server command line: two scanners and the one grammar behind them. */
module ShimInvocation {
  import opened Wrappers

  // An argument is text, or bytes that are not valid text.
  datatype Arg = Text(s: string) | Opaque

  const GLOBAL_VALUE_OPTIONS := ["-c", "--config", "--enable", "--disable", "--remote", "--remote-auth-token-env",
                                 "-m", "--model", "--local-provider", "-p", "--profile", "-s", "--sandbox", "-C",
                                 "--cd"]
  const GLOBAL_FLAGS := ["--strict-config", "--oss", "--dangerously-bypass-approvals-and-sandbox",
                         "--dangerously-bypass-hook-trust"]
  // The options a scanner of app-server arguments knows besides the special spellings.
  datatype Table = Table(values: seq<string>, flags: seq<string>)

  const LISTENER := Table(
    ["-c", "--config", "--enable", "--disable", "--ws-auth", "--ws-token-file", "--ws-token-sha256",
     "--ws-shared-secret-file", "--ws-issuer", "--ws-audience", "--ws-max-clock-skew-seconds"],
    ["--strict-config", "--analytics-default-enabled"])
  const HOST := Table(
    ["-c", "--config", "--enable", "--disable", "--listen", "--ws-auth", "--ws-token-file", "--ws-token-sha256",
     "--ws-shared-secret-file", "--ws-issuer", "--ws-audience", "--ws-max-clock-skew-seconds"],
    ["--strict-config", "--stdio", "--analytics-default-enabled"])
  const DEFAULT_LISTENER := "unix://"

  predicate IsAssignment(argument: string, option: string) {
    option <= argument && |argument| > |option| && argument[|option|] == '='
  }

  predicate AssignsOne(argument: string, options: seq<string>) {
    exists option :: option in options && IsAssignment(argument, option)
  }

  function TextAt(arguments: seq<Arg>, i: nat): Option<string> {
    if i < |arguments| && arguments[i].Text? then Some(arguments[i].s) else None
  }

  // ----- the subcommand ---------------------------------------------------------------

  function SubcommandFrom(arguments: seq<Arg>, i: nat): Option<nat>
    decreases if i <= |arguments| then |arguments| - i else 0
  {
    var argument := TextAt(arguments, i);
    if argument.None? then None
    else if argument.value == "app-server" then Some(i)
    else if argument.value in GLOBAL_VALUE_OPTIONS then
      if i + 1 >= |arguments| then None else SubcommandFrom(arguments, i + 2)
    else if AssignsOne(argument.value, GLOBAL_VALUE_OPTIONS) || argument.value in GLOBAL_FLAGS then
      SubcommandFrom(arguments, i + 1)
    else None
  }

  method AppServerSubcommandIndex(arguments: seq<Arg>) returns (found: Option<nat>)
    ensures found == SubcommandFrom(arguments, 0)
    ensures found.Some? ==> found.value < |arguments| && arguments[found.value] == Text("app-server")
  {
    var index := 0;
    while TextAt(arguments, index).Some?
      invariant SubcommandFrom(arguments, index) == SubcommandFrom(arguments, 0)
      decreases if index <= |arguments| then |arguments| - index else 0
    {
      var argument := TextAt(arguments, index).value;
      if argument == "app-server" {
        return Some(index);
      }
      if argument in GLOBAL_VALUE_OPTIONS {
        if index + 1 >= |arguments| {
          return None;
        }
        index := index + 2;
        continue;
      }
      if AssignsOne(argument, GLOBAL_VALUE_OPTIONS) || argument in GLOBAL_FLAGS {
        index := index + 1;
        continue;
      }
      return None;
    }
    return None;
  }

  /** The whole list is supported global options, each with its value where it takes one. */
  predicate GlobalOptions(arguments: seq<Arg>) {
    arguments == [] ||
    (arguments[0].Text? && arguments[0].s != "app-server" &&
     if arguments[0].s in GLOBAL_VALUE_OPTIONS then |arguments| > 1 && GlobalOptions(arguments[2..])
     else (AssignsOne(arguments[0].s, GLOBAL_VALUE_OPTIONS) || arguments[0].s in GLOBAL_FLAGS)
          && GlobalOptions(arguments[1..]))
  }

  /** The subcommand is at `i` exactly when everything before it is global options: the same
      text as an option value, or after an unknown argument, is not the subcommand. */
  lemma {:induction false} SubcommandAfterGlobalOptions(arguments: seq<Arg>, k: nat, i: nat)
    requires k <= |arguments|
    ensures SubcommandFrom(arguments, k) == Some(i) <==>
              k <= i < |arguments| && arguments[i] == Text("app-server") && GlobalOptions(arguments[k..i])
    decreases |arguments| - k
  {
    if k < |arguments| && arguments[k].Text? && arguments[k].s != "app-server" {
      if k + 1 < |arguments| {
        SubcommandAfterGlobalOptions(arguments, k + 1, i);
        SubcommandAfterGlobalOptions(arguments, if k + 2 <= |arguments| then k + 2 else k + 1, i);
      }
      if k < i < |arguments| {
        var before := arguments[k..i];
        assert before[0] == arguments[k] && before[1..] == arguments[k + 1..i];
        assert k + 2 <= i ==> before[2..] == arguments[k + 2..i];
      }
    }
  }

  // ----- the grammar of app-server options --------------------------------------------

  datatype Token = Listen(value: Arg) | Stdio | Setting(name: string) | Flag(name: string)

  /** The options after the subcommand as far as the scanners read them: up to the first
      argument that is not text, or None at the first one that is not an option. */
  function Options(table: Table, arguments: seq<Arg>, i: nat): Option<seq<Token>>
    decreases if i <= |arguments| then |arguments| - i else 0
  {
    var argument := TextAt(arguments, i);
    if argument.None? then Some([])
    else
      var a := argument.value;
      if a == "--stdio" then Then(Stdio, Options(table, arguments, i + 1))
      else if a == "--listen" then
        if i + 1 >= |arguments| then None else Then(Listen(arguments[i + 1]), Options(table, arguments, i + 2))
      else if "--listen=" <= a then Then(Listen(Text(a[9..])), Options(table, arguments, i + 1))
      else if a in table.values then
        if i + 1 >= |arguments| then None else Then(Setting(a), Options(table, arguments, i + 2))
      else if AssignsOne(a, table.values) then Then(Setting(a), Options(table, arguments, i + 1))
      else if a in table.flags then Then(Flag(a), Options(table, arguments, i + 1))
      else None
  }

  function Then(token: Token, rest: Option<seq<Token>>): Option<seq<Token>> {
    if rest.None? then None else Some([token] + rest.value)
  }

  function Listens(tokens: seq<Token>): seq<Arg> {
    if tokens == [] then []
    else if tokens[0].Listen? then [tokens[0].value] + Listens(tokens[1..])
    else Listens(tokens[1..])
  }

  // ----- the two tables ---------------------------------------------------------------

  predicate SpecialListen(a: string) {
    a == "--listen" || "--listen=" <= a
  }

  // The special spellings are not options of the table, and `host` adds exactly those.
  ghost predicate Compatible(host: Table, table: Table) {
    && (forall a :: a in host.values <==> a == "--listen" || a in table.values)
    && (forall a :: AssignsOne(a, host.values) <==> "--listen=" <= a || AssignsOne(a, table.values))
    && (forall a :: a in host.flags <==> a == "--stdio" || a in table.flags)
    && (forall a :: SpecialListen(a) || a == "--stdio" ==> a !in table.values)
    && !AssignsOne("--stdio", table.values)
  }

  lemma ListenAssignment(a: string)
    ensures IsAssignment(a, "--listen") <==> "--listen=" <= a
  {
    if IsAssignment(a, "--listen") {
      assert a[..9] == "--listen=";
    }
    if "--listen=" <= a {
      assert a[8] == "--listen="[8];
      assert a[..8] == "--listen="[..8] == "--listen";
    }
  }

  lemma ValueTables()
    ensures forall a :: a in HOST.values <==> a == "--listen" || a in LISTENER.values
    ensures forall a :: a in HOST.flags <==> a == "--stdio" || a in LISTENER.flags
  {
  }

  lemma TablesCompatible()
    ensures Compatible(HOST, LISTENER)
  {
    ValueTables();
    forall a ensures AssignsOne(a, HOST.values) <==> "--listen=" <= a || AssignsOne(a, LISTENER.values) {
      ListenAssignment(a);
      assert "--listen" in HOST.values;
    }
    forall a | SpecialListen(a) || a == "--stdio" ensures a !in LISTENER.values {
      NotAnOption(a);
    }
    StdioAssignsNothing(LISTENER.values);
  }

  lemma NotAnOption(a: string)
    requires SpecialListen(a) || a == "--stdio"
    ensures a !in LISTENER.values
  {
    assert |a| > 2 && (a[2] == 'l' || a[2] == 's');
  }

  lemma StdioAssignsNothing(options: seq<string>)
    ensures !AssignsOne("--stdio", options)
  {
    assert '=' !in "--stdio";
    forall option: string | |option| < |"--stdio"| ensures !IsAssignment("--stdio", option) {
      assert "--stdio"[|option|] in "--stdio";
    }
  }

  // ----- which invocations the host runtime takes over --------------------------------

  /** The option loop of the host decision: accepts exactly what the grammar reads. */
  method ScanHostOptions(host: Table, ghost table: Table, arguments: seq<Arg>, start: nat) returns (accepted: bool)
    requires Compatible(host, table)
    ensures accepted <==> Options(table, arguments, start).Some?
  {
    var index := start;
    while TextAt(arguments, index).Some?
      invariant Options(table, arguments, start).Some? <==> Options(table, arguments, index).Some?
      decreases if index <= |arguments| then |arguments| - index else 0
    {
      var argument := TextAt(arguments, index).value;
      if argument in host.values {
        if index + 1 >= |arguments| {
          return false;
        }
        index := index + 2;
        continue;
      }
      if AssignsOne(argument, host.values) || argument in host.flags {
        index := index + 1;
        continue;
      }
      return false;
    }
    return true;
  }

  /** `memory` says whether this is a memory-summariser invocation. */
  method ShouldStartHostRuntime(arguments: seq<Arg>, originator: Option<string>, memory: bool) returns (start: bool)
    ensures start <==>
      && SubcommandFrom(arguments, 0).Some?
      && (originator.None? || originator.value == "" || originator.value == "Codex Desktop")
      && !memory
      && Options(LISTENER, arguments, SubcommandFrom(arguments, 0).value + 1).Some?
  {
    var subcommand := AppServerSubcommandIndex(arguments);
    if subcommand.None? {
      return false;
    }
    if (originator.Some? && originator.value != "" && originator.value != "Codex Desktop") || memory {
      return false;
    }
    TablesCompatible();
    start := ScanHostOptions(HOST, LISTENER, arguments, subcommand.value + 1);
  }

  // What is still needed of the remaining options, given whether the listener was seen already.
  predicate Accepts(options: Option<seq<Token>>, seen: bool) {
    options.Some? && Stdio !in options.value && Listens(options.value) == if seen then [] else [Text(DEFAULT_LISTENER)]
  }

  lemma AcceptsThen(token: Token, rest: Option<seq<Token>>, seen: bool)
    ensures Accepts(Then(token, rest), seen) <==>
              if token.Stdio? then false
              else if token.Listen? then !seen && token.value == Text(DEFAULT_LISTENER) && Accepts(rest, true)
              else Accepts(rest, seen)
  {
    if rest.Some? {
      var all := [token] + rest.value;
      assert all[0] == token && all[1..] == rest.value;
      if token.Listen? {
        assert Listens(all)[0] == token.value && Listens(all)[1..] == Listens(rest.value);
      }
    }
  }

  /** The values given to the listen options, one after the other. */
  lemma {:induction false} ListensInOrder(tokens: seq<Token>, last: Token)
    ensures Listens(tokens + [last]) == Listens(tokens) + if last.Listen? then [last.value] else []
    decreases |tokens|
  {
    if tokens == [] {
      assert tokens + [last] == [last] && [last][1..] == [];
    } else {
      assert (tokens + [last])[0] == tokens[0] && (tokens + [last])[1..] == tokens[1..] + [last];
      ListensInOrder(tokens[1..], last);
    }
  }

  /** The option loop of the listener decision. */
  method ScanListenerOptions(table: Table, arguments: seq<Arg>, start: nat) returns (accepted: bool)
    ensures accepted <==> Accepts(Options(table, arguments, start), false)
  {
    var index, seen := start, false;
    while TextAt(arguments, index).Some?
      invariant Accepts(Options(table, arguments, start), false) <==> Accepts(Options(table, arguments, index), seen)
      decreases if index <= |arguments| then |arguments| - index else 0
    {
      var argument := TextAt(arguments, index).value;
      if argument == "--stdio" {
        AcceptsThen(Stdio, Options(table, arguments, index + 1), seen);
        return false;
      }
      if argument == "--listen" {
        if index + 1 < |arguments| {
          AcceptsThen(Listen(arguments[index + 1]), Options(table, arguments, index + 2), seen);
        }
        var value := TextAt(arguments, index + 1);
        if value.None? || seen || value.value != DEFAULT_LISTENER {
          return false;
        }
        seen, index := true, index + 2;
        continue;
      }
      if "--listen=" <= argument {
        AcceptsThen(Listen(Text(argument[9..])), Options(table, arguments, index + 1), seen);
        if seen || argument[9..] != DEFAULT_LISTENER {
          return false;
        }
        seen, index := true, index + 1;
        continue;
      }
      if argument in table.values {
        if index + 1 >= |arguments| {
          return false;
        }
        AcceptsThen(Setting(argument), Options(table, arguments, index + 2), seen);
        index := index + 2;
        continue;
      }
      if AssignsOne(argument, table.values) || argument in table.flags {
        AcceptsThen(Setting(argument), Options(table, arguments, index + 1), seen);
        AcceptsThen(Flag(argument), Options(table, arguments, index + 1), seen);
        index := index + 1;
        continue;
      }
      return false;
    }
    return seen;
  }

  /** Accepts exactly the app-server invocations whose options parse, contain no `--stdio`, and
      hold one listen option, with value `unix://`. */
  method IsDefaultRemoteUnixListener(arguments: seq<Arg>) returns (accepted: bool)
    ensures accepted <==>
      && SubcommandFrom(arguments, 0).Some?
      && var options := Options(LISTENER, arguments, SubcommandFrom(arguments, 0).value + 1);
         options.Some? && Stdio !in options.value && Listens(options.value) == [Text("unix://")]
  {
    var subcommand := AppServerSubcommandIndex(arguments);
    if subcommand.None? {
      return false;
    }
    accepted := ScanListenerOptions(LISTENER, arguments, subcommand.value + 1);
  }

  /** Lock step: an accepted default listener is an invocation the host runtime starts, unless
      it is a memory-summariser invocation. */
  method DefaultListenerStartsHost(arguments: seq<Arg>, memory: bool) returns (accepted: bool, start: bool)
    ensures accepted && !memory ==> start
    ensures start ==> !memory
    ensures accepted ==>
              var at := SubcommandFrom(arguments, 0);
              && at.Some? && Options(LISTENER, arguments, at.value + 1).Some?
              && Stdio !in Options(LISTENER, arguments, at.value + 1).value
              && Listens(Options(LISTENER, arguments, at.value + 1).value) == [Text("unix://")]
  {
    accepted := IsDefaultRemoteUnixListener(arguments);
    start := ShouldStartHostRuntime(arguments, None, memory);
  }

  // ----- the grammar, written out -----------------------------------------------------

  /** The options before the subcommand that take a value, and those that do not. */
  ghost predicate GlobalValue(a: string) {
    a in {"-c", "--config", "--enable", "--disable", "--remote", "--remote-auth-token-env", "-m", "--model",
          "--local-provider", "-p", "--profile", "-s", "--sandbox", "-C", "--cd"}
  }

  ghost predicate GlobalFlag(a: string) {
    a in {"--strict-config", "--oss", "--dangerously-bypass-approvals-and-sandbox", "--dangerously-bypass-hook-trust"}
  }

  /** The app-server options that take a value, besides the listen option, and the plain flags. */
  ghost predicate ServerValue(a: string) {
    a in {"-c", "--config", "--enable", "--disable", "--ws-auth", "--ws-token-file", "--ws-token-sha256",
          "--ws-shared-secret-file", "--ws-issuer", "--ws-audience", "--ws-max-clock-skew-seconds"}
  }

  ghost predicate ServerFlag(a: string) {
    a in {"--strict-config", "--analytics-default-enabled"}
  }

  lemma AssignmentExact(a: string, option: string)
    ensures IsAssignment(a, option) <==> option + "=" <= a
  {
    if IsAssignment(a, option) {
      assert a[..|option| + 1] == option + "=";
    }
    if option + "=" <= a {
      assert a[..|option|] == (option + "=")[..|option|] == option;
      assert a[|option|] == (option + "=")[|option|];
    }
  }

  /** The whole prefix of supported global options, written out. */
  ghost predicate GlobalPrefix(arguments: seq<Arg>) {
    arguments == [] ||
    (arguments[0].Text? && arguments[0].s != "app-server" &&
     if GlobalValue(arguments[0].s) then |arguments| > 1 && GlobalPrefix(arguments[2..])
     else ((exists option :: GlobalValue(option) && option + "=" <= arguments[0].s) || GlobalFlag(arguments[0].s))
          && GlobalPrefix(arguments[1..]))
  }

  lemma GlobalTables(a: string)
    ensures a in GLOBAL_VALUE_OPTIONS <==> GlobalValue(a)
    ensures a in GLOBAL_FLAGS <==> GlobalFlag(a)
  {
  }

  lemma GlobalAssignments(a: string)
    ensures AssignsOne(a, GLOBAL_VALUE_OPTIONS) <==> exists option :: GlobalValue(option) && option + "=" <= a
  {
    forall option: string ensures IsAssignment(a, option) <==> option + "=" <= a {
      AssignmentExact(a, option);
    }
    forall option ensures option in GLOBAL_VALUE_OPTIONS <==> GlobalValue(option) {
      GlobalTables(option);
    }
  }

  lemma {:induction false} GlobalOptionsExact(arguments: seq<Arg>)
    ensures GlobalOptions(arguments) <==> GlobalPrefix(arguments)
    decreases |arguments|
  {
    if arguments != [] && arguments[0].Text? {
      GlobalTables(arguments[0].s);
      GlobalAssignments(arguments[0].s);
      GlobalOptionsExact(arguments[1..]);
      if |arguments| > 1 {
        GlobalOptionsExact(arguments[2..]);
      }
    }
  }

  /** These arguments spell these options, up to the first argument that is not text. */
  ghost predicate Spells(arguments: seq<Arg>, tokens: seq<Token>)
    decreases |tokens|
  {
    if tokens == [] then arguments == [] || arguments[0].Opaque?
    else
      && arguments != [] && arguments[0].Text?
      && var a := arguments[0].s;
         match tokens[0]
         case Stdio => a == "--stdio" && Spells(arguments[1..], tokens[1..])
         case Listen(value) =>
           || (a == "--listen" && |arguments| > 1 && value == arguments[1] && Spells(arguments[2..], tokens[1..]))
           || (value.Text? && a == "--listen=" + value.s && Spells(arguments[1..], tokens[1..]))
         case Setting(name) =>
           && name == a
           && ((ServerValue(a) && |arguments| > 1 && Spells(arguments[2..], tokens[1..]))
               || ((exists option :: ServerValue(option) && option + "=" <= a) && Spells(arguments[1..], tokens[1..])))
         case Flag(name) => name == a && ServerFlag(a) && Spells(arguments[1..], tokens[1..])
  }

  lemma ServerTables(a: string)
    ensures a in LISTENER.values <==> ServerValue(a)
    ensures a in LISTENER.flags <==> ServerFlag(a)
  {
  }

  lemma ServerAssignments(a: string)
    ensures AssignsOne(a, LISTENER.values) <==> exists option :: ServerValue(option) && option + "=" <= a
  {
    forall option: string ensures IsAssignment(a, option) <==> option + "=" <= a {
      AssignmentExact(a, option);
    }
    forall option ensures option in LISTENER.values <==> ServerValue(option) {
      ServerTables(option);
    }
  }

  lemma ValuesHaveNoEquals(a: string)
    requires ServerValue(a)
    ensures '=' !in a
  {
  }

  lemma FlagsStartOtherwise(a: string)
    ensures ServerFlag(a) ==> |a| > 2 && a[2] != 'l'
    ensures SpecialListen(a) ==> |a| > 2 && a[2] == 'l'
  {
    assert "--listen"[2] == 'l' && "--listen="[2] == 'l';
  }

  // An argument is of one kind only.
  lemma KindsDiffer(a: string)
    ensures ServerValue(a) ==> !AssignsOne(a, LISTENER.values) && !ServerFlag(a) && !SpecialListen(a) && a != "--stdio"
    ensures ServerFlag(a) ==> !AssignsOne(a, LISTENER.values) && !SpecialListen(a) && a != "--stdio"
    ensures AssignsOne(a, LISTENER.values) ==> !SpecialListen(a) && a != "--stdio"
  {
    if AssignsOne(a, LISTENER.values) {
      var option :| option in LISTENER.values && IsAssignment(a, option);
      assert a[|option|] in a;
      ServerTables(option);
      if ServerValue(a) {
        ValuesHaveNoEquals(a);
      }
      FlagsHaveNoEquals(a);
      ValuesHaveNoEquals(option);
      NotAnOption("--listen");
      if SpecialListen(a) {
        ListenAssignsListen(a, option);
      }
      StdioAssignsNothing(LISTENER.values);
    }
    FlagsStartOtherwise(a);
    if ServerValue(a) && (SpecialListen(a) || a == "--stdio") {
      NotAnOption(a);
      ServerTables(a);
    }
  }

  lemma FlagsHaveNoEquals(a: string)
    requires '=' in a
    ensures !ServerFlag(a) && a != "--stdio"
  {
    assert '=' !in "--strict-config" && '=' !in "--analytics-default-enabled" && '=' !in "--stdio";
  }

  // Only "--listen" can be what a listen assignment assigns to.
  lemma ListenAssignsListen(a: string, option: string)
    requires SpecialListen(a) && IsAssignment(a, option) && '=' !in option
    ensures option == "--listen"
  {
    assert '=' !in "--listen" && a[|option|] in a;
    assert forall i :: 0 <= i < 8 ==> a[i] == "--listen="[i] && "--listen="[i] != '=';
    assert |option| >= 8;
    assert forall i :: 0 <= i < |option| ==> option[i] == a[i] && option[i] in option;
    assert a[8] == "--listen="[8];
    assert |option| <= 8;
    assert a[..8] == "--listen="[..8];
  }

  /** The options the scanners read are exactly those the arguments spell, and nothing is read when they
      spell none. */
  lemma {:induction false} OptionsExact(arguments: seq<Arg>, i: nat, tokens: seq<Token>)
    requires i <= |arguments|
    ensures Options(LISTENER, arguments, i) == Some(tokens) <==> Spells(arguments[i..], tokens)
    decreases |arguments| - i
  {
    var rest := arguments[i..];
    if i < |arguments| && arguments[i].Text? {
      var a := arguments[i].s;
      assert rest[0] == arguments[i] && rest[1..] == arguments[i + 1..];
      assert |rest| > 1 ==> rest[1] == arguments[i + 1] && rest[2..] == arguments[i + 2..];
      KindsDiffer(a);
      ServerTables(a);
      ServerAssignments(a);
      if tokens != [] {
        OptionsExact(arguments, i + 1, tokens[1..]);
        if i + 2 <= |arguments| {
          OptionsExact(arguments, i + 2, tokens[1..]);
        }
        OptionsStep(arguments, i, tokens);
      }
    }
  }

  // One option and the rest.
  lemma OptionsStep(arguments: seq<Arg>, i: nat, tokens: seq<Token>)
    requires i < |arguments| && arguments[i].Text? && tokens != []
    requires Options(LISTENER, arguments, i + 1) == Some(tokens[1..]) <==> Spells(arguments[i + 1..], tokens[1..])
    requires i + 2 <= |arguments| ==>
               (Options(LISTENER, arguments, i + 2) == Some(tokens[1..]) <==> Spells(arguments[i + 2..], tokens[1..]))
    ensures Options(LISTENER, arguments, i) == Some(tokens) <==> Spells(arguments[i..], tokens)
  {
    var a, rest := arguments[i].s, arguments[i..];
    assert rest[0] == arguments[i] && rest[1..] == arguments[i + 1..];
    assert |rest| > 1 ==> rest[1] == arguments[i + 1] && rest[2..] == arguments[i + 2..];
    KindsDiffer(a);
    ServerTables(a);
    ServerAssignments(a);
    ThenExact(Options(LISTENER, arguments, i + 1), tokens);
    ThenExact(Options(LISTENER, arguments, i + 2), tokens);
    if "--listen=" <= a {
      assert a == "--listen=" + a[9..];
    }
  }

  lemma ThenExact(rest: Option<seq<Token>>, tokens: seq<Token>)
    requires tokens != []
    ensures forall token :: Then(token, rest) == Some(tokens) <==> token == tokens[0] && rest == Some(tokens[1..])
  {
    forall token ensures Then(token, rest) == Some(tokens) <==> token == tokens[0] && rest == Some(tokens[1..]) {
      if rest.Some? {
        assert ([token] + rest.value)[0] == token && ([token] + rest.value)[1..] == rest.value;
        assert tokens == [tokens[0]] + tokens[1..];
      }
    }
  }
}
