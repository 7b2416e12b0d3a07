/** The help and version scan read off the tokens of the quiet scan. */
module ArgvHelp {
  import opened Common
  import opened Argv

  /** `--quiet` and `--verbose` are global options. */
  predicate HasOutputFlags(table: Table) {
    FindOption(table.options, "quiet").Some? && FindOption(table.options, "verbose").Some?
  }

  /** Where the first `k` tokens end. */
  function PositionAfter(tokens: seq<Placed>, k: nat, index: nat): nat
    requires k <= |tokens|
  {
    if k == 0 then index else tokens[k - 1].start + tokens[k - 1].width
  }

  /** The subcommand in force after the first `k` tokens. */
  function CommandAfterFirst(tokens: seq<Placed>, k: nat, command: Option<Command>): Option<Command>
    requires k <= |tokens|
  {
    if k == 0 then command
    else if tokens[k - 1].token.Subcommand? then Some(tokens[k - 1].token.command)
    else CommandAfterFirst(tokens, k - 1, command)
  }

  predicate IsHelpToken(token: Token) { token == Flag("-h") || token == Flag("--help") }

  /** A help flag, or before any subcommand a version flag or the word `help`. */
  predicate AsksHere(arg: string, command: Option<Command>) {
    arg == "-h" || arg == "--help" || (command.None? && (arg == "-V" || arg == "--version" || arg == "help"))
  }

  /** None of the first `k` tokens is a help flag, and what follows them asks for help or the version. */
  predicate AsksAfter(args: seq<OsText>, tokens: seq<Placed>, index: nat, command: Option<Command>, k: nat)
    requires k <= |tokens|
  {
    var at := PositionAfter(tokens, k, index);
    && (forall i | 0 <= i < k :: !IsHelpToken(tokens[i].token))
    && at < |args| && args[at].Text? && AsksHere(args[at].text, CommandAfterFirst(tokens, k, command))
  }

  /** The program name, the subcommand in force and the flag; or the program name, `help` and what follows it. */
  function AskedHere(args: seq<OsText>, at: nat, command: Option<Command>): seq<OsText>
    requires at < |args| && args[at].Text?
  {
    if args[at].text == "help" then
      if at + 1 == |args| then [args[0], Text("help")]
      else if args[at + 1] == Text("-h") || args[at + 1] == Text("--help") then [args[0], Text("help"), Text("help")]
      else [args[0], Text("help"), args[at + 1]]
    else if command.Some? then [args[0], Text(command.value.name), args[at]]
    else [args[0], args[at]]
  }

  /** The control command line such a request amounts to. */
  function AskedAfter(args: seq<OsText>, tokens: seq<Placed>, index: nat, command: Option<Command>, k: nat): seq<OsText>
    requires k <= |tokens| && AsksAfter(args, tokens, index, command, k)
  {
    AskedHere(args, PositionAfter(tokens, k, index), CommandAfterFirst(tokens, k, command))
  }

  /** The first `k` tokens lead to the request `out`. */
  predicate AsksFor(args: seq<OsText>, tokens: seq<Placed>, index: nat, command: Option<Command>,
                    k: nat, out: seq<OsText>)
  {
    && k <= |tokens| && AsksAfter(args, tokens, index, command, k)
    && out == AskedAfter(args, tokens, index, command, k)
  }

  predicate Asks(args: seq<OsText>, tokens: seq<Placed>, index: nat, command: Option<Command>, out: seq<OsText>) {
    exists k | 0 <= k <= |tokens| :: AsksFor(args, tokens, index, command, k, out)
  }

  lemma {:induction false} CommandAfterCons(first: Placed, rest: seq<Placed>, k: nat, command: Option<Command>)
    requires k <= |rest|
    ensures CommandAfterFirst([first] + rest, k + 1, command) ==
            CommandAfterFirst(rest, k, CommandAfter(command, first.token))
  {
    if k > 0 {
      CommandAfterCons(first, rest, k - 1, command);
    }
  }

  lemma {:induction false} AsksForCons(args: seq<OsText>, first: Placed, rest: seq<Placed>,
                                       index: nat, command: Option<Command>, k: nat, out: seq<OsText>)
    requires k <= |rest| && !IsHelpToken(first.token)
    ensures AsksFor(args, [first] + rest, index, command, k + 1, out) <==>
            AsksFor(args, rest, first.start + first.width, CommandAfter(command, first.token), k, out)
  {
    var tokens := [first] + rest;
    CommandAfterCons(first, rest, k, command);
    assert PositionAfter(tokens, k + 1, index) == PositionAfter(rest, k, first.start + first.width);
    assert forall i | 1 <= i < k + 1 :: tokens[i] == rest[i - 1];
    assert forall i | 0 <= i < k :: rest[i] == tokens[i + 1];
  }

  lemma {:induction false} AsksFirst(args: seq<OsText>, first: Placed, rest: seq<Placed>,
                                     index: nat, command: Option<Command>, out: seq<OsText>)
    requires !IsHelpToken(first.token) && !AsksAfter(args, [first] + rest, index, command, 0)
    requires Asks(args, [first] + rest, index, command, out)
    ensures Asks(args, rest, first.start + first.width, CommandAfter(command, first.token), out)
  {
    var tokens := [first] + rest;
    var k :| 0 <= k <= |tokens| && AsksFor(args, tokens, index, command, k, out);
    AsksForCons(args, first, rest, index, command, k - 1, out);
  }

  lemma {:induction false} AsksCons(args: seq<OsText>, first: Placed, rest: seq<Placed>,
                                    index: nat, command: Option<Command>, out: seq<OsText>)
    requires !IsHelpToken(first.token) && !AsksAfter(args, [first] + rest, index, command, 0)
    ensures Asks(args, [first] + rest, index, command, out) <==>
            Asks(args, rest, first.start + first.width, CommandAfter(command, first.token), out)
  {
    var tokens, next, command' := [first] + rest, first.start + first.width, CommandAfter(command, first.token);
    if Asks(args, tokens, index, command, out) {
      AsksFirst(args, first, rest, index, command, out);
    } else if Asks(args, rest, next, command', out) {
      var k :| 0 <= k <= |rest| && AsksFor(args, rest, next, command', k, out);
      AsksForCons(args, first, rest, index, command, k, out);
    }
  }

  lemma AsksAfterNone(args: seq<OsText>, tokens: seq<Placed>, index: nat, command: Option<Command>)
    ensures AsksAfter(args, tokens, index, command, 0) <==>
            index < |args| && args[index].Text? && AsksHere(args[index].text, command)
  {
  }

  lemma AsksAtOnce(args: seq<OsText>, tokens: seq<Placed>, index: nat, command: Option<Command>, out: seq<OsText>)
    requires AsksAfter(args, tokens, index, command, 0)
    requires tokens != [] ==> IsHelpToken(tokens[0].token)
    ensures Asks(args, tokens, index, command, out) <==> out == AskedHere(args, index, command)
  {
    assert AskedAfter(args, tokens, index, command, 0) == AskedHere(args, index, command);
    if out == AskedHere(args, index, command) {
      assert AsksFor(args, tokens, index, command, 0, out);
    }
  }

  /** Where help is asked for, the scan returns it, and there is no token but a help flag. */
  lemma {:induction false} AskingIsAnswered(table: Table, args: seq<OsText>, index: nat, command: Option<Command>)
    requires ValidTable(table) && (command.Some? ==> command.value in table.commands)
    requires index < |args| && args[index].Text? && AsksHere(args[index].text, command)
    ensures var token := TokenAt(table, args, index, command); token.Some? ==> IsHelpToken(token.value.token)
    ensures HelpAt(table, args, index, command) == Answer(AskedHere(args, index, command))
  {
    NoSpecFor(table, command, args[index].text);
  }

  lemma {:induction false} OutputFlagHasSpec(table: Table, command: Option<Command>, arg: string)
    requires HasOutputFlags(table) && (arg == "--quiet" || arg == "--verbose")
    ensures var spec := OptionSpec(table, command, arg); spec.Some? && !spec.value.inlineValue
  {
    if arg == "--quiet" {
      PlainLongOption(arg, "quiet");
    } else {
      PlainLongOption(arg, "verbose");
    }
  }

  /** Where help is not asked for, the scan goes on past the token, or stops where there is none. */
  lemma {:induction false} NotAskingGoesOn(table: Table, args: seq<OsText>, index: nat, command: Option<Command>)
    requires HasOutputFlags(table)
    requires index < |args| && (args[index].Text? ==> !AsksHere(args[index].text, command))
    ensures var token := TokenAt(table, args, index, command);
            match token
            case None => HelpAt(table, args, index, command) == GiveUp
            case Some(first) =>
              && !IsHelpToken(first.token)
              && HelpAt(table, args, index, command) == GoOn(index + first.width, CommandAfter(command, first.token))
  {
    if args[index].Text? && (args[index].text == "--quiet" || args[index].text == "--verbose") {
      OutputFlagHasSpec(table, command, args[index].text);
    }
  }

  /** The tokens from `index` on are the first one and those after it. */
  lemma TokensFrom(table: Table, args: seq<OsText>, index: nat, command: Option<Command>)
    requires index < |args|
    ensures var token := TokenAt(table, args, index, command);
            Tokens(table, args, index, command) ==
            if token.None? then []
            else
              [token.value] + Tokens(table, args, index + token.value.width, CommandAfter(command, token.value.token))
  {
  }

  /** The scan's answer is `out` exactly when the tokens lead to it. */
  predicate Agrees(help: Option<seq<OsText>>, args: seq<OsText>, tokens: seq<Placed>, index: nat,
                   command: Option<Command>, out: seq<OsText>)
  {
    help == Some(out) <==> Asks(args, tokens, index, command, out)
  }

  lemma AgreesLater(help: Option<seq<OsText>>, args: seq<OsText>, first: Placed, rest: seq<Placed>, index: nat,
                    command: Option<Command>, out: seq<OsText>)
    requires index < |args| && args[index].Text? ==> !AsksHere(args[index].text, command)
    requires !IsHelpToken(first.token)
    requires Agrees(help, args, rest, first.start + first.width, CommandAfter(command, first.token), out)
    ensures Agrees(help, args, [first] + rest, index, command, out)
  {
    AsksAfterNone(args, [first] + rest, index, command);
    AsksCons(args, first, rest, index, command, out);
  }

  lemma AgreesAtEnd(args: seq<OsText>, index: nat, command: Option<Command>, out: seq<OsText>)
    requires index < |args| && args[index].Text? ==> !AsksHere(args[index].text, command)
    ensures Agrees(None, args, [], index, command, out)
  {
    AsksAfterNone(args, [], index, command);
  }

  lemma AgreesAtOnce(args: seq<OsText>, tokens: seq<Placed>, index: nat, command: Option<Command>, out: seq<OsText>)
    requires index < |args| && args[index].Text? && AsksHere(args[index].text, command)
    requires tokens != [] ==> IsHelpToken(tokens[0].token)
    ensures Agrees(Some(AskedHere(args, index, command)), args, tokens, index, command, out)
  {
    AsksAfterNone(args, tokens, index, command);
    AsksAtOnce(args, tokens, index, command, out);
  }

  lemma {:induction false} HelpAgreesHere(table: Table, args: seq<OsText>, index: nat, command: Option<Command>,
                                          out: seq<OsText>)
    requires ValidTable(table) && (command.Some? ==> command.value in table.commands)
    requires index < |args| && args[index].Text? && AsksHere(args[index].text, command)
    ensures Agrees(HelpFrom(table, args, index, command), args, Tokens(table, args, index, command),
                   index, command, out)
  {
    TokensFrom(table, args, index, command);
    AskingIsAnswered(table, args, index, command);
    AgreesAtOnce(args, Tokens(table, args, index, command), index, command, out);
  }

  lemma {:induction false} HelpAgreesAtStop(table: Table, args: seq<OsText>, index: nat, command: Option<Command>,
                                            out: seq<OsText>)
    requires HasOutputFlags(table)
    requires index < |args| && (args[index].Text? ==> !AsksHere(args[index].text, command))
    requires TokenAt(table, args, index, command).None?
    ensures Agrees(HelpFrom(table, args, index, command), args, Tokens(table, args, index, command),
                   index, command, out)
  {
    TokensFrom(table, args, index, command);
    NotAskingGoesOn(table, args, index, command);
    AgreesAtEnd(args, index, command, out);
  }

  /** The scan and the tokens go on from the same place. */
  lemma {:induction false} GoOnTogether(table: Table, args: seq<OsText>, index: nat, command: Option<Command>)
    returns (first: Placed, next: nat, command': Option<Command>)
    requires HasOutputFlags(table) && (command.Some? ==> command.value in table.commands)
    requires index < |args| && (args[index].Text? ==> !AsksHere(args[index].text, command))
    requires TokenAt(table, args, index, command).Some?
    ensures !IsHelpToken(first.token) && index < next <= |args|
    ensures next == first.start + first.width && command' == CommandAfter(command, first.token)
    ensures command'.Some? ==> command'.value in table.commands
    ensures HelpAt(table, args, index, command) == GoOn(next, command')
    ensures TokenAt(table, args, index, command) == Some(first) && first.start == index
  {
    first := TokenAt(table, args, index, command).value;
    next, command' := index + first.width, CommandAfter(command, first.token);
    NotAskingGoesOn(table, args, index, command);
    HelpTurnIsControl(table, args, index, command);
  }

  lemma {:induction false} HelpFromNext(table: Table, args: seq<OsText>, index: nat, command: Option<Command>,
                                        first: Placed, next: nat, command': Option<Command>)
    requires index < |args| && HelpAt(table, args, index, command) == GoOn(next, command')
    requires TokenAt(table, args, index, command) == Some(first)
    requires next == index + first.width && command' == CommandAfter(command, first.token)
    ensures HelpFrom(table, args, index, command) == HelpFrom(table, args, next, command')
    ensures Tokens(table, args, index, command) == [first] + Tokens(table, args, next, command')
  {
  }

  lemma {:induction false} HelpAgreesPast(table: Table, args: seq<OsText>, index: nat, command: Option<Command>,
                                          first: Placed, next: nat, command': Option<Command>, out: seq<OsText>)
    requires index < |args| && (args[index].Text? ==> !AsksHere(args[index].text, command))
    requires HelpAt(table, args, index, command) == GoOn(next, command')
    requires TokenAt(table, args, index, command) == Some(first) && !IsHelpToken(first.token)
    requires next == index + first.width && command' == CommandAfter(command, first.token)
    requires Agrees(HelpFrom(table, args, next, command'), args, Tokens(table, args, next, command'),
                    next, command', out)
    ensures Agrees(HelpFrom(table, args, index, command), args, Tokens(table, args, index, command),
                   index, command, out)
  {
    HelpFromNext(table, args, index, command, first, next, command');
    AgreesLater(HelpFrom(table, args, next, command'), args, first, Tokens(table, args, next, command'),
                index, command, out);
  }

  lemma {:induction false} HelpAgrees(table: Table, args: seq<OsText>, index: nat, command: Option<Command>,
                                      out: seq<OsText>)
    requires ValidTable(table) && HasOutputFlags(table) && (command.Some? ==> command.value in table.commands)
    requires args != []
    ensures Agrees(HelpFrom(table, args, index, command), args, Tokens(table, args, index, command),
                   index, command, out)
    decreases |args| - index
  {
    if index >= |args| {
      AgreesAtEnd(args, index, command, out);
    } else if args[index].Text? && AsksHere(args[index].text, command) {
      HelpAgreesHere(table, args, index, command, out);
    } else if TokenAt(table, args, index, command).None? {
      HelpAgreesAtStop(table, args, index, command, out);
    } else {
      var first, next, command' := GoOnTogether(table, args, index, command);
      HelpAgrees(table, args, next, command', out);
      HelpAgreesPast(table, args, index, command, first, next, command', out);
    }
  }

  /** A help or version request is found exactly when the tokens that a quiet request is read off lead to one. */
  lemma {:induction false} HelpRequestIsAskedByTokens(table: Table, args: seq<OsText>, out: seq<OsText>)
    requires ValidTable(table) && HasOutputFlags(table) && args != []
    ensures HelpRequest(table, args) == Some(out) <==> Asks(args, Tokens(table, args, 1, None), 1, None, out)
  {
    HelpAgrees(table, args, 1, None, out);
  }
}
