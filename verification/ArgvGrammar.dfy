/** What the tokens of a command line are, said without any scanning or look-up. */
module ArgvGrammar {
  import opened Common
  import opened Argv

  predicate FirstOptionAt(options: seq<Opt>, option: Opt, i: nat) {
    i < |options| && options[i] == option && forall j | 0 <= j < i :: options[j].long != option.long
  }

  /** The first of the options with its long name. */
  ghost predicate FirstOption(options: seq<Opt>, option: Opt) {
    exists i: nat :: FirstOptionAt(options, option, i)
  }

  predicate FirstCommandAt(commands: seq<Command>, command: Command, i: nat) {
    i < |commands| && commands[i] == command && forall j | 0 <= j < i :: commands[j].name != command.name
  }

  /** The first of the commands with its name. */
  ghost predicate FirstCommand(commands: seq<Command>, command: Command) {
    exists i: nat :: FirstCommandAt(commands, command, i)
  }

  /** A subcommand's own options hide the global ones of the same name. */
  ghost predicate Declares(table: Table, command: Option<Command>, option: Opt) {
    || (command.Some? && FirstOption(command.value.options, option))
    || ((command.Some? ==> forall o | o in command.value.options :: o.long != option.long)
        && FirstOption(table.options, option))
  }

  /** `--name`, or `--name=value` with an inline value. */
  predicate Names(arg: string, long: string, inline: bool) {
    && long != [] && '=' !in long
    && if inline then "--" + long + "=" <= arg else arg == "--" + long
  }

  ghost predicate IsOption(table: Table, command: Option<Command>, arg: string, option: Opt, inline: bool) {
    Declares(table, command, option) && Names(arg, option.long, inline)
  }

  lemma {:induction false} FirstOptionCons(options: seq<Opt>, option: Opt)
    requires options != [] && options[0].long != option.long
    ensures FirstOption(options, option) <==> FirstOption(options[1..], option)
  {
    var rest := options[1..];
    if FirstOption(rest, option) {
      var i: nat :| FirstOptionAt(rest, option, i);
      assert forall j | 1 <= j < i + 1 :: options[j] == rest[j - 1];
      assert FirstOptionAt(options, option, i + 1);
    }
    if FirstOption(options, option) {
      var i: nat :| FirstOptionAt(options, option, i);
      assert forall j | 0 <= j < i - 1 :: rest[j] == options[j + 1];
      assert FirstOptionAt(rest, option, i - 1);
    }
  }

  lemma {:induction false} FindOptionIs(options: seq<Opt>, option: Opt)
    ensures FindOption(options, option.long) == Some(option) <==> FirstOption(options, option)
    ensures FindOption(options, option.long).None? <==> forall o | o in options :: o.long != option.long
  {
    if options != [] {
      if options[0].long == option.long {
        assert options[0] == option ==> FirstOptionAt(options, option, 0);
      } else {
        FirstOptionCons(options, option);
        FindOptionIs(options[1..], option);
        assert options == [options[0]] + options[1..];
      }
    }
  }

  lemma {:induction false} FirstCommandCons(commands: seq<Command>, command: Command)
    requires commands != [] && commands[0].name != command.name
    ensures FirstCommand(commands, command) <==> FirstCommand(commands[1..], command)
  {
    var rest := commands[1..];
    if FirstCommand(rest, command) {
      var i: nat :| FirstCommandAt(rest, command, i);
      assert forall j | 1 <= j < i + 1 :: commands[j] == rest[j - 1];
      assert FirstCommandAt(commands, command, i + 1);
    }
    if FirstCommand(commands, command) {
      var i: nat :| FirstCommandAt(commands, command, i);
      assert forall j | 0 <= j < i - 1 :: rest[j] == commands[j + 1];
      assert FirstCommandAt(rest, command, i - 1);
    }
  }

  lemma {:induction false} FindCommandIs(commands: seq<Command>, command: Command)
    ensures FindCommand(commands, command.name) == Some(command) <==> FirstCommand(commands, command)
  {
    if commands != [] {
      if commands[0].name == command.name {
        assert commands[0] == command ==> FirstCommandAt(commands, command, 0);
      } else {
        FirstCommandCons(commands, command);
        FindCommandIs(commands[1..], command);
      }
    }
  }

  lemma {:induction false} FindEqualsIs(text: string, from: nat, at: nat)
    requires from <= at <= |text| && (at < |text| ==> text[at] == '=') && forall i | from <= i < at :: text[i] != '='
    ensures FindEquals(text, from) == at
    decreases at - from
  {
    if from < at {
      FindEqualsIs(text, from + 1, at);
    }
  }

  lemma {:induction false} FindEqualsFinds(text: string, from: nat)
    requires from <= |text|
    ensures var at := FindEquals(text, from);
            (at < |text| ==> text[at] == '=') && forall i | from <= i < at :: text[i] != '='
    decreases |text| - from
  {
    if from < |text| && text[from] != '=' {
      FindEqualsFinds(text, from + 1);
    }
  }

  lemma {:induction false} InlineLongOption(arg: string, name: string, value: string)
    requires name != [] && '=' !in name && arg == "--" + (name + "=" + value)
    ensures SplitLongOption(arg) == Some(LongOption(name, true))
  {
    var rest := name + "=" + value;
    assert arg[2..] == rest && rest[..|name|] == name && rest[|name|] == '=';
    assert forall i | 0 <= i < |name| :: rest[i] == name[i];
    FindEqualsIs(rest, 0, |name|);
  }

  lemma {:induction false} SplitIsNamed(arg: string, long: string, inline: bool)
    requires SplitLongOption(arg) == Some(LongOption(long, inline))
    ensures Names(arg, long, inline)
  {
    var rest := arg[2..];
    FindEqualsFinds(rest, 0);
    assert arg == "--" + rest;
    var at := FindEquals(rest);
    assert long == rest[..at];
    if inline {
      assert rest == long + "=" + rest[at + 1..];
      assert arg[..at + 3] == "--" + long + "=";
    } else {
      assert rest == long;
    }
  }

  /** An argument is split at its first `=`, if it has one, into the name and the inline value. */
  lemma {:induction false} SplitIs(arg: string, long: string, inline: bool)
    ensures SplitLongOption(arg) == Some(LongOption(long, inline)) <==> Names(arg, long, inline)
  {
    if SplitLongOption(arg) == Some(LongOption(long, inline)) {
      SplitIsNamed(arg, long, inline);
    } else if Names(arg, long, inline) {
      if inline {
        var value := arg[|long| + 3..];
        assert arg == "--" + long + "=" + value;
        InlineLongOption(arg, long, value);
      } else {
        PlainLongOption(arg, long);
      }
    }
  }

  /** The option an argument is taken for is the one it is written for, and there is one only if it is. */
  lemma {:induction false} OptionSpecIs(table: Table, command: Option<Command>, arg: string, option: Opt, inline: bool)
    ensures OptionSpec(table, command, arg) == Some(Spec(option, inline)) <==>
            IsOption(table, command, arg, option, inline)
  {
    SplitIs(arg, option.long, inline);
    FindOptionIs(table.options, option);
    if command.Some? {
      FindOptionIs(command.value.options, option);
    }
  }

  predicate IsFraction(text: string) {
    text == [] || (text[0] == '.' && AllDigits(text[1..]))
  }

  predicate IsPower(text: string) {
    text == [] || (|text| > 1 && (text[0] == 'e' || text[0] == 'E') && AllDigits(text[1..]))
  }

  ghost predicate IsNumber(text: string, whole: string, fraction: string, power: string) {
    && text == whole + fraction + power
    && whole != [] && AllDigits(whole) && IsFraction(fraction) && IsPower(power)
  }

  // Where the parts of a number meet: the dot at `d` unless the exponent mark at `e`, or the end, is there.
  predicate MeetAt(text: string, d: nat, e: nat) {
    && 0 < d <= e <= |text|
    && (forall i | 0 <= i < d :: IsDigit(text[i]))
    && (d < e ==> text[d] == '.') && (forall i | d < i < e :: IsDigit(text[i]))
    && (e < |text| ==> IsExponent(text[e]) && e + 1 < |text|) && (forall i | e < i < |text| :: IsDigit(text[i]))
  }

  lemma MeetOfNumberLike(text: string) returns (d: nat, e: nat)
    requires NumberLike(text) && text != []
    ensures MeetAt(text, d, e)
  {
    e := |text|;
    if i :| 0 <= i < |text| && IsExponent(text[i]) {
      e := i;
    }
    d := e;
    if i :| 0 <= i < e && text[i] == '.' {
      d := i;
    }
  }

  lemma NumberLikeOfMeet(text: string, d: nat, e: nat)
    requires MeetAt(text, d, e)
    ensures NumberLike(text)
  {
  }

  lemma {:induction false} PartsOfMeet(text: string, d: nat, e: nat)
    requires MeetAt(text, d, e)
    ensures IsNumber(text, text[..d], text[d..e], text[e..])
  {
    assert text == text[..d] + text[d..e] + text[e..];
  }

  lemma {:induction false} MeetOfParts(text: string, whole: string, fraction: string, power: string)
    requires IsNumber(text, whole, fraction, power)
    ensures MeetAt(text, |whole|, |whole| + |fraction|)
  {
    var d, e := |whole|, |whole| + |fraction|;
    forall i | 0 <= i < |text|
      ensures text[i] == if i < d then whole[i] else if i < e then fraction[i - d] else power[i - e]
    {
    }
    forall i | d < i < e
      ensures IsDigit(text[i])
    {
      assert text[i] == fraction[1..][i - d - 1];
    }
    forall i | e < i < |text|
      ensures IsDigit(text[i])
    {
      assert text[i] == power[1..][i - e - 1];
    }
  }

  /** What may follow a minus: nothing, or digits, then perhaps a dot and
      digits, then perhaps an exponent mark and at least one digit. */
  lemma {:induction false} NumberLikeIs(text: string)
    ensures NumberLike(text) <==> text == [] || exists whole, fraction, power :: IsNumber(text, whole, fraction, power)
  {
    if NumberLike(text) && text != [] {
      var d, e := MeetOfNumberLike(text);
      PartsOfMeet(text, d, e);
    }
    if exists whole, fraction, power :: IsNumber(text, whole, fraction, power) {
      var whole, fraction, power :| IsNumber(text, whole, fraction, power);
      MeetOfParts(text, whole, fraction, power);
      NumberLikeOfMeet(text, |whole|, |whole| + |fraction|);
    }
  }

  /** `option` can be followed by `value` as its separate value. */
  predicate Follows(value: OsText, option: Opt) {
    match value
    case NotUtf8(_) => true
    case Text(text) =>
      && text != "--"
      && (text == [] || text[0] != '-' || option.allowHyphen || (option.allowNegative && NumberLike(text[1..])))
  }

  lemma FollowsIs(value: OsText, option: Opt)
    ensures CanFollow(value, option) <==> Follows(value, option)
  {
  }

  ghost predicate IsPlainFlag(table: Table, command: Option<Command>, arg: string) {
    || arg == "--quiet" || arg == "--verbose"
    || exists option :: IsOption(table, command, arg, option, false)
  }

  ghost predicate TakesNoValue(table: Table, command: Option<Command>, arg: string) {
    forall option, inline | IsOption(table, command, arg, option, inline) :: !option.takesValue
  }

  /** The grammar: `width` arguments from `index` on are read as `token`. */
  ghost predicate Reads(table: Table, args: seq<OsText>, index: nat, command: Option<Command>, token: Token, width: nat)
    requires index < |args|
  {
    && args[index].Text?
    && var arg := args[index].text;
    match token
    case WithValue(option) =>
      && option.takesValue
      && (|| (width == 1 && IsOption(table, command, arg, option, true))
          || (&& width == 2 && IsOption(table, command, arg, option, false)
              && index + 1 < |args| && Follows(args[index + 1], option)))
    case Flag(text) =>
      && width == 1 && text == arg && TakesNoValue(table, command, arg)
      && (IsPlainFlag(table, command, arg)
          || (command.Some? && command.value.trailing && (arg == "-h" || arg == "--help")))
    case Subcommand(found) =>
      && width == 1 && found.name == arg && command.None? && FirstCommand(table.commands, found) && arg != "--"
      && TakesNoValue(table, command, arg) && !IsPlainFlag(table, command, arg)
  }

  /** What `OptionSpecIs` says of all options at once. */
  lemma {:induction false} SpecCases(table: Table, command: Option<Command>, arg: string)
    ensures match OptionSpec(table, command, arg)
            case None => forall option, inline :: !IsOption(table, command, arg, option, inline)
            case Some(Spec(o, i)) =>
              && IsOption(table, command, arg, o, i)
              && forall option, inline | IsOption(table, command, arg, option, inline) :: option == o && inline == i
  {
    forall option, inline
      ensures OptionSpec(table, command, arg) == Some(Spec(option, inline)) <==>
              IsOption(table, command, arg, option, inline)
    {
      OptionSpecIs(table, command, arg, option, inline);
    }
  }

  lemma {:induction false} CommandCases(commands: seq<Command>, name: string)
    ensures forall found: Command | found.name == name ::
              FindCommand(commands, name) == Some(found) <==> FirstCommand(commands, found)
  {
    forall found: Command | found.name == name
      ensures FindCommand(commands, name) == Some(found) <==> FirstCommand(commands, found)
    {
      FindCommandIs(commands, found);
    }
  }

  /** The scanner reads exactly the tokens of the grammar, and stops exactly where the grammar has none. */
  lemma {:induction false} TokenIsRead(table: Table, args: seq<OsText>, index: nat, command: Option<Command>,
                                       token: Token, width: nat)
    requires index < |args|
    ensures TokenAt(table, args, index, command) == Some(Placed(token, index, width)) <==>
            Reads(table, args, index, command, token, width)
  {
    if args[index].Text? {
      SpecCases(table, command, args[index].text);
      CommandCases(table.commands, args[index].text);
    }
  }

  /** The tokens of a command line from `index` on, up to where the grammar has none. */
  ghost predicate IsReading(table: Table, args: seq<OsText>, index: nat, command: Option<Command>, tokens: seq<Placed>)
    decreases |tokens|
  {
    if tokens == [] then
      index >= |args| || forall token, width :: !Reads(table, args, index, command, token, width)
    else
      var first := tokens[0];
      && index < |args| && first.start == index
      && Reads(table, args, index, command, first.token, first.width)
      && IsReading(table, args, index + first.width,
                   if first.token.Subcommand? then Some(first.token.command) else command, tokens[1..])
  }

  lemma {:induction false} FirstTokenIsRead(table: Table, args: seq<OsText>, index: nat, command: Option<Command>)
    requires index < |args|
    ensures match TokenAt(table, args, index, command)
            case None => forall token, width :: !Reads(table, args, index, command, token, width)
            case Some(first) =>
              && Reads(table, args, index, command, first.token, first.width)
              && forall token, width | Reads(table, args, index, command, token, width) ::
                   token == first.token && width == first.width
  {
    forall token, width
      ensures TokenAt(table, args, index, command) == Some(Placed(token, index, width)) <==>
              Reads(table, args, index, command, token, width)
    {
      TokenIsRead(table, args, index, command, token, width);
    }
  }

  lemma {:induction false} ReadingStep(table: Table, args: seq<OsText>, index: nat, command: Option<Command>,
                                       tokens: seq<Placed>)
    requires index < |args|
    ensures IsReading(table, args, index, command, tokens) <==>
            match TokenAt(table, args, index, command)
            case None => tokens == []
            case Some(first) =>
              && tokens != [] && tokens[0] == first
              && IsReading(table, args, index + first.width, CommandAfter(command, first.token), tokens[1..])
  {
    FirstTokenIsRead(table, args, index, command);
  }

  lemma {:induction false} ReadingGoesOn(table: Table, args: seq<OsText>, index: nat, command: Option<Command>,
                                         tokens: seq<Placed>, first: Placed, next: nat, command': Option<Command>)
    requires index < |args| && TokenAt(table, args, index, command) == Some(first) && tokens != []
    requires next == index + first.width && command' == CommandAfter(command, first.token)
    requires IsReading(table, args, next, command', tokens[1..]) <==>
             tokens[1..] == Tokens(table, args, next, command')
    ensures IsReading(table, args, index, command, tokens) <==> tokens == Tokens(table, args, index, command)
  {
    ReadingStep(table, args, index, command, tokens);
    TokensAre(table, args, index, command);
    ConsIs(tokens, first, Tokens(table, args, next, command'));
  }

  lemma {:induction false} ReadingEnds(table: Table, args: seq<OsText>, index: nat, command: Option<Command>,
                                       tokens: seq<Placed>)
    requires index >= |args| || tokens == [] || TokenAt(table, args, index, command).None?
    ensures IsReading(table, args, index, command, tokens) <==> tokens == Tokens(table, args, index, command)
  {
    if index < |args| {
      ReadingStep(table, args, index, command, tokens);
      TokensAre(table, args, index, command);
    }
  }

  /** The scanner's tokens are the one reading of the command line. */
  lemma {:induction false} ReadingIsTokens(table: Table, args: seq<OsText>, index: nat, command: Option<Command>,
                                           tokens: seq<Placed>)
    ensures IsReading(table, args, index, command, tokens) <==> tokens == Tokens(table, args, index, command)
    decreases |tokens|
  {
    if index >= |args| || tokens == [] || TokenAt(table, args, index, command).None? {
      ReadingEnds(table, args, index, command, tokens);
    } else {
      var first := TokenAt(table, args, index, command).value;
      var next, command' := index + first.width, CommandAfter(command, first.token);
      ReadingIsTokens(table, args, next, command', tokens[1..]);
      ReadingGoesOn(table, args, index, command, tokens, first, next, command');
    }
  }

  lemma ConsIs<T>(all: seq<T>, first: T, rest: seq<T>)
    requires all != []
    ensures all == [first] + rest <==> all[0] == first && all[1..] == rest
  {
    assert all == [all[0]] + all[1..];
  }

  /** `--quiet` is asked for exactly when it is a flag in the reading of the command line, and `--verbose` is not. */
  lemma {:induction false} QuietIsReadOff(table: Table, args: seq<OsText>)
    ensures AsksForQuiet(table, args) <==>
            exists tokens: seq<Placed> ::
              && IsReading(table, args, 1, None, tokens)
              && (exists i | 0 <= i < |tokens| :: tokens[i].token == Flag("--quiet"))
              && forall i | 0 <= i < |tokens| :: tokens[i].token != Flag("--verbose")
  {
    ReadingIsTokens(table, args, 1, None, Tokens(table, args, 1, None));
    forall tokens | IsReading(table, args, 1, None, tokens)
      ensures tokens == Tokens(table, args, 1, None)
    {
      ReadingIsTokens(table, args, 1, None, tokens);
    }
  }

  lemma {:induction false} CommandIsRead(table: Table, args: seq<OsText>, found: Command)
    requires |args| > 1 && args[1] == Text(found.name) && FirstCommand(table.commands, found)
    requires found.name != [] && found.name[0] != '-'
    ensures TokenAt(table, args, 1, None) == Some(Placed(Subcommand(found), 1, 1))
  {
    TokenIsRead(table, args, 1, None, Subcommand(found), 1);
  }

  lemma {:induction false} QuietBehindOption(table: Table, args: seq<OsText>, found: Command, option: Opt, width: nat)
    requires |args| == 3 + width && TokenAt(table, args, 1, None) == Some(Placed(Subcommand(found), 1, 1))
    requires TokenAt(table, args, 2, Some(found)) == Some(Placed(WithValue(option), 2, width))
    requires TokenAt(table, args, 2 + width, Some(found)) == Some(Placed(Flag("--quiet"), 2 + width, 1))
    ensures AsksForQuiet(table, args)
  {
    RequestFrom(table, args, 1, None);
    RequestFrom(table, args, 2, Some(found));
    RequestFrom(table, args, 2 + width, Some(found));
    assert RequestOf(Tokens(table, args, 3 + width, Some(found))) == OutputRequest(false, false);
    assert RequestOf(Tokens(table, args, 1, None)) == OutputRequest(true, false);
  }

  lemma {:induction false} StopsAtOption(table: Table, args: seq<OsText>, found: Command)
    requires |args| > 2 && TokenAt(table, args, 1, None) == Some(Placed(Subcommand(found), 1, 1))
    requires TokenAt(table, args, 2, Some(found)) == None
    ensures !AsksForQuiet(table, args)
  {
    TokensAre(table, args, 1, None);
    TokensAre(table, args, 2, Some(found));
    assert Tokens(table, args, 1, None) == [Placed(Subcommand(found), 1, 1)];
  }

  lemma {:induction false} QuietIsRead(table: Table, args: seq<OsText>, index: nat, command: Option<Command>)
    requires index < |args| && args[index] == Text("--quiet") && TakesNoValue(table, command, "--quiet")
    ensures TokenAt(table, args, index, command) == Some(Placed(Flag("--quiet"), index, 1))
  {
    TokenIsRead(table, args, index, command, Flag("--quiet"), 1);
  }

  lemma {:induction false} OptionIsRead(table: Table, args: seq<OsText>, index: nat, command: Option<Command>,
                                        option: Opt)
    requires index + 1 < |args| && Declares(table, command, option) && option.takesValue
    requires option.long != [] && '=' !in option.long && args[index] == Text("--" + option.long)
    ensures TokenAt(table, args, index, command) ==
            if Follows(args[index + 1], option) then Some(Placed(WithValue(option), index, 2)) else None
  {
    var arg := args[index].text;
    assert Names(arg, option.long, false);
    OptionSpecIs(table, command, arg, option, false);
    FollowsIs(args[index + 1], option);
    assert arg != "--" by {
      assert |arg| > 2;
    }
  }

  /** An option of a subcommand, or a global one that it does not hide, is passed over with
      its value, and what follows is read as a flag exactly when the value can follow. */
  lemma {:induction false} OptionIsPassedOver(table: Table, program: OsText, found: Command, option: Opt, value: OsText)
    requires FirstCommand(table.commands, found) && found.name != [] && found.name[0] != '-'
    requires Declares(table, Some(found), option) && option.takesValue && option.long != [] && '=' !in option.long
    requires TakesNoValue(table, Some(found), "--quiet")
    ensures AsksForQuiet(table, [program, Text(found.name), Text("--" + option.long), value, Text("--quiet")])
            <==> Follows(value, option)
  {
    var args := [program, Text(found.name), Text("--" + option.long), value, Text("--quiet")];
    CommandIsRead(table, args, found);
    OptionIsRead(table, args, 2, Some(found), option);
    if Follows(value, option) {
      QuietIsRead(table, args, 4, Some(found));
      QuietBehindOption(table, args, found, option, 2);
    } else {
      StopsAtOption(table, args, found);
    }
  }

  lemma {:induction false} InlineOptionIsPassedOver(table: Table, program: OsText, found: Command,
                                                    option: Opt, value: string)
    requires FirstCommand(table.commands, found) && found.name != [] && found.name[0] != '-'
    requires Declares(table, Some(found), option) && option.takesValue && option.long != [] && '=' !in option.long
    requires TakesNoValue(table, Some(found), "--quiet")
    ensures AsksForQuiet(table, [program, Text(found.name), Text("--" + option.long + "=" + value), Text("--quiet")])
  {
    var args := [program, Text(found.name), Text("--" + option.long + "=" + value), Text("--quiet")];
    CommandIsRead(table, args, found);
    TokenIsRead(table, args, 2, Some(found), WithValue(option), 1);
    QuietIsRead(table, args, 3, Some(found));
    QuietBehindOption(table, args, found, option, 1);
  }

  lemma {:induction false} TokensAre(table: Table, args: seq<OsText>, index: nat, command: Option<Command>)
    requires index < |args|
    ensures Tokens(table, args, index, command) ==
            match TokenAt(table, args, index, command)
            case None => []
            case Some(first) =>
              [first] + Tokens(table, args, index + first.width, CommandAfter(command, first.token))
  {
  }
}
