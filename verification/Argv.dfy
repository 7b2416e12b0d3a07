/** The pre-scanner of the command line: it looks for help, version and quiet requests
    before the arguments are expanded and parsed. */
module Argv {
  import opened Common

  // ------------------------------------------------------------ command table

  datatype Opt = Opt(long: string, takesValue: bool, allowHyphen: bool, allowNegative: bool)

  datatype Command = Command(name: string, options: seq<Opt>, trailing: bool)

  datatype Table = Table(options: seq<Opt>, commands: seq<Command>)

  function FindOption(options: seq<Opt>, long: string): (r: Option<Opt>)
    ensures r.Some? ==> r.value in options && r.value.long == long
  {
    if options == [] then None
    else if options[0].long == long then Some(options[0])
    else FindOption(options[1..], long)
  }

  function FindCommand(commands: seq<Command>, name: string): (r: Option<Command>)
    ensures r.Some? ==> r.value in commands && r.value.name == name
  {
    if commands == [] then None
    else if commands[0].name == name then Some(commands[0])
    else FindCommand(commands[1..], name)
  }

  predicate IsHelp(arg: string) { arg == "-h" || arg == "--help" }

  predicate IsVersion(arg: string) { arg == "-V" || arg == "--version" }

  /** Command names are not `help` and do not look like options, and `--help` and `--version` take no value. */
  predicate ValidTable(table: Table) {
    && (forall o | o in table.options :: o.long != "help" && o.long != "version")
    && (forall command | command in table.commands ::
          && command.name != [] && command.name[0] != '-' && command.name != "help"
          && forall o | o in command.options :: o.long != "help" && o.long != "version")
  }

  // ------------------------------------------------------------------ options

  predicate StartsWith(text: string, prefix: string) { prefix <= text }

  function FindEquals(text: string, from: nat := 0): (at: nat)
    requires from <= |text|
    ensures from <= at <= |text|
    decreases |text| - from
  {
    if from == |text| || text[from] == '=' then from else FindEquals(text, from + 1)
  }

  datatype LongOption = LongOption(name: string, inlineValue: bool)

  function SplitLongOption(arg: string): Option<LongOption> {
    if !StartsWith(arg, "--") then None
    else
      var rest := arg[2..];
      var at := FindEquals(rest);
      if at == 0 then None else Some(LongOption(rest[..at], at < |rest|))
  }

  datatype Spec = Spec(option: Opt, inlineValue: bool)

  /** The option an argument names: the command's own options come before the global ones. */
  function OptionSpec(table: Table, command: Option<Command>, arg: string): Option<Spec> {
    match SplitLongOption(arg)
    case None => None
    case Some(long) =>
      var own := if command.Some? then FindOption(command.value.options, long.name) else None;
      match if own.Some? then own else FindOption(table.options, long.name)
      case Some(option) => Some(Spec(option, long.inlineValue))
      case None => None
  }

  predicate IsExponent(c: char) { c == 'e' || c == 'E' }

  /** Digits with at most one dot, then at most one exponent mark that is not the end;
      it starts with a digit, or is empty. */
  predicate NumberLike(text: string) {
    text == [] || (
      && IsDigit(text[0])
      && !IsExponent(text[|text| - 1])
      && (forall i | 0 <= i < |text| :: IsDigit(text[i]) || text[i] == '.' || IsExponent(text[i]))
      && (forall i, j | 0 <= i < j < |text| :: IsExponent(text[i]) ==> IsDigit(text[j]))
      && (forall i, j | 0 <= i < j < |text| :: text[i] == '.' ==> text[j] != '.')
    )
  }

  method IsNegativeNumberLike(value: string) returns (r: bool)
    ensures r <==> StartsWith(value, "-") && NumberLike(value[1..])
  {
    if !StartsWith(value, "-") {
      return false;
    }
    var number := value[1..];
    var seenDot := false;
    var exponent := None;
    var i := 0;
    while i < |number|
      invariant 0 <= i <= |number|
      invariant i > 0 ==> IsDigit(number[0])
      invariant forall j | 0 <= j < i :: IsDigit(number[j]) || number[j] == '.' || IsExponent(number[j])
      invariant seenDot <==> exists j | 0 <= j < i :: number[j] == '.'
      invariant exponent.Some? ==> 0 < exponent.value < i && IsExponent(number[exponent.value])
      invariant exponent.Some? ==> forall j | exponent.value < j < i :: IsDigit(number[j])
      invariant forall j | 0 <= j < i :: IsExponent(number[j]) ==> exponent == Some(j)
      invariant forall j, k | 0 <= j < k < i :: number[j] == '.' ==> number[k] != '.'
    {
      var byte := number[i];
      if IsDigit(byte) {
      } else if byte == '.' && !seenDot && exponent.None? && i > 0 {
        seenDot := true;
      } else if IsExponent(byte) && exponent.None? && i > 0 {
        exponent := Some(i);
      } else {
        return false;
      }
      i := i + 1;
    }
    r := exponent.None? || exponent.value != |number| - 1;
  }

  /** Whether an argument is taken as the separate value of an option. */
  predicate CanFollow(value: OsText, option: Opt) {
    match value
    case NotUtf8(_) => true
    case Text(text) =>
      && text != "--"
      && (|| !StartsWith(text, "-")
          || option.allowHyphen
          || (option.allowNegative && NumberLike(text[1..])))
  }

  method ValueCanFollowOption(value: OsText, option: Opt) returns (r: bool)
    ensures r <==> CanFollow(value, option)
  {
    match value {
      case NotUtf8(_) => r := true;
      case Text(text) =>
        if text == "--" {
          return false;
        }
        var negative := IsNegativeNumberLike(text);
        r := !StartsWith(text, "-") || option.allowHyphen || (option.allowNegative && negative);
    }
  }

  // ------------------------------------------------------------------- tokens

  datatype Token =
    | WithValue(option: Opt)
    | Flag(text: string)
    | Subcommand(command: Command)

  /** A token and the arguments it is made of: `width` of them from `start`. */
  datatype Placed = Placed(token: Token, start: nat, width: nat)

  /** The option with value that starts at `index`, if its value is there. */
  function ValueToken(args: seq<OsText>, index: nat, spec: Spec): Option<Placed> {
    if spec.inlineValue then Some(Placed(WithValue(spec.option), index, 1))
    else if index + 1 < |args| && CanFollow(args[index + 1], spec.option)
    then Some(Placed(WithValue(spec.option), index, 2))
    else None
  }

  /** The token that starts at `index`, or none where reading stops. */
  function TokenAt(table: Table, args: seq<OsText>, index: nat, command: Option<Command>): (r: Option<Placed>)
    requires index < |args|
    ensures r.Some? ==> r.value.start == index && 1 <= r.value.width <= 2 && index + r.value.width <= |args|
    ensures r.Some? && r.value.token.Flag? ==> args[index] == Text(r.value.token.text)
    ensures r.Some? && r.value.token.Subcommand? ==> command.None?
  {
    if args[index].NotUtf8? || args[index].text == "--" then None
    else
      var arg := args[index].text;
      var spec := OptionSpec(table, command, arg);
      if spec.Some? && spec.value.option.takesValue then ValueToken(args, index, spec.value)
      else if arg == "--quiet" || arg == "--verbose" || (spec.Some? && !spec.value.inlineValue)
      then Some(Placed(Flag(arg), index, 1))
      else if command.None? && FindCommand(table.commands, arg).Some?
      then Some(Placed(Subcommand(FindCommand(table.commands, arg).value), index, 1))
      else if command.Some? && command.value.trailing && IsHelp(arg) then Some(Placed(Flag(arg), index, 1))
      else None
  }

  function CommandAfter(command: Option<Command>, token: Token): Option<Command> {
    if token.Subcommand? then Some(token.command) else command
  }

  /** All tokens from `index` on, up to where reading stops. */
  function Tokens(table: Table, args: seq<OsText>, index: nat, command: Option<Command>): seq<Placed>
    decreases |args| - index
  {
    if index >= |args| || TokenAt(table, args, index, command).None? then []
    else
      var next := TokenAt(table, args, index, command).value;
      [next] + Tokens(table, args, index + next.width, CommandAfter(command, next.token))
  }

  predicate HasFlag(tokens: seq<Placed>, text: string) {
    exists i | 0 <= i < |tokens| :: tokens[i].token == Flag(text)
  }

  /** `--quiet` is given as a flag, and `--verbose` is not. */
  predicate AsksForQuiet(table: Table, args: seq<OsText>) {
    var tokens := Tokens(table, args, 1, None);
    HasFlag(tokens, "--quiet") && !HasFlag(tokens, "--verbose")
  }

  // ------------------------------------------------------------- help request

  function ControlArgs(program: OsText, command: Option<Command>, flag: string): seq<OsText> {
    [program] + (if command.Some? then [Text(command.value.name)] else []) + [Text(flag)]
  }

  function HelpSubcommandArgs(program: OsText, rest: seq<OsText>): seq<OsText> {
    if rest == [] then [program, Text("help")]
    else if rest[0].Text? && IsHelp(rest[0].text) then [program, Text("help"), Text("help")]
    else [program, Text("help"), rest[0]]
  }

  datatype HelpTurn = Answer(out: seq<OsText>) | GoOn(next: nat, command: Option<Command>) | GiveUp

  /** What the argument at `index` means for a help or version request. */
  function HelpAt(table: Table, args: seq<OsText>, index: nat, command: Option<Command>): (turn: HelpTurn)
    requires index < |args|
    ensures turn.GoOn? ==> index < turn.next <= |args|
  {
    if args[index].NotUtf8? || args[index].text == "--" then GiveUp
    else
      var arg := args[index].text;
      var spec := OptionSpec(table, command, arg);
      if spec.Some? && spec.value.option.takesValue then
        match ValueToken(args, index, spec.value)
        case None => GiveUp
        case Some(token) => GoOn(index + token.width, command)
      else if IsHelp(arg) then Answer(ControlArgs(args[0], command, arg))
      else if command.None? && IsVersion(arg) then Answer(ControlArgs(args[0], None, arg))
      else if command.None? && arg == "help" then Answer(HelpSubcommandArgs(args[0], args[index + 1..]))
      else if spec.Some? && !spec.value.inlineValue then GoOn(index + 1, command)
      else if command.None? && FindCommand(table.commands, arg).Some?
      then GoOn(index + 1, FindCommand(table.commands, arg))
      else GiveUp
  }

  /** The control command line that is asked for from `index` on, if any. */
  function HelpFrom(table: Table, args: seq<OsText>, index: nat, command: Option<Command>): Option<seq<OsText>>
    decreases |args| - index
  {
    if index >= |args| then None
    else
      match HelpAt(table, args, index, command)
      case Answer(out) => Some(out)
      case GoOn(next, command') => HelpFrom(table, args, next, command')
      case GiveUp => None
  }

  function HelpRequest(table: Table, args: seq<OsText>): Option<seq<OsText>> {
    if args == [] then None else HelpFrom(table, args, 1, None)
  }

  // ------------------------------------------------------------------ scanner

  datatype Skip = Consumed | NotOptionValue | NoValue

  class Scanner {
    const table: Table
    const args: seq<OsText>
    var command: Option<Command>
    var index: nat

    constructor (table: Table, args: seq<OsText>)
      ensures this.table == table && this.args == args && command == None && index == 1
    {
      this.table, this.args, command, index := table, args, None, 1;
    }

    method NextIndexAfterOptionValue(spec: Spec) returns (next: Option<nat>)
      requires index < |args|
      ensures next == match ValueToken(args, index, spec)
                      case Some(token) => Some(index + token.width)
                      case None => None
    {
      if spec.inlineValue {
        return Some(index + 1);
      }
      if index + 1 >= |args| {
        return None;
      }
      var canFollow := ValueCanFollowOption(args[index + 1], spec.option);
      next := if canFollow then Some(index + 2) else None;
    }

    method SkipOptionValue(arg: string) returns (skip: Skip)
      requires index < |args|
      modifies this`index
      ensures var spec := OptionSpec(table, command, arg);
              if spec.Some? && spec.value.option.takesValue then
                var token := ValueToken(args, old(index), spec.value);
                if token.Some? then skip == Consumed && index == old(index) + token.value.width
                else skip == NoValue && index == old(index)
              else skip == NotOptionValue && index == old(index)
    {
      var spec := OptionSpec(table, command, arg);
      if spec.None? || !spec.value.option.takesValue {
        return NotOptionValue;
      }
      var next := NextIndexAfterOptionValue(spec.value);
      if next.None? {
        return NoValue;
      }
      index := next.value;
      return Consumed;
    }

    method ConsumeFlag(arg: string) returns (consumed: bool)
      modifies this`index
      ensures var spec := OptionSpec(table, command, arg);
              consumed <==> spec.Some? && !spec.value.option.takesValue && !spec.value.inlineValue
      ensures index == old(index) + if consumed then 1 else 0
    {
      var spec := OptionSpec(table, command, arg);
      if spec.None? || spec.value.option.takesValue || spec.value.inlineValue {
        return false;
      }
      index := index + 1;
      return true;
    }

    /** A turn of the loop before any command with trailing arguments. */
    method TakeHelpTurn() returns (turn: HelpTurn)
      requires index < |args|
      modifies this
      ensures turn == HelpAt(table, args, old(index), old(command))
      ensures turn.GoOn? ==> index == turn.next && command == turn.command
    {
      if args[index] == Text("--") || args[index].NotUtf8? {
        return GiveUp;
      }
      var arg := args[index].text;
      var skip := SkipOptionValue(arg);
      if skip == NoValue {
        return GiveUp;
      }
      if skip == Consumed {
        return GoOn(index, command);
      }
      if IsHelp(arg) {
        return Answer(ControlArgs(args[0], command, arg));
      }
      if command.None? && IsVersion(arg) {
        return Answer(ControlArgs(args[0], None, arg));
      }
      if command.None? && arg == "help" {
        return Answer(HelpSubcommandArgs(args[0], args[index + 1..]));
      }
      var consumed := ConsumeFlag(arg);
      if consumed {
        return GoOn(index, command);
      }
      var found := FindCommand(table.commands, arg);
      if command.None? && found.Some? {
        command := found;
        index := index + 1;
        return GoOn(index, command);
      }
      return GiveUp;
    }

    /** A turn of the loop after a command with trailing arguments. */
    method TakeTrailingHelpTurn() returns (turn: HelpTurn)
      requires index < |args| && command.Some?
      modifies this`index
      ensures turn == HelpAt(table, args, old(index), command)
      ensures turn.GoOn? ==> index == turn.next && command == turn.command
    {
      if args[index] == Text("--") || args[index].NotUtf8? {
        return GiveUp;
      }
      var arg := args[index].text;
      var skip := SkipOptionValue(arg);
      if skip == NoValue {
        return GiveUp;
      }
      if skip == Consumed {
        return GoOn(index, command);
      }
      if IsHelp(arg) {
        return Answer(ControlArgs(args[0], command, arg));
      }
      var consumed := ConsumeFlag(arg);
      return if consumed then GoOn(index, command) else GiveUp;
    }

    method HelpOrVersionArgs() returns (r: Option<seq<OsText>>)
      requires command.None? && index == 1 && args != []
      modifies this
      ensures r == HelpRequest(table, args)
    {
      while index < |args|
        invariant HelpFrom(table, args, index, command) == HelpRequest(table, args)
        decreases |args| - index
      {
        var turn := TakeHelpTurn();
        match turn {
          case Answer(out) => return Some(out);
          case GiveUp => return None;
          case GoOn(_, _) =>
            if command.Some? && command.value.trailing {
              r := TrailingHelpOrVersionArgs();
              return r;
            }
        }
      }
      return None;
    }

    method TrailingHelpOrVersionArgs() returns (r: Option<seq<OsText>>)
      requires command.Some?
      modifies this
      ensures r == HelpFrom(table, args, old(index), old(command))
    {
      while index < |args|
        invariant command == old(command)
        invariant HelpFrom(table, args, index, command) == HelpFrom(table, args, old(index), old(command))
        decreases |args| - index
      {
        var turn := TakeTrailingHelpTurn();
        match turn {
          case Answer(out) => return Some(out);
          case GiveUp => return None;
          case GoOn(_, _) =>
        }
      }
      return None;
    }

    /** The part of a turn both quiet loops share: an option with its value, or a flag. */
    method TakeOptionOrFlag(arg: string, before: OutputRequest) returns (output: OutputRequest, taken: Taken)
      requires index < |args| && args[index] == Text(arg) && arg != "--"
      modifies this`index
      ensures var token := TokenAt(table, args, old(index), command);
              match taken
              case Took =>
                && token.Some? && !token.value.token.Subcommand? && index == old(index) + token.value.width
                && output == before.ObserveToken(token)
              case ValueMissing => token.None? && output == before && index == old(index)
              case NothingTaken =>
                && output == before && index == old(index) && arg != "--quiet" && arg != "--verbose"
                && (command.Some? ==>
                      token == if command.value.trailing && IsHelp(arg) then Some(Placed(Flag(arg), index, 1))
                               else None)
                && (command.None? ==> token == match FindCommand(table.commands, arg)
                                               case Some(found) => Some(Placed(Subcommand(found), index, 1))
                                               case None => None)
    {
      output := before;
      var skip := SkipOptionValue(arg);
      if skip == NoValue {
        return output, ValueMissing;
      }
      if skip == Consumed {
        return output, Took;
      }
      if arg == "--quiet" || arg == "--verbose" {
        index := index + 1;
        return output.Observe(arg), Took;
      }
      var consumed := ConsumeFlag(arg);
      taken := if consumed then Took else NothingTaken;
    }

    /** Reading goes on past the token at the old position, or stops where there is none. */
    twostate predicate Turned(before: OutputRequest, output: OutputRequest, more: bool)
      requires old(index) < |args|
      reads this
    {
      var token := TokenAt(table, args, old(index), old(command));
      && (more <==> token.Some?)
      && (more ==> index == old(index) + token.value.width && command == CommandAfter(old(command), token.value.token))
      && output == before.ObserveToken(token)
    }

    /** A turn before any command with trailing arguments. */
    method Turn(before: OutputRequest) returns (output: OutputRequest, more: bool)
      requires index < |args| && (command.Some? ==> !command.value.trailing)
      modifies this
      ensures Turned(before, output, more)
    {
      if args[index] == Text("--") || args[index].NotUtf8? {
        return before, false;
      }
      var arg := args[index].text;
      var taken;
      output, taken := TakeOptionOrFlag(arg, before);
      if taken != NothingTaken {
        return output, taken == Took;
      }
      var found := FindCommand(table.commands, arg);
      if command.None? && found.Some? {
        command := found;
        index := index + 1;
        return output, true;
      }
      return output, false;
    }

    /** A turn after a command with trailing arguments: help flags are passed over. */
    method TrailingTurn(before: OutputRequest) returns (output: OutputRequest, more: bool)
      requires index < |args| && command.Some? && command.value.trailing
      modifies this`index
      ensures Turned(before, output, more)
    {
      if args[index] == Text("--") || args[index].NotUtf8? {
        return before, false;
      }
      var arg := args[index].text;
      var taken;
      output, taken := TakeOptionOrFlag(arg, before);
      if taken != NothingTaken {
        return output, taken == Took;
      }
      if IsHelp(arg) {
        index := index + 1;
        return output, true;
      }
      return output, false;
    }

    /** A turn carries the answer on, or settles it. */
    method TurnForAnswer(before: OutputRequest, ghost answer: bool) returns (output: OutputRequest, more: bool)
      requires index < |args| && (command.Some? ==> !command.value.trailing)
      requires AnswerIs(table, args, index, command, before, answer)
      modifies this
      ensures more ==> index > old(index) && AnswerIs(table, args, index, command, output, answer)
      ensures !more ==> output.Quiet() == answer
    {
      ghost var from, context := index, command;
      output, more := Turn(before);
      AnswerStep(table, args, from, context, before, answer, index, command, output);
    }

    method TrailingTurnForAnswer(before: OutputRequest, ghost answer: bool) returns (output: OutputRequest, more: bool)
      requires index < |args| && command.Some? && command.value.trailing
      requires AnswerIs(table, args, index, command, before, answer)
      modifies this`index
      ensures more ==> index > old(index) && AnswerIs(table, args, index, command, output, answer)
      ensures !more ==> output.Quiet() == answer
    {
      ghost var from := index;
      output, more := TrailingTurn(before);
      AnswerStep(table, args, from, command, before, answer, index, command, output);
    }

    method RequestsQuiet() returns (quiet: bool)
      requires command.None? && index == 1
      modifies this
      ensures quiet <==> AsksForQuiet(table, args)
    {
      ghost var answer := AsksForQuiet(table, args);
      var output := OutputRequest(false, false);
      AnswerAtStart(table, args);
      var more := true;
      while index < |args| && more && !(command.Some? && command.value.trailing)
        invariant more ==> AnswerIs(table, args, index, command, output, answer)
        invariant !more ==> output.Quiet() == answer
        decreases more, |args| - index
      {
        output, more := TurnForAnswer(output, answer);
      }
      if more && command.Some? && command.value.trailing {
        quiet := TrailingRequestsQuiet(output, answer);
        return quiet;
      }
      if more {
        AnswerAtEnd(table, args, index, command, output, answer);
      }
      return output.Quiet();
    }

    method TrailingRequestsQuiet(before: OutputRequest, ghost answer: bool) returns (quiet: bool)
      requires command.Some? && command.value.trailing
      requires AnswerIs(table, args, index, command, before, answer)
      modifies this
      ensures quiet <==> answer
    {
      var output := before;
      while index < |args|
        invariant command.Some? && command.value.trailing
        invariant AnswerIs(table, args, index, command, output, answer)
        decreases |args| - index
      {
        var more;
        output, more := TrailingTurnForAnswer(output, answer);
        if !more {
          return output.Quiet();
        }
      }
      AnswerAtEnd(table, args, index, command, output, answer);
      return output.Quiet();
    }
  }

  datatype Taken = Took | ValueMissing | NothingTaken

  datatype OutputRequest = OutputRequest(quiet: bool, verbose: bool) {
    function Observe(arg: string): OutputRequest {
      if arg == "--quiet" then this.(quiet := true) else if arg == "--verbose" then this.(verbose := true) else this
    }

    function ObserveToken(token: Option<Placed>): OutputRequest {
      if token.Some? && token.value.token.Flag? then Observe(token.value.token.text) else this
    }

    function Merge(other: OutputRequest): OutputRequest {
      OutputRequest(quiet || other.quiet, verbose || other.verbose)
    }

    predicate Quiet() { quiet && !verbose }
  }

  function RequestOf(tokens: seq<Placed>): OutputRequest {
    OutputRequest(HasFlag(tokens, "--quiet"), HasFlag(tokens, "--verbose"))
  }

  lemma HasFlagCons(first: Placed, rest: seq<Placed>, text: string)
    ensures HasFlag([first] + rest, text) <==> first.token == Flag(text) || HasFlag(rest, text)
  {
    var all := [first] + rest;
    if first.token == Flag(text) {
      assert all[0].token == Flag(text);
    }
    if HasFlag(rest, text) {
      var i :| 0 <= i < |rest| && rest[i].token == Flag(text);
      assert all[i + 1].token == Flag(text);
    }
  }

  /** What is asked for from `index` on, by the token that starts there. */
  lemma {:induction false} RequestFrom(table: Table, args: seq<OsText>, index: nat, command: Option<Command>)
    requires index < |args|
    ensures var token := TokenAt(table, args, index, command);
            RequestOf(Tokens(table, args, index, command)) ==
            if token.None? then OutputRequest(false, false)
            else
              var next, command' := index + token.value.width, CommandAfter(command, token.value.token);
              var rest := RequestOf(Tokens(table, args, next, command'));
              rest.ObserveToken(token)
  {
    var token := TokenAt(table, args, index, command);
    if token.Some? {
      var rest := Tokens(table, args, index + token.value.width, CommandAfter(command, token.value.token));
      assert Tokens(table, args, index, command) == [token.value] + rest;
      HasFlagCons(token.value, rest, "--quiet");
      HasFlagCons(token.value, rest, "--verbose");
    } else {
      assert Tokens(table, args, index, command) == [];
    }
  }

  /** The flags seen before `index` and the tokens from there on give the answer. */
  predicate AnswerIs(table: Table, args: seq<OsText>, index: nat, command: Option<Command>,
                     output: OutputRequest, answer: bool)
  {
    answer <==> output.Merge(RequestOf(Tokens(table, args, index, command))).Quiet()
  }

  /** The token at `index` carries the answer on to the next position, or settles it. */
  lemma {:induction false} AnswerStep(table: Table, args: seq<OsText>, index: nat, command: Option<Command>,
                                      output: OutputRequest, answer: bool,
                                      next: nat, command': Option<Command>, output': OutputRequest)
    requires index < |args| && AnswerIs(table, args, index, command, output, answer)
    requires var token := TokenAt(table, args, index, command);
             && (token.Some? ==> next == index + token.value.width)
             && (token.Some? ==> command' == CommandAfter(command, token.value.token))
             && output' == output.ObserveToken(token)
    ensures if TokenAt(table, args, index, command).None? then answer == output'.Quiet()
            else AnswerIs(table, args, next, command', output', answer)
  {
    RequestFrom(table, args, index, command);
  }

  lemma AnswerAtStart(table: Table, args: seq<OsText>)
    ensures AnswerIs(table, args, 1, None, OutputRequest(false, false), AsksForQuiet(table, args))
  {
  }

  lemma AnswerAtEnd(table: Table, args: seq<OsText>, index: nat, command: Option<Command>,
                    output: OutputRequest, answer: bool)
    requires index >= |args| && AnswerIs(table, args, index, command, output, answer)
    ensures answer == output.Quiet()
  {
  }

  // --------------------------------------------------------------- guarantees

  /** The tokens lie side by side from `index` on, inside the argument list,
      and a flag is written where its token starts. */
  lemma {:induction false} TokensTile(table: Table, args: seq<OsText>, index: nat, command: Option<Command>, i: nat)
    requires i < |Tokens(table, args, index, command)|
    ensures var tokens := Tokens(table, args, index, command);
            && tokens[i].start == (if i == 0 then index else tokens[i - 1].start + tokens[i - 1].width)
            && tokens[i].width >= 1 && tokens[i].start + tokens[i].width <= |args|
            && (tokens[i].token.Flag? ==> args[tokens[i].start] == Text(tokens[i].token.text))
            && (tokens[i].width == 2 ==> tokens[i].token.WithValue?)
    decreases i
  {
    var next := TokenAt(table, args, index, command).value;
    if i > 0 {
      TokensTile(table, args, index + next.width, CommandAfter(command, next.token), i - 1);
    }
  }

  lemma {:induction false} TokensAdvance(table: Table, args: seq<OsText>, index: nat, command: Option<Command>,
                                          i: nat, j: nat)
    requires i < j < |Tokens(table, args, index, command)|
    ensures var tokens := Tokens(table, args, index, command); tokens[i].start + tokens[i].width <= tokens[j].start
    decreases j
  {
    TokensTile(table, args, index, command, j);
    if i < j - 1 {
      TokensAdvance(table, args, index, command, i, j - 1);
      TokensTile(table, args, index, command, j - 1);
    }
  }

  /** The separate value of an option is never read as anything else, however it looks. */
  lemma ValueIsNoToken(table: Table, args: seq<OsText>, i: nat, j: nat)
    requires var tokens := Tokens(table, args, 1, None); i < |tokens| && j < |tokens| && tokens[i].width == 2
    ensures var tokens := Tokens(table, args, 1, None); tokens[j].start != tokens[i].start + 1
  {
    TokensTile(table, args, 1, None, i);
    TokensTile(table, args, 1, None, j);
    if i < j {
      TokensAdvance(table, args, 1, None, i, j);
    } else if j < i {
      TokensAdvance(table, args, 1, None, j, i);
    }
  }

  const DASHES := Text("--")

  /** Both command lines are the same up to and including a `--` at position `n`. */
  predicate SameUpToDashes(args: seq<OsText>, args': seq<OsText>, n: nat) {
    && n < |args| && n < |args'|
    && args[n] == DASHES
    && forall i | 0 <= i <= n :: args[i] == args'[i]
  }

  lemma {:induction false} TokensStopAtDashes(table: Table, args: seq<OsText>, args': seq<OsText>, n: nat,
                                              index: nat, command: Option<Command>)
    requires SameUpToDashes(args, args', n) && index <= n
    ensures Tokens(table, args, index, command) == Tokens(table, args', index, command)
    decreases n - index
  {
    if index < n {
      var next := TokenAt(table, args, index, command);
      assert next == TokenAt(table, args', index, command);
      if next.Some? {
        TokensStopAtDashes(table, args, args', n, index + next.value.width, CommandAfter(command, next.value.token));
      }
    }
  }

  lemma HelpTurnIsTheSame(table: Table, args: seq<OsText>, args': seq<OsText>, n: nat,
                          index: nat, command: Option<Command>)
    requires SameUpToDashes(args, args', n) && index < n
    ensures var turn := HelpAt(table, args, index, command);
            HelpAt(table, args', index, command) == turn && (turn.GoOn? ==> turn.next <= n)
  {
    assert args[index + 1..][0] == args'[index + 1..][0];
  }

  lemma {:induction false} HelpStopsAtDashes(table: Table, args: seq<OsText>, args': seq<OsText>, n: nat,
                                             index: nat, command: Option<Command>)
    requires SameUpToDashes(args, args', n) && index <= n
    ensures HelpFrom(table, args, index, command) == HelpFrom(table, args', index, command)
    decreases n - index
  {
    if index < n {
      HelpTurnIsTheSame(table, args, args', n, index, command);
      var turn := HelpAt(table, args, index, command);
      if turn.GoOn? {
        HelpStopsAtDashes(table, args, args', n, turn.next, turn.command);
      }
    }
  }

  /** Nothing after the first `--` can ask for quiet, help or the version. */
  lemma TailIsIgnored(table: Table, front: seq<OsText>, tail: seq<OsText>, tail': seq<OsText>)
    requires front != []
    ensures AsksForQuiet(table, front + [DASHES] + tail) == AsksForQuiet(table, front + [DASHES] + tail')
    ensures HelpRequest(table, front + [DASHES] + tail) == HelpRequest(table, front + [DASHES] + tail')
  {
    var args, args' := front + [DASHES] + tail, front + [DASHES] + tail';
    assert forall i | 0 <= i <= |front| :: args[i] == args'[i];
    TokensStopAtDashes(table, args, args', |front|, 1, None);
    HelpStopsAtDashes(table, args, args', |front|, 1, None);
  }

  /** The shapes a control command line can have. */
  predicate IsControl(table: Table, out: seq<OsText>, program: OsText) {
    || (|out| == 2 && out[0] == program && out[1].Text?
        && (IsHelp(out[1].text) || IsVersion(out[1].text) || out[1].text == "help"))
    || (|out| == 3 && out[0] == program && out[1] == Text("help") && !(out[2].Text? && IsHelp(out[2].text)))
    || (|out| == 3 && out[0] == program && out[2].Text? && IsHelp(out[2].text)
        && exists command | command in table.commands :: out[1] == Text(command.name))
  }

  lemma HelpTurnIsControl(table: Table, args: seq<OsText>, index: nat, command: Option<Command>)
    requires index < |args| && (command.Some? ==> command.value in table.commands)
    ensures match HelpAt(table, args, index, command)
            case Answer(out) => IsControl(table, out, args[0])
            case GoOn(_, command') => command'.Some? ==> command'.value in table.commands
            case GiveUp => true
  {
  }

  lemma {:induction false} HelpFromIsControl(table: Table, args: seq<OsText>, index: nat, command: Option<Command>)
    requires args != [] && (command.Some? ==> command.value in table.commands)
    ensures HelpFrom(table, args, index, command).Some? ==>
              IsControl(table, HelpFrom(table, args, index, command).value, args[0])
    decreases |args| - index
  {
    if index < |args| {
      HelpTurnIsControl(table, args, index, command);
      var turn := HelpAt(table, args, index, command);
      if turn.GoOn? {
        HelpFromIsControl(table, args, turn.next, turn.command);
      }
    }
  }

  /** An option written without `=` is looked up by what follows its dashes. */
  lemma PlainLongOption(arg: string, name: string)
    requires name != [] && '=' !in name && arg == "--" + name
    ensures SplitLongOption(arg) == Some(LongOption(name, false))
  {
    NoEquals(name, 0);
    assert arg[2..] == name && name[..|name|] == name;
  }

  lemma {:induction false} NoSpecFor(table: Table, command: Option<Command>, arg: string)
    requires ValidTable(table) && (command.Some? ==> command.value in table.commands)
    requires arg in ["-h", "--help", "-V", "--version", "help"] || (arg != [] && arg[0] != '-')
    ensures OptionSpec(table, command, arg).None?
  {
    if arg == "--help" {
      PlainLongOption(arg, "help");
    } else if arg == "--version" {
      PlainLongOption(arg, "version");
    } else {
      assert !StartsWith(arg, "--") by {
        assert arg != [] && (arg[0] != '-' || (|arg| == 2 && arg[1] != '-'));
      }
    }
  }

  lemma {:induction false} NoEquals(text: string, from: nat)
    requires from <= |text| && '=' !in text
    ensures FindEquals(text, from) == |text|
    decreases |text| - from
  {
    if from < |text| {
      NoEquals(text, from + 1);
    }
  }

  lemma FlagIsControl(table: Table, out: seq<OsText>)
    requires ValidTable(table) && |out| == 2 && out[1].Text?
    requires IsHelp(out[1].text) || IsVersion(out[1].text) || out[1].text == "help"
    ensures HelpRequest(table, out) == Some(out)
  {
    NoSpecFor(table, None, out[1].text);
    assert ControlArgs(out[0], None, out[1].text) == out;
    if out[1].text == "help" {
      assert out[2..] == [] && HelpFrom(table, out, 1, None) == Some(HelpSubcommandArgs(out[0], []));
      assert [out[0], Text("help")] == out;
    } else {
      assert HelpFrom(table, out, 1, None) == Some(ControlArgs(out[0], None, out[1].text));
    }
  }

  lemma HelpOfSomethingIsControl(table: Table, out: seq<OsText>)
    requires ValidTable(table) && |out| == 3 && out[1] == Text("help") && !(out[2].Text? && IsHelp(out[2].text))
    ensures HelpRequest(table, out) == Some(out)
  {
    NoSpecFor(table, None, "help");
    assert out[2..] == [out[2]];
    assert HelpSubcommandArgs(out[0], [out[2]]) == out;
  }

  lemma {:induction false} CommandHelpIsControl(table: Table, out: seq<OsText>)
    requires ValidTable(table) && |out| == 3 && out[1].Text? && out[2].Text? && IsHelp(out[2].text)
    requires exists command | command in table.commands :: out[1] == Text(command.name)
    ensures HelpRequest(table, out) == Some(out)
  {
    CommandIsFound(table.commands, out[1].text);
    var command := FindCommand(table.commands, out[1].text);
    NoSpecFor(table, None, out[1].text);
    NoSpecFor(table, command, out[2].text);
    assert ControlArgs(out[0], command, out[2].text) == out;
    assert HelpFrom(table, out, 2, command) == Some(out);
  }

  /** Scanning a control command line gives it back unchanged. */
  lemma HelpRequestIsIdempotent(table: Table, args: seq<OsText>)
    requires ValidTable(table) && HelpRequest(table, args).Some?
    ensures HelpRequest(table, HelpRequest(table, args).value) == HelpRequest(table, args)
  {
    var out := HelpRequest(table, args).value;
    HelpFromIsControl(table, args, 1, None);
    if |out| == 2 {
      FlagIsControl(table, out);
    } else if out[1] == Text("help") {
      HelpOfSomethingIsControl(table, out);
    } else {
      CommandHelpIsControl(table, out);
    }
  }

  lemma {:induction false} CommandIsFound(commands: seq<Command>, name: string)
    requires exists command | command in commands :: command.name == name
    ensures FindCommand(commands, name).Some?
  {
    if commands[0].name != name {
      CommandIsFound(commands[1..], name);
    }
  }
}
