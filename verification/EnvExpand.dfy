/** Environment expansion of command-line arguments, before they are parsed. */
module EnvExpand {
  import opened Common

  datatype ExpandError =
    | Unterminated
    | InvalidName(name: string)
    | NotSet(name: string)
    | NotUnicode(name: string)
    | ArgumentNotUtf8

  /** The environment, as looking a name up answers. */
  datatype Lookup = Value(text: string) | Unset | Undecodable

  type Environment = string -> Lookup

  // ------------------------------------------------------------- expressions

  predicate IsLetter(c: char) { 'a' <= c <= 'z' || 'A' <= c <= 'Z' }

  predicate ValidEnvName(name: string) {
    && name != []
    && (name[0] == '_' || IsLetter(name[0]))
    && forall i | 1 <= i < |name| :: name[i] == '_' || IsLetter(name[i]) || IsDigit(name[i])
  }

  /** `:-` stands at position `i`. */
  predicate MarkAt(expr: string, i: int) {
    0 <= i < |expr| - 1 && expr[i] == ':' && expr[i + 1] == '-'
  }

  /** The first position at or after `from` where `:-` stands, or the length of the text. */
  function FindDefault(expr: string, from: nat := 0): (at: nat)
    requires from <= |expr|
    ensures from <= at <= |expr|
    ensures at < |expr| ==> MarkAt(expr, at)
    ensures forall i | from <= i < at :: !MarkAt(expr, i)
    decreases |expr| - from
  {
    if from == |expr| || MarkAt(expr, from) then from else FindDefault(expr, from + 1)
  }

  function ExpandExpression(expr: string, env: Environment): Result<string, ExpandError> {
    var at := FindDefault(expr);
    var name := expr[..at];
    var default := if at < |expr| then Some(expr[at + 2..]) else None;
    if !ValidEnvName(name) then Err(InvalidName(name))
    else
      match env(name)
      case Undecodable => Err(NotUnicode(name))
      case Value(text) => Ok(if text == [] && default.Some? then default.value else text)
      case Unset => if default.Some? then Ok(default.value) else Err(NotSet(name))
  }

  // ---------------------------------------------------------------- segments

  /** What an argument is written with. */
  datatype Segment =
    | Literal(text: string)
    | EscapedDollar
    | LoneDollar
    | Variable(name: string, default: Option<string>)
    | Open(expr: string)

  function Print(segment: Segment): string {
    match segment
    case Literal(text) => text
    case EscapedDollar => "$$"
    case LoneDollar => "$"
    case Variable(name, None) => "${" + name + "}"
    case Variable(name, Some(default)) => "${" + name + ":-" + default + "}"
    case Open(expr) => "${" + expr
  }

  function PrintAll(segments: seq<Segment>): string {
    if segments == [] then [] else Print(segments[0]) + PrintAll(segments[1..])
  }

  /** What a segment stands for, said without any scanning: values and defaults are taken as they are. */
  function Meaning(segment: Segment, env: Environment): Result<string, ExpandError> {
    match segment
    case Literal(text) => Ok(text)
    case EscapedDollar => Ok("$")
    case LoneDollar => Ok("$")
    case Open(_) => Err(Unterminated)
    case Variable(name, default) =>
      if !ValidEnvName(name) then Err(InvalidName(name))
      else
        match env(name)
        case Undecodable => Err(NotUnicode(name))
        case Unset => if default.Some? then Ok(default.value) else Err(NotSet(name))
        case Value(text) => if text == [] && default.Some? then Ok(default.value) else Ok(text)
  }

  function Prepend(text: string, r: Result<string, ExpandError>): Result<string, ExpandError> {
    match r
    case Ok(rest) => Ok(text + rest)
    case Err(e) => Err(e)
  }

  lemma PrependNothing(r: Result<string, ExpandError>)
    ensures Prepend([], r) == r
  {
    if r.Ok? {
      assert [] + r.value == r.value;
    }
  }

  lemma PrependTwice(a: string, b: string, r: Result<string, ExpandError>)
    ensures Prepend(a, Prepend(b, r)) == Prepend(a + b, r)
  {
    if r.Ok? {
      assert a + (b + r.value) == a + b + r.value;
    }
  }

  /** The first text, then the second; the first error wins. */
  function Then(first: Result<string, ExpandError>, second: Result<string, ExpandError>): Result<string, ExpandError> {
    match first
    case Ok(text) => Prepend(text, second)
    case Err(e) => Err(e)
  }

  /** The concatenation of the meanings, or the error of the leftmost segment that has one. */
  function MeaningOfAll(segments: seq<Segment>, env: Environment): Result<string, ExpandError> {
    if segments == [] then Ok([]) else Then(Meaning(segments[0], env), MeaningOfAll(segments[1..], env))
  }

  predicate HasNoDefaultMark(name: string) {
    forall i | 0 <= i < |name| :: !MarkAt(name, i)
  }

  /** A segment can be written down where `rest` follows it. */
  predicate CanPrecede(segment: Segment, rest: string) {
    match segment
    case Literal(text) => '$' !in text
    case EscapedDollar => true
    case LoneDollar => rest == [] || (rest[0] != '$' && rest[0] != '{')
    case Variable(name, default) =>
      '}' !in name && HasNoDefaultMark(name) && (default.Some? ==> '}' !in default.value)
    case Open(expr) => '}' !in expr && rest == []
  }

  predicate WellFormed(segments: seq<Segment>) {
    segments == [] || (CanPrecede(segments[0], PrintAll(segments[1..])) && WellFormed(segments[1..]))
  }

  // --------------------------------------------------------------- expansion

  function FindClose(raw: string, from: nat): (at: nat)
    requires from <= |raw|
    ensures from <= at <= |raw|
    ensures at < |raw| ==> raw[at] == '}'
    ensures forall i | from <= i < at :: raw[i] != '}'
    decreases |raw| - from
  {
    if from == |raw| || raw[from] == '}' then from else FindClose(raw, from + 1)
  }

  /** The expansion of a text, by its leading segment. */
  function Expansion(raw: string, env: Environment): Result<string, ExpandError> {
    if raw == [] then Ok([])
    else if raw[0] != '$' then Prepend([raw[0]], Expansion(raw[1..], env))
    else if |raw| > 1 && raw[1] == '$' then Prepend("$", Expansion(raw[2..], env))
    else if |raw| > 1 && raw[1] == '{' then
      var end := FindClose(raw, 2);
      if end == |raw| then Err(Unterminated)
      else Then(ExpandExpression(raw[2..end], env), Expansion(raw[end + 1..], env))
    else Prepend("$", Expansion(raw[1..], env))
  }

  lemma {:induction false} CloseIsUnique(raw: string, from: nat, at: nat)
    requires from <= at <= |raw| && (at < |raw| ==> raw[at] == '}')
    requires forall i | from <= i < at :: raw[i] != '}'
    ensures FindClose(raw, from) == at
    decreases at - from
  {
    if from < at {
      CloseIsUnique(raw, from + 1, at);
    }
  }

  /** What starts at position `i`: its value, and where the rest begins. */
  function StepAt(raw: string, i: nat, env: Environment): (step: (Result<string, ExpandError>, nat))
    requires i < |raw|
    ensures i < step.1 <= |raw|
  {
    if raw[i] != '$' then (Ok([raw[i]]), i + 1)
    else if i + 1 < |raw| && raw[i + 1] == '$' then (Ok("$"), i + 2)
    else if i + 1 < |raw| && raw[i + 1] == '{' then
      var end := FindClose(raw, i + 2);
      if end == |raw| then (Err(Unterminated), |raw|) else (ExpandExpression(raw[i + 2..end], env), end + 1)
    else (Ok("$"), i + 1)
  }

  lemma SuffixSlice(raw: string, i: nat, a: nat, b: nat)
    requires i <= |raw| && a <= b <= |raw| - i
    ensures raw[i..][a..b] == raw[i + a..i + b] && raw[i..][b..] == raw[i + b..]
  {
  }

  lemma CloseInSuffix(raw: string, i: nat)
    requires i + 2 <= |raw|
    ensures FindClose(raw[i..], 2) == FindClose(raw, i + 2) - i
  {
    var end := FindClose(raw, i + 2);
    CloseIsUnique(raw[i..], 2, end - i);
  }

  lemma {:induction false} ExpansionOfBrace(rest: string, env: Environment)
    requires |rest| > 1 && rest[0] == '$' && rest[1] == '{'
    ensures var end := FindClose(rest, 2);
            Expansion(rest, env) ==
            if end == |rest| then Err(Unterminated)
            else Then(ExpandExpression(rest[2..end], env), Expansion(rest[end + 1..], env))
  {
  }

  lemma {:induction false} StepAtBrace(raw: string, i: nat, env: Environment)
    requires i + 1 < |raw| && raw[i] == '$' && raw[i + 1] == '{'
    ensures var rest := raw[i..];
            var end := FindClose(rest, 2);
            if end == |rest| then StepAt(raw, i, env).0 == Err(Unterminated)
            else
              && StepAt(raw, i, env).0 == ExpandExpression(rest[2..end], env)
              && raw[StepAt(raw, i, env).1..] == rest[end + 1..]
  {
    CloseInSuffix(raw, i);
    var end := FindClose(raw, i + 2);
    if end < |raw| {
      SuffixSlice(raw, i, 2, end - i);
      SuffixSlice(raw, i, 2, end - i + 1);
    }
  }

  lemma {:induction false} ExpansionAtBrace(raw: string, i: nat, env: Environment)
    requires i + 1 < |raw| && raw[i] == '$' && raw[i + 1] == '{'
    ensures Expansion(raw[i..], env) == Then(StepAt(raw, i, env).0, Expansion(raw[StepAt(raw, i, env).1..], env))
  {
    StepAtBrace(raw, i, env);
    ExpansionOfBrace(raw[i..], env);
  }

  lemma {:induction false} ExpansionAt(raw: string, i: nat, env: Environment)
    requires i < |raw|
    ensures Expansion(raw[i..], env) == Then(StepAt(raw, i, env).0, Expansion(raw[StepAt(raw, i, env).1..], env))
  {
    SuffixSlice(raw, i, 0, 1);
    if i + 1 < |raw| && raw[i] == '$' {
      SuffixSlice(raw, i, 0, 2);
      if raw[i + 1] == '{' {
        ExpansionAtBrace(raw, i, env);
      }
    }
  }

  /** The inner loop: the characters up to the closing brace. */
  method TakeExpression(raw: string, from: nat) returns (expr: string, terminated: bool, next: nat)
    requires from <= |raw|
    ensures var end := FindClose(raw, from);
            && expr == raw[from..end] && (terminated <==> end < |raw|)
            && next == if terminated then end + 1 else |raw|
  {
    expr, terminated, next := "", false, from;
    while next < |raw| && !terminated
      invariant from <= next <= |raw|
      invariant terminated ==> next > from && raw[next - 1] == '}'
      invariant expr == raw[from..if terminated then next - 1 else next] && '}' !in expr
    {
      if raw[next] == '}' {
        terminated := true;
      } else {
        expr := expr + [raw[next]];
      }
      next := next + 1;
    }
    CloseIsUnique(raw, from, if terminated then next - 1 else next);
  }

  /** One turn of the scanner, at position `i`. */
  method TakeStep(raw: string, i: nat, env: Environment) returns (value: Result<string, ExpandError>, next: nat)
    requires i < |raw|
    ensures (value, next) == StepAt(raw, i, env)
  {
    if raw[i] != '$' {
      return Ok([raw[i]]), i + 1;
    }
    if i + 1 < |raw| && raw[i + 1] == '$' {
      return Ok("$"), i + 2;
    }
    if i + 1 < |raw| && raw[i + 1] == '{' {
      var expr, terminated, after := TakeExpression(raw, i + 2);
      value := if terminated then ExpandExpression(expr, env) else Err(Unterminated);
      return value, after;
    }
    return Ok("$"), i + 1;
  }

  /** The scanner: one pass over the characters, up to the first error. */
  method ExpandText(raw: string, env: Environment) returns (r: Result<string, ExpandError>)
    ensures r == Expansion(raw, env)
  {
    var expanded := "";
    var i := 0;
    assert raw[0..] == raw;
    PrependNothing(Expansion(raw, env));
    while i < |raw|
      invariant 0 <= i <= |raw|
      invariant Expansion(raw, env) == Prepend(expanded, Expansion(raw[i..], env))
    {
      ExpansionAt(raw, i, env);
      var value, next := TakeStep(raw, i, env);
      if value.Err? {
        return value;
      }
      PrependTwice(expanded, value.value, Expansion(raw[next..], env));
      expanded := expanded + value.value;
      i := next;
    }
    assert expanded + [] == expanded;
    r := Ok(expanded);
  }

  // ------------------------------------------------------------------ proofs

  lemma {:induction false} DefaultMarkIsUnique(expr: string, from: nat, at: nat)
    requires from <= at <= |expr|
    requires forall i | from <= i < at :: !MarkAt(expr, i)
    requires at < |expr| ==> MarkAt(expr, at)
    ensures FindDefault(expr, from) == at
    decreases at - from
  {
    if from < at {
      DefaultMarkIsUnique(expr, from + 1, at);
    }
  }

  /** Splitting a printed variable gives back its name and default. */
  lemma ExpressionOfVariable(name: string, default: Option<string>, env: Environment)
    requires HasNoDefaultMark(name)
    ensures ExpandExpression(if default.Some? then name + ":-" + default.value else name, env)
            == Meaning(Variable(name, default), env)
  {
    var expr := if default.Some? then name + ":-" + default.value else name;
    if default.Some? {
      assert MarkAt(expr, |name|) && expr[|name| + 2..] == default.value;
      forall i | 0 <= i < |name|
        ensures !MarkAt(expr, i)
      {
        assert !MarkAt(name, i);
      }
    }
    assert expr[..|name|] == name;
    DefaultMarkIsUnique(expr, 0, |name|);
  }

  lemma {:induction false} ExpansionOfLiteral(text: string, rest: string, env: Environment)
    requires '$' !in text
    ensures Expansion(text + rest, env) == Prepend(text, Expansion(rest, env))
  {
    if text == [] {
      assert text + rest == rest;
      PrependNothing(Expansion(rest, env));
    } else {
      assert (text + rest)[1..] == text[1..] + rest;
      ExpansionOfLiteral(text[1..], rest, env);
      if Expansion(rest, env).Ok? {
        assert [text[0]] + (text[1..] + Expansion(rest, env).value) == text + Expansion(rest, env).value;
      }
    }
  }

  lemma {:induction false} ExpansionOfBraces(expr: string, rest: string, env: Environment)
    requires '}' !in expr
    ensures Expansion("${" + expr + "}" + rest, env) == Then(ExpandExpression(expr, env), Expansion(rest, env))
    ensures Expansion("${" + expr, env) == Err(Unterminated)
  {
    var raw := "${" + expr + "}" + rest;
    assert raw[2..2 + |expr|] == expr && raw[2 + |expr|] == '}';
    CloseIsUnique(raw, 2, 2 + |expr|);
    assert raw[3 + |expr|..] == rest;
    var open := "${" + expr;
    assert open[2..] == expr;
    CloseIsUnique(open, 2, |open|);
  }

  lemma {:induction false} ExpansionOfVariable(segment: Segment, rest: string, env: Environment)
    requires segment.Variable? && CanPrecede(segment, rest)
    ensures Expansion(Print(segment) + rest, env) == Then(Meaning(segment, env), Expansion(rest, env))
  {
    var Variable(name, default) := segment;
    var expr := if default.Some? then name + ":-" + default.value else name;
    assert Print(segment) == "${" + expr + "}";
    ExpressionOfVariable(name, default, env);
    ExpansionOfBraces(expr, rest, env);
  }

  lemma {:induction false} ExpansionOfLeading(segment: Segment, rest: string, env: Environment)
    requires CanPrecede(segment, rest)
    ensures Expansion(Print(segment) + rest, env) == Then(Meaning(segment, env), Expansion(rest, env))
  {
    var raw := Print(segment) + rest;
    match segment
    case Literal(text) => ExpansionOfLiteral(text, rest, env);
    case EscapedDollar => assert raw[2..] == rest;
    case LoneDollar => assert raw[1..] == rest;
    case Variable(_, _) => ExpansionOfVariable(segment, rest, env);
    case Open(expr) =>
      assert raw == "${" + expr;
      ExpansionOfBraces(expr, rest, env);
  }

  /** Expansion inverts the printer: a text written with segments expands to the
      concatenation of their meanings, or fails as the leftmost failing one does. */
  lemma {:induction false} ExpansionOfPrinted(segments: seq<Segment>, env: Environment)
    requires WellFormed(segments)
    ensures Expansion(PrintAll(segments), env) == MeaningOfAll(segments, env)
  {
    if segments != [] {
      ExpansionOfPrinted(segments[1..], env);
      ExpansionOfLeading(segments[0], PrintAll(segments[1..]), env);
    }
  }

  /** The segments of a text. */
  function Parse(raw: string): (segments: seq<Segment>)
    ensures PrintAll(segments) == raw && WellFormed(segments)
    decreases |raw|
  {
    if raw == [] then []
    else
      var first := Leading(raw);
      var rest := Parse(raw[|Print(first)|..]);
      PrintAllCons(raw, first, rest);
      [first] + rest
  }

  lemma {:induction false} PrintAllCons(raw: string, first: Segment, rest: seq<Segment>)
    requires |Print(first)| <= |raw| && raw[..|Print(first)|] == Print(first)
    requires PrintAll(rest) == raw[|Print(first)|..] && WellFormed(rest) && CanPrecede(first, PrintAll(rest))
    ensures PrintAll([first] + rest) == raw && WellFormed([first] + rest)
  {
    assert ([first] + rest)[1..] == rest;
    assert raw == Print(first) + PrintAll(rest);
  }

  /** The variable written between braces. */
  function VariableOf(expr: string): (segment: Segment)
    requires '}' !in expr
    ensures Print(segment) == "${" + expr + "}" && segment.Variable? && CanPrecede(segment, [])
  {
    var at := FindDefault(expr);
    var name := expr[..at];
    assert forall i | 0 <= i < at :: MarkAt(name, i) ==> MarkAt(expr, i);
    if at < |expr| then
      var default := expr[at + 2..];
      assert expr == name + ":-" + default;
      Variable(name, Some(default))
    else
      assert name == expr;
      Variable(name, None)
  }

  function Leading(raw: string): (segment: Segment)
    requires raw != []
    ensures 0 < |Print(segment)| <= |raw| && raw[..|Print(segment)|] == Print(segment)
    ensures CanPrecede(segment, raw[|Print(segment)|..])
  {
    if raw[0] != '$' then Literal([raw[0]])
    else if |raw| > 1 && raw[1] == '$' then EscapedDollar
    else if |raw| > 1 && raw[1] == '{' then
      var end := FindClose(raw, 2);
      if end == |raw| then Open(raw[2..])
      else
        assert raw[..end + 1] == "${" + raw[2..end] + "}";
        VariableOf(raw[2..end])
    else LoneDollar
  }

  /** Every text is the printing of well-formed segments, so its expansion
      is the meaning of those it is written with. */
  lemma ExpansionOfAnyText(raw: string, env: Environment)
    ensures Expansion(raw, env) == MeaningOfAll(Parse(raw), env)
  {
    ExpansionOfPrinted(Parse(raw), env);
  }

  function DoubleDollars(text: string): string {
    if text == [] then []
    else (if text[0] == '$' then "$$" else [text[0]]) + DoubleDollars(text[1..])
  }

  /** Doubling every dollar sign protects any text from expansion. */
  lemma {:induction false} DoubledTextSurvives(text: string, env: Environment)
    ensures Expansion(DoubleDollars(text), env) == Ok(text)
  {
    if text != [] {
      DoubledTextSurvives(text[1..], env);
      var rest := DoubleDollars(text[1..]);
      if text[0] == '$' {
        assert ("$$" + rest)[2..] == rest;
      } else {
        assert ([text[0]] + rest)[1..] == rest;
      }
      assert [text[0]] + text[1..] == text;
    }
  }

  // ------------------------------------------------------------------- names

  const LOWER := "abcdefghijklmnopqrstuvwxyz"
  const UPPER := "ABCDEFGHIJKLMNOPQRSTUVWXYZ"
  const DIGITS := "0123456789"

  lemma InRange(c: char, characters: string)
    requires characters != [] && forall i | 0 <= i < |characters| :: characters[i] as int == characters[0] as int + i
    ensures c in characters <==> characters[0] <= c <= characters[|characters| - 1]
  {
    if characters[0] <= c <= characters[|characters| - 1] {
      assert characters[c as int - characters[0] as int] == c;
    }
  }

  lemma NameCharacterIs(c: char)
    ensures c == '_' || c in LOWER || c in UPPER || c in DIGITS <==> c == '_' || IsLetter(c) || IsDigit(c)
    ensures c in DIGITS <==> IsDigit(c)
  {
    InRange(c, LOWER);
    InRange(c, UPPER);
    InRange(c, DIGITS);
  }

  lemma {:induction false} ValidNameIs(name: string)
    ensures ValidEnvName(name) <==>
            name != [] && name[0] !in DIGITS && forall i | 0 <= i < |name| ::
              name[i] == '_' || name[i] in LOWER || name[i] in UPPER || name[i] in DIGITS
  {
    forall i | 0 <= i < |name|
      ensures name[i] == '_' || name[i] in LOWER || name[i] in UPPER || name[i] in DIGITS <==>
              name[i] == '_' || IsLetter(name[i]) || IsDigit(name[i])
      ensures name[i] in DIGITS <==> IsDigit(name[i])
    {
      NameCharacterIs(name[i]);
    }
  }

  /** A name is refused exactly when it is empty, starts with a digit, or
      has a character that is no letter, digit or underscore. */
  lemma {:induction false} NamesRefused(name: string, env: Environment)
    requires '}' !in name && HasNoDefaultMark(name)
    ensures Expansion("${" + name + "}", env) != Err(InvalidName(name)) <==>
            name != [] && name[0] !in DIGITS && forall i | 0 <= i < |name| ::
              name[i] == '_' || name[i] in LOWER || name[i] in UPPER || name[i] in DIGITS
  {
    ExpansionOfBraces(name, [], env);
    ExpressionOfVariable(name, None, env);
    assert "${" + name + "}" + [] == "${" + name + "}";
    ValidNameIs(name);
  }

  // --------------------------------------------------------------- arguments

  const DOLLAR_BYTE: Byte := 0x24

  function ExpandedArg(arg: OsText, env: Environment): Result<OsText, ExpandError> {
    match arg
    case NotUtf8(bytes) => if DOLLAR_BYTE in bytes then Err(ArgumentNotUtf8) else Ok(arg)
    case Text(raw) =>
      match Expansion(raw, env)
      case Ok(text) => Ok(Text(text))
      case Err(e) => Err(e)
  }

  /** Bytes that are no UTF-8 are refused exactly when a dollar sign is among them. */
  lemma UndecodableIsKept(bytes: Bytes, env: Environment)
    ensures ExpandedArg(NotUtf8(bytes), env) ==
            if exists i | 0 <= i < |bytes| :: bytes[i] as int == '$' as int then Err(ArgumentNotUtf8)
            else Ok(NotUtf8(bytes))
  {
    if DOLLAR_BYTE in bytes {
      var i :| 0 <= i < |bytes| && bytes[i] == DOLLAR_BYTE;
      assert bytes[i] as int == '$' as int;
    }
  }

  /** A text without a dollar sign expands to itself, so skipping the scan changes nothing. */
  lemma {:induction false} NothingToExpand(raw: string, env: Environment)
    requires '$' !in raw
    ensures Expansion(raw, env) == Ok(raw)
  {
    assert raw + [] == raw;
    ExpansionOfLiteral(raw, [], env);
  }

  method ExpandArg(arg: OsText, env: Environment) returns (r: Result<OsText, ExpandError>)
    ensures r == ExpandedArg(arg, env)
  {
    match arg {
      case NotUtf8(bytes) =>
        r := if DOLLAR_BYTE in bytes then Err(ArgumentNotUtf8) else Ok(arg);
      case Text(raw) =>
        if '$' !in raw {
          NothingToExpand(raw, env);
          return Ok(arg);
        }
        var expanded := ExpandText(raw, env);
        r := match expanded case Ok(text) => Ok(Text(text)) case Err(e) => Err(e);
    }
  }

  datatype ArgvError = ArgvError(error: ExpandError, partialArgs: seq<OsText>, rawTail: seq<OsText>)

  /** `done` is the expansion of the first arguments, the program name being left alone. */
  ghost predicate ExpandedSoFar(done: seq<OsText>, args: seq<OsText>, env: Environment) {
    && |done| <= |args|
    && (done != [] ==> done[0] == args[0])
    && forall i | 1 <= i < |done| :: ExpandedArg(args[i], env) == Ok(done[i])
  }

  /** No argument is lost or made up: on failure the expanded prefix and the untouched
      rest, which starts with the first argument that fails, are the whole command line. */
  method ExpandArgvWithPartial(args: seq<OsText>, env: Environment) returns (r: Result<seq<OsText>, ArgvError>)
    ensures r.Ok? ==> |r.value| == |args| && ExpandedSoFar(r.value, args, env)
    ensures r.Err? ==>
              var n := |r.error.partialArgs|;
              && 1 <= n < |args|
              && ExpandedSoFar(r.error.partialArgs, args, env)
              && r.error.rawTail == args[n..]
              && ExpandedArg(args[n], env) == Err(r.error.error)
  {
    var expanded := [];
    var i := 0;
    if i < |args| {
      expanded := expanded + [args[i]];
      i := i + 1;
    }
    while i < |args|
      invariant 0 <= i <= |args| && |expanded| == i && (args != [] ==> i >= 1)
      invariant ExpandedSoFar(expanded, args, env)
    {
      var arg := ExpandArg(args[i], env);
      if arg.Err? {
        return Err(ArgvError(arg.error, expanded, [args[i]] + args[i + 1..]));
      }
      expanded := expanded + [arg.value];
      i := i + 1;
    }
    r := Ok(expanded);
  }
}
