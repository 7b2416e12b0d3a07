/** The structured success line. */
module Output {
  import opened Common

  function HexDigit(n: nat): char
    requires n < 16
  {
    if n < 10 then ('0' as int + n) as char else ('A' as int + n - 10) as char
  }

  function HexValue(c: char): (n: Option<nat>)
    ensures n.Some? ==> n.value < 16
  {
    if '0' <= c <= '9' then Some(c as int - '0' as int)
    else if 'A' <= c <= 'F' then Some(c as int - 'A' as int + 10)
    else None
  }

  lemma HexRoundTrip(n: nat)
    requires n < 16
    ensures HexValue(HexDigit(n)) == Some(n)
  {
  }

  /** The four hexadecimal digits are enough for every control character, all below U+00A0. */
  function Escape(c: char): string {
    if c == '\\' then "\\\\"
    else if c == '"' then "\\\""
    else if c == '\n' then "\\n"
    else if c == '\r' then "\\r"
    else if c == '\t' then "\\t"
    else if IsControl(c) then "\\u{00" + [HexDigit(c as int / 16), HexDigit(c as int % 16)] + "}"
    else [c]
  }

  function EscapeAll(value: string): string {
    if value == [] then [] else Escape(value[0]) + EscapeAll(value[1..])
  }

  lemma Regroup(a: string, b: string, c: string)
    ensures (a + b) + c == a + (b + c)
  {
  }

  method QuoteFieldValue(value: string) returns (escaped: string)
    ensures escaped == "\"" + EscapeAll(value) + "\""
  {
    escaped := "\"";
    var i := 0;
    assert value[0..] == value;
    while i < |value|
      invariant 0 <= i <= |value|
      invariant escaped + EscapeAll(value[i..]) == "\"" + EscapeAll(value)
    {
      assert value[i..][1..] == value[i + 1..];
      Regroup(escaped, Escape(value[i]), EscapeAll(value[i + 1..]));
      escaped := escaped + Escape(value[i]);
      i := i + 1;
    }
    assert escaped + [] == escaped;
    escaped := escaped + "\"";
  }

  function Quoted(value: string): string {
    "\"" + EscapeAll(value) + "\""
  }

  /** One escaped character at the front of a text, and what follows it. */
  function Unescape(text: string): Option<(char, string)> {
    if text == [] || text[0] == '"' then None
    else if text[0] != '\\' then Some((text[0], text[1..]))
    else if |text| < 2 then None
    else if text[1] == '\\' || text[1] == '"' then Some((text[1], text[2..]))
    else if text[1] == 'n' then Some(('\n', text[2..]))
    else if text[1] == 'r' then Some(('\r', text[2..]))
    else if text[1] == 't' then Some(('\t', text[2..]))
    else if |text| >= 8 && text[1..5] == "u{00" && text[7] == '}' && HexValue(text[5]).Some? && HexValue(text[6]).Some?
    then Some(((16 * HexValue(text[5]).value + HexValue(text[6]).value) as char, text[8..]))
    else None
  }

  /** Escaped characters up to the closing quote, and what follows it. */
  function UnescapeAll(text: string): Option<(string, string)>
    decreases |text|
  {
    if text == [] then None
    else if text[0] == '"' then Some(([], text[1..]))
    else
      match Unescape(text)
      case None => None
      case Some((c, rest)) =>
        if |rest| >= |text| then None
        else
          match UnescapeAll(rest)
          case None => None
          case Some((value, after)) => Some(([c] + value, after))
  }

  function Unquote(text: string): Option<(string, string)> {
    if text == [] || text[0] != '"' then None else UnescapeAll(text[1..])
  }

  lemma EscapeRoundTrip(c: char, rest: string)
    ensures Unescape(Escape(c) + rest) == Some((c, rest))
    ensures |rest| < |Escape(c) + rest| && (Escape(c) + rest)[0] != '"'
  {
    var text := Escape(c) + rest;
    if IsControl(c) && c != '\n' && c != '\r' && c != '\t' {
      HexRoundTrip(c as int / 16);
      HexRoundTrip(c as int % 16);
      assert text[1..5] == "u{00" && text[8..] == rest;
    } else if |Escape(c)| == 2 {
      assert text[2..] == rest;
    } else {
      assert text[1..] == rest;
    }
  }

  lemma {:induction false} UnescapeAllRoundTrip(value: string, rest: string)
    ensures UnescapeAll(EscapeAll(value) + ("\"" + rest)) == Some((value, rest))
  {
    var close := "\"" + rest;
    if value == [] {
      assert close[1..] == rest && EscapeAll(value) + close == close;
    } else {
      Regroup(Escape(value[0]), EscapeAll(value[1..]), close);
      EscapeRoundTrip(value[0], EscapeAll(value[1..]) + close);
      UnescapeAllRoundTrip(value[1..], rest);
      assert [value[0]] + value[1..] == value;
    }
  }

  /** The five characters that have an escape of their own are written with it. */
  lemma ShortEscapes()
    ensures Quoted("\\") == "\"\\\\\"" && Quoted("\"") == "\"\\\"\""
    ensures Quoted("\n") == "\"\\n\"" && Quoted("\r") == "\"\\r\"" && Quoted("\t") == "\"\\t\""
  {
    assert EscapeAll("\\"[1..]) == [] && EscapeAll("\""[1..]) == [];
    assert EscapeAll("\n"[1..]) == [] && EscapeAll("\r"[1..]) == [] && EscapeAll("\t"[1..]) == [];
  }

  /** A text without control characters, quotes and backslashes is written as it is. */
  lemma {:induction false} PlainTextIsKept(value: string)
    requires NoControls(value) && '"' !in value && '\\' !in value
    ensures Quoted(value) == "\"" + value + "\""
  {
    if value != [] {
      PlainTextIsKept(value[1..]);
      assert EscapeAll(value[1..]) == value[1..] by {
        assert Quoted(value[1..])[1..|value|] == EscapeAll(value[1..])[..|value| - 1];
      }
      assert [value[0]] + value[1..] == value;
    }
  }

  /** A quoted field can be read back, whatever follows it. */
  lemma QuoteRoundTrip(value: string, rest: string)
    ensures Unquote(Quoted(value) + rest) == Some((value, rest))
  {
    UnescapeAllRoundTrip(value, rest);
    var escaped := EscapeAll(value);
    assert (("\"" + escaped + "\"") + rest)[1..] == escaped + ("\"" + rest);
  }

  /** No character of the ranges U+0000 to U+001F and U+007F to U+009F. */
  predicate NoControls(text: string) {
    forall i | 0 <= i < |text| :: 0x20 <= text[i] as int < 0x7F || text[i] as int >= 0xA0
  }

  lemma NoControlsConcat(a: string, b: string)
    requires NoControls(a) && NoControls(b)
    ensures NoControls(a + b)
  {
  }

  lemma {:induction false} EscapedHasNoControls(value: string)
    ensures NoControls(EscapeAll(value))
  {
    if value != [] {
      EscapedHasNoControls(value[1..]);
      NoControlsConcat(Escape(value[0]), EscapeAll(value[1..]));
    }
  }

  // ------------------------------------------------------------ the whole line

  function Decimal(n: nat): (text: string)
    ensures text != [] && AllDigits(text) && (|text| > 1 ==> text[0] != '0')
  {
    var digit := [('0' as int + n % 10) as char];
    if n < 10 then digit else Decimal(n / 10) + digit
  }

  lemma {:induction false} DecimalRoundTrip(n: nat)
    ensures DecimalValue(Decimal(n)) == n
  {
    var text := Decimal(n);
    if n < 10 {
      assert text[..0] == [];
    } else {
      DecimalRoundTrip(n / 10);
      assert text[..|text| - 1] == Decimal(n / 10);
    }
  }

  datatype Success = Success(mode: string, target: string, durationMs: nat, detail: Option<string>)

  /** An empty detail is left out, like an absent one. */
  function Normal(s: Success): Success {
    if s.detail == Some([]) then s.(detail := None) else s
  }

  const HEAD := "result=healthy mode="
  const TARGET := " target="
  const DURATION := " duration_ms="
  const DETAIL := " detail="

  function DetailField(s: Success): string {
    if s.detail.Some? && s.detail.value != [] then DETAIL + Quoted(s.detail.value) else []
  }

  function FormatSuccess(s: Success): string {
    HEAD + (s.mode + (TARGET + (Quoted(s.target) + (DURATION + (Decimal(s.durationMs) + DetailField(s))))))
  }

  /** The line as it is written. */
  lemma {:induction false} LineIs(s: Success)
    ensures FormatSuccess(s) ==
            var detail := match Normal(s).detail case None => [] case Some(text) => " detail=" + Quoted(text);
            "result=healthy mode=" + (s.mode + (" target=" + (Quoted(s.target) +
            (" duration_ms=" + (Decimal(s.durationMs) + detail)))))
  {
  }

  function Strip(text: string, prefix: string): Option<string> {
    if prefix <= text then Some(text[|prefix|..]) else None
  }

  /** The front of a text up to the first space, and the rest. */
  function Word(text: string, from: nat := 0): (at: nat)
    requires from <= |text|
    ensures from <= at <= |text|
    decreases |text| - from
  {
    if from == |text| || text[from] == ' ' then from else Word(text, from + 1)
  }

  lemma {:induction false} WordIs(text: string, from: nat, at: nat)
    requires from <= at <= |text| && (at < |text| ==> text[at] == ' ') && forall i | from <= i < at :: text[i] != ' '
    ensures Word(text, from) == at
    decreases at - from
  {
    if from < at {
      WordIs(text, from + 1, at);
    }
  }

  function DecodeDetail(text: string): Option<Option<string>> {
    if text == [] then Some(None)
    else
      match Strip(text, DETAIL)
      case None => None
      case Some(field) =>
        match Unquote(field)
        case None => None
        case Some((detail, rest)) => if rest == [] then Some(Some(detail)) else None
  }

  function DecodeTail(mode: string, target: string, text: string): Option<Success> {
    match Strip(text, DURATION)
    case None => None
    case Some(number) =>
      var at := Word(number);
      if at == 0 || !AllDigits(number[..at]) then None
      else
        match DecodeDetail(number[at..])
        case None => None
        case Some(detail) => Some(Success(mode, target, DecimalValue(number[..at]), detail))
  }

  function Decode(line: string): Option<Success> {
    match Strip(line, HEAD)
    case None => None
    case Some(rest) =>
      var at := Word(rest);
      match Strip(rest[at..], TARGET)
      case None => None
      case Some(field) =>
        match Unquote(field)
        case None => None
        case Some((target, tail)) => DecodeTail(rest[..at], target, tail)
  }

  lemma DecodeDetailRoundTrip(s: Success)
    ensures DecodeDetail(DetailField(s)) == Some(Normal(s).detail)
  {
    if DetailField(s) != [] {
      var field := Quoted(s.detail.value);
      QuoteRoundTrip(s.detail.value, []);
      assert field + [] == field && DetailField(s)[|DETAIL|..] == field;
    }
  }

  lemma DecodeTailRoundTrip(s: Success)
    ensures DecodeTail(s.mode, s.target, DURATION + (Decimal(s.durationMs) + DetailField(s))) == Some(Normal(s))
  {
    var digits := Decimal(s.durationMs);
    var number := digits + DetailField(s);
    assert (DURATION + number)[|DURATION|..] == number;
    assert forall i | 0 <= i < |digits| :: number[i] == digits[i] && IsDigit(digits[i]);
    WordIs(number, 0, |digits|);
    assert number[..|digits|] == digits && number[|digits|..] == DetailField(s);
    DecimalRoundTrip(s.durationMs);
    DecodeDetailRoundTrip(s);
  }

  lemma DecodeTargetRoundTrip(s: Success, tail: string)
    ensures Strip(TARGET + (Quoted(s.target) + tail), TARGET) == Some(Quoted(s.target) + tail)
    ensures Unquote(Quoted(s.target) + tail) == Some((s.target, tail))
  {
    assert (TARGET + (Quoted(s.target) + tail))[|TARGET|..] == Quoted(s.target) + tail;
    QuoteRoundTrip(s.target, tail);
  }

  /** The line can be read back: nothing in a target or a detail can be mistaken for another field. */
  lemma {:induction false} LineRoundTrip(s: Success)
    requires ' ' !in s.mode
    ensures Decode(FormatSuccess(s)) == Some(Normal(s))
  {
    var tail := DURATION + (Decimal(s.durationMs) + DetailField(s));
    var fields := TARGET + (Quoted(s.target) + tail);
    var rest := s.mode + fields;
    assert (HEAD + rest)[|HEAD|..] == rest;
    assert fields[0] == ' ';
    WordIs(rest, 0, |s.mode|);
    assert rest[..|s.mode|] == s.mode && rest[|s.mode|..] == fields;
    DecodeTargetRoundTrip(s, tail);
    DecodeTailRoundTrip(s);
  }

  /** Two reports print the same line only if they are the same, up to an empty detail. */
  lemma LineIsInjective(s: Success, s': Success)
    requires ' ' !in s.mode && ' ' !in s'.mode && FormatSuccess(s) == FormatSuccess(s')
    ensures Normal(s) == Normal(s')
  {
    LineRoundTrip(s);
    LineRoundTrip(s');
  }

  lemma QuotedHasNoControls(value: string)
    ensures NoControls(Quoted(value))
  {
    EscapedHasNoControls(value);
    NoControlsConcat("\"", EscapeAll(value));
    NoControlsConcat("\"" + EscapeAll(value), "\"");
  }

  lemma {:induction false} TailHasNoControls(s: Success)
    ensures NoControls(Decimal(s.durationMs) + DetailField(s))
  {
    if s.detail.Some? {
      QuotedHasNoControls(s.detail.value);
      NoControlsConcat(DETAIL, Quoted(s.detail.value));
    }
    var digits := Decimal(s.durationMs);
    assert forall i | 0 <= i < |digits| :: IsDigit(digits[i]);
    NoControlsConcat(digits, DetailField(s));
  }

  lemma {:induction false} FieldsHaveNoControls(s: Success)
    ensures NoControls(TARGET + (Quoted(s.target) + (DURATION + (Decimal(s.durationMs) + DetailField(s)))))
  {
    TailHasNoControls(s);
    QuotedHasNoControls(s.target);
    var tail := Decimal(s.durationMs) + DetailField(s);
    NoControlsConcat(DURATION, tail);
    NoControlsConcat(Quoted(s.target), DURATION + tail);
    NoControlsConcat(TARGET, Quoted(s.target) + (DURATION + tail));
  }

  /** The report is a single line without raw control characters. */
  lemma {:induction false} LineHasNoControls(s: Success)
    requires NoControls(s.mode)
    ensures NoControls(FormatSuccess(s))
  {
    FieldsHaveNoControls(s);
    var fields := TARGET + (Quoted(s.target) + (DURATION + (Decimal(s.durationMs) + DetailField(s))));
    NoControlsConcat(s.mode, fields);
    NoControlsConcat(HEAD, s.mode + fields);
  }
}
