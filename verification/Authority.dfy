/** Validation of `host` and `host:port` authorities, section 3.2 of RFC 3986. */
module Authority {
  import opened Common

  datatype AuthorityError =
    | ForbiddenCharacter
    | NotAscii
    | UserInfo
    | PathQueryOrFragment
    | MisplacedBracket
    | MissingBracket
    | EmptyHost
    | NotIpv6
    | TextAfterBracket
    | BracketsRequired
    | PortNotInteger
    | PortOutOfRange
    | Unparsable
    | PortRequired

  /** The parsers of the standard library and of the HTTP library, of which nothing is assumed. */
  datatype Parsers = Parsers(isIpv6: string -> bool, host: string -> Option<string>)

  // -------------------------------------------------------------- characters

  predicate IsWhitespace(c: char) {
    var n := c as int;
    || 0x09 <= n <= 0x0D || n == 0x20 || n == 0x85 || n == 0xA0 || n == 0x1680 || 0x2000 <= n <= 0x200A
    || n == 0x2028 || n == 0x2029 || n == 0x202F || n == 0x205F || n == 0x3000
  }

  predicate IsForbidden(c: char) {
    c == '\\' || c == '"' || IsWhitespace(c) || IsControl(c)
  }

  predicate IsAscii(c: char) {
    c as int < 0x80
  }

  /** The first position of `c` at or after `from`, or the length of the text. */
  function Find(text: string, c: char, from: nat := 0): (at: nat)
    requires from <= |text|
    ensures from <= at <= |text|
    ensures at < |text| ==> text[at] == c
    ensures forall i | from <= i < at :: text[i] != c
    decreases |text| - from
  {
    if from == |text| || text[from] == c then from else Find(text, c, from + 1)
  }

  /** The position after the last `c` in the first `to` characters, or 0. */
  function FindLast(text: string, c: char, to: nat): (at: nat)
    requires to <= |text|
    ensures at <= to
    ensures at > 0 ==> text[at - 1] == c
    ensures forall i | at <= i < to :: text[i] != c
  {
    if to == 0 || text[to - 1] == c then to else FindLast(text, c, to - 1)
  }

  predicate HasDoubleColon(text: string) {
    exists i | 0 <= i < |text| - 1 :: text[i] == ':' && text[i + 1] == ':'
  }

  // ------------------------------------------------------------ the functions

  function ValidateAuthorityText(raw: string): Option<AuthorityError> {
    if exists i | 0 <= i < |raw| :: IsForbidden(raw[i]) then Some(ForbiddenCharacter)
    else if exists i | 0 <= i < |raw| :: !IsAscii(raw[i]) then Some(NotAscii)
    else None
  }

  function ValidateBracketedHost(raw: string, parsers: Parsers): Option<AuthorityError> {
    if raw == [] || raw[0] != '[' then
      if '[' in raw || ']' in raw then Some(MisplacedBracket) else None
    else
      var rest := raw[1..];
      var end := Find(rest, ']');
      if end == |rest| then Some(MissingBracket)
      else if end == 0 then Some(EmptyHost)
      else if !parsers.isIpv6(rest[..end]) then Some(NotIpv6)
      else
        var suffix := rest[end + 1..];
        if suffix != [] && suffix[0] != ':' then Some(TextAfterBracket) else None
  }

  predicate IsUnbracketedIpv6Authority(raw: string, parsers: Parsers) {
    if raw == [] || raw[0] == '[' || ':' !in raw then false
    else
      || parsers.isIpv6(raw)
      || parsers.isIpv6(raw[..Max(0, FindLast(raw, ':', |raw|) - 1)])
      || HasDoubleColon(raw)
  }

  predicate RawHostIsEmpty(raw: string) {
    if raw != [] && raw[0] == '[' then |raw| > 1 && raw[1] == ']'
    else raw == [] || raw[0] == ':'
  }

  function ExplicitPort(raw: string): Option<string> {
    if raw != [] && raw[0] == '[' then
      var rest := raw[1..];
      var end := Find(rest, ']');
      if end < |rest| && end + 1 < |rest| && rest[end + 1] == ':' then Some(rest[end + 2..]) else None
    else
      var at := Find(raw, ':');
      if at < |raw| then Some(raw[at + 1..]) else None
  }

  function ValidatePort(raw: string): Result<nat, AuthorityError> {
    if raw == [] || !AllDigits(raw) then Err(PortNotInteger)
    else if DecimalValue(raw) > 65535 || DecimalValue(raw) == 0 then Err(PortOutOfRange)
    else Ok(DecimalValue(raw))
  }

  function ValidateAuthority(raw: string, portRequired: bool, parsers: Parsers): Result<string, AuthorityError> {
    if ValidateAuthorityText(raw).Some? then Err(ValidateAuthorityText(raw).value)
    else if '@' in raw then Err(UserInfo)
    else if '/' in raw || '?' in raw || '#' in raw then Err(PathQueryOrFragment)
    else if ValidateBracketedHost(raw, parsers).Some? then Err(ValidateBracketedHost(raw, parsers).value)
    else if IsUnbracketedIpv6Authority(raw, parsers) then Err(BracketsRequired)
    else if RawHostIsEmpty(raw) then Err(EmptyHost)
    else
      var port := ExplicitPort(raw);
      if port.Some? && ValidatePort(port.value).Err? then Err(ValidatePort(port.value).error)
      else
        match parsers.host(raw)
        case None => Err(Unparsable)
        case Some(host) =>
          if host == [] then Err(EmptyHost)
          else if port.None? && portRequired then Err(PortRequired)
          else Ok(host)
  }

  // ------------------------------------------------------------- the grammar

  /** The host, in brackets or not, and the port if there is one. */
  datatype Parts = Plain(host: string, port: Option<string>) | Bracketed(inner: string, port: Option<string>)

  function Join(parts: Parts): string {
    (if parts.Plain? then parts.host else "[" + parts.inner + "]")
    + match parts.port case Some(port) => ":" + port case None => []
  }

  /** `parts` is the split of `raw` at the first colon outside brackets. */
  predicate Splits(raw: string, parts: Parts) {
    && raw == Join(parts)
    && match parts
       case Plain(host, _) => ':' !in host && (raw != [] ==> raw[0] != '[')
       case Bracketed(inner, _) => ']' !in inner
  }

  predicate ValidPort(port: string) {
    port != [] && AllDigits(port) && 1 <= DecimalValue(port) <= 65535
  }

  predicate ValidHost(parts: Parts, parsers: Parsers) {
    match parts
    case Bracketed(inner, _) => inner != [] && parsers.isIpv6(inner)
    case Plain(host, port) =>
      && host != [] && '[' !in host && ']' !in host
      && (port.Some? ==> !parsers.isIpv6(host) && !parsers.isIpv6(Join(parts)))
  }

  predicate CleanText(raw: string) {
    forall i | 0 <= i < |raw| :: 0x21 <= raw[i] as int <= 0x7E && raw[i] !in "\\\"@/?#"
  }

  predicate ValidParts(parts: Parts, portRequired: bool, parsers: Parsers) {
    && ValidHost(parts, parsers)
    && (parts.port.Some? ==> ValidPort(parts.port.value))
    && (portRequired ==> parts.port.Some?)
  }

  // ------------------------------------------------------------------- proofs

  lemma {:induction false} FindIs(text: string, c: char, from: nat, at: nat)
    requires from <= at <= |text| && (at < |text| ==> text[at] == c)
    requires forall i | from <= i < at :: text[i] != c
    ensures Find(text, c, from) == at
    decreases at - from
  {
    if from < at {
      FindIs(text, c, from + 1, at);
    }
  }

  lemma BracketedHostEnds(raw: string, parts: Parts)
    requires Splits(raw, parts) && parts.Bracketed?
    ensures |parts.inner| + 2 <= |raw| && raw[1..][..|parts.inner|] == parts.inner
    ensures Find(raw[1..], ']') == |parts.inner|
  {
    var inner, rest := parts.inner, raw[1..];
    assert raw[0] == '[' && raw[|inner| + 1] == ']';
    assert rest[..|inner|] == inner;
    assert forall i | 0 <= i < |inner| :: rest[i] == inner[i];
    FindIs(rest, ']', 0, |inner|);
  }

  /** Every function that looks at a part of an authority looks at the same split. */
  lemma FunctionsAgreeOnSplit(raw: string, parts: Parts)
    requires Splits(raw, parts)
    ensures ExplicitPort(raw) == parts.port
    ensures RawHostIsEmpty(raw) <==> if parts.Plain? then parts.host == [] else parts.inner == []
  {
    match parts
    case Plain(host, port) =>
      FindIs(raw, ':', 0, |host|);
      if port.Some? {
        assert raw[|host| + 1..] == port.value;
      } else {
        assert raw == host;
      }
    case Bracketed(inner, port) =>
      var rest := raw[1..];
      BracketedHostEnds(raw, parts);
      if port.Some? {
        assert rest[|inner| + 2..] == port.value;
      }
  }

  lemma SplitIsUnique(raw: string, parts: Parts, parts': Parts)
    requires Splits(raw, parts) && Splits(raw, parts')
    ensures parts == parts'
  {
    FunctionsAgreeOnSplit(raw, parts);
    FunctionsAgreeOnSplit(raw, parts');
    match parts
    case Plain(host, _) =>
      FindIs(raw, ':', 0, |host|);
      FindIs(raw, ':', 0, |parts'.host|);
      assert host == raw[..|host|] == parts'.host;
    case Bracketed(_, _) =>
      BracketedHostEnds(raw, parts);
      BracketedHostEnds(raw, parts');
  }

  lemma BracketedSplits(raw: string, end: nat)
    requires raw != [] && raw[0] == '[' && end + 1 < |raw| && Find(raw[1..], ']') == end
    requires end + 2 < |raw| ==> raw[end + 2] == ':'
    ensures Splits(raw, Bracketed(raw[1..end + 1], ExplicitPort(raw)))
  {
    var rest := raw[1..];
    var inner := raw[1..end + 1];
    assert rest[end] == ']' && forall i | 0 <= i < end :: rest[i] == inner[i];
    if end + 2 < |raw| {
      assert rest[end + 2..] == raw[end + 3..];
      assert raw == "[" + inner + "]" + (":" + raw[end + 3..]);
    } else {
      assert raw == "[" + inner + "]" + [];
    }
  }

  lemma PlainSplits(raw: string)
    requires raw != [] ==> raw[0] != '['
    ensures Splits(raw, Plain(raw[..Find(raw, ':')], ExplicitPort(raw)))
  {
    var at := Find(raw, ':');
    if at < |raw| {
      assert raw == raw[..at] + (":" + raw[at + 1..]);
    } else {
      assert raw == raw[..at] + [];
    }
  }

  /** The split of a text that the bracket check lets through. */
  function SplitOf(raw: string, parsers: Parsers): (parts: Parts)
    requires ValidateBracketedHost(raw, parsers).None?
    ensures Splits(raw, parts)
  {
    if raw != [] && raw[0] == '[' then
      var end := Find(raw[1..], ']');
      BracketedSplits(raw, end);
      Bracketed(raw[1..end + 1], ExplicitPort(raw))
    else
      PlainSplits(raw);
      Plain(raw[..Find(raw, ':')], ExplicitPort(raw))
  }

  /** The bracket check lets exactly these splits through. */
  lemma BracketCheckOnSplit(raw: string, parts: Parts, parsers: Parsers)
    requires Splits(raw, parts)
    ensures ValidateBracketedHost(raw, parsers).None? <==>
            match parts
            case Plain(_, _) => '[' !in raw && ']' !in raw
            case Bracketed(inner, _) => inner != [] && parsers.isIpv6(inner)
  {
    if parts.Bracketed? {
      BracketedHostEnds(raw, parts);
    }
  }

  lemma CleanTextIs(raw: string)
    ensures CleanText(raw) <==>
            ValidateAuthorityText(raw).None? && '@' !in raw && '/' !in raw && '?' !in raw && '#' !in raw
  {
  }

  /** A plain host with a valid port looks like an unbracketed IPv6 address only to the address parser. */
  lemma UnbracketedCheckOnSplit(raw: string, parts: Parts, parsers: Parsers)
    requires Splits(raw, parts) && parts.Plain? && parts.host != []
    requires parts.port.Some? ==> ':' !in parts.port.value && parts.port.value != []
    ensures IsUnbracketedIpv6Authority(raw, parsers) <==>
            parts.port.Some? && (parsers.isIpv6(raw) || parsers.isIpv6(parts.host))
  {
    if parts.port.Some? {
      var at := FindLast(raw, ':', |raw|);
      assert raw[|parts.host|] == ':';
      assert forall i | |parts.host| < i < |raw| :: raw[i] == parts.port.value[i - |parts.host| - 1];
      assert at == |parts.host| + 1;
      assert raw[..|parts.host|] == parts.host;
      assert forall i | 0 <= i < |parts.host| :: raw[i] == parts.host[i];
    } else {
      assert raw == parts.host;
    }
  }

  lemma ValidPortIs(port: string)
    ensures ValidatePort(port).Ok? <==> ValidPort(port)
    ensures ValidPort(port) ==> ':' !in port && '[' !in port && ']' !in port
  {
  }

  /** Exactly the authorities that can be put together from a non-empty host and an optional
      port in range, without any other colon, are accepted; the split is unique. */
  lemma AcceptsExactlyTheGrammar(raw: string, portRequired: bool, parsers: Parsers)
    ensures ValidateAuthority(raw, portRequired, parsers).Ok? <==>
            && CleanText(raw)
            && (exists parts :: Splits(raw, parts) && ValidParts(parts, portRequired, parsers))
            && parsers.host(raw).Some? && parsers.host(raw).value != []
    ensures ValidateAuthority(raw, portRequired, parsers).Ok? ==>
              Some(ValidateAuthority(raw, portRequired, parsers).value) == parsers.host(raw)
  {
    CleanTextIs(raw);
    if ValidateAuthority(raw, portRequired, parsers).Ok? {
      var parts := SplitOf(raw, parsers);
      FunctionsAgreeOnSplit(raw, parts);
      AcceptedParts(raw, parts, portRequired, parsers);
      assert Splits(raw, parts) && ValidParts(parts, portRequired, parsers);
    }
    if exists parts :: Splits(raw, parts) && ValidParts(parts, portRequired, parsers) {
      var parts :| Splits(raw, parts) && ValidParts(parts, portRequired, parsers);
      FunctionsAgreeOnSplit(raw, parts);
      AcceptedParts(raw, parts, portRequired, parsers);
    }
  }

  /** The text is an IPv6 address, or one and a port, without brackets, or has two colons in a row. */
  ghost predicate LooksLikeIpv6(raw: string, parsers: Parsers) {
    && ':' in raw && raw[0] != '['
    && (|| parsers.isIpv6(raw)
        || (exists host, port :: raw == host + ":" + port && ':' !in port && parsers.isIpv6(host))
        || (exists front, back :: raw == front + "::" + back))
  }

  lemma {:induction false} FindLastIs(text: string, c: char, end: nat, at: nat)
    requires 0 < at <= end <= |text| && text[at - 1] == c && forall i | at <= i < end :: text[i] != c
    ensures FindLast(text, c, end) == at
    decreases end
  {
    if at < end {
      FindLastIs(text, c, end - 1, at);
    }
  }

  lemma {:induction false} HasDoubleColonIs(text: string)
    ensures HasDoubleColon(text) <==> exists front, back :: text == front + "::" + back
  {
    if HasDoubleColon(text) {
      var i :| 0 <= i < |text| - 1 && text[i] == ':' && text[i + 1] == ':';
      assert text == text[..i] + "::" + text[i + 2..];
    }
    if exists front, back :: text == front + "::" + back {
      var front, back :| text == front + "::" + back;
      assert text[|front|] == ':' && text[|front| + 1] == ':';
    }
  }

  lemma {:induction false} LastColonIs(raw: string, parsers: Parsers)
    requires ':' in raw
    ensures parsers.isIpv6(raw[..Max(0, FindLast(raw, ':', |raw|) - 1)]) <==>
            exists host, port :: raw == host + ":" + port && ':' !in port && parsers.isIpv6(host)
  {
    var at := FindLast(raw, ':', |raw|);
    assert at > 0;
    assert raw == raw[..at - 1] + ":" + raw[at..] && ':' !in raw[at..];
    forall host, port | raw == host + ":" + port && ':' !in port
      ensures host == raw[..at - 1]
    {
      assert forall i | |host| < i < |raw| :: raw[i] == port[i - |host| - 1];
      FindLastIs(raw, ':', |raw|, |host| + 1);
    }
  }

  lemma {:induction false} UnbracketedIpv6Is(raw: string, parsers: Parsers)
    ensures IsUnbracketedIpv6Authority(raw, parsers) <==> LooksLikeIpv6(raw, parsers)
  {
    if ':' in raw && raw[0] != '[' {
      LastColonIs(raw, parsers);
      HasDoubleColonIs(raw);
    }
  }

  predicate BracketsFit(raw: string, parts: Parts, parsers: Parsers) {
    match parts
    case Plain(_, _) => '[' !in raw && ']' !in raw
    case Bracketed(inner, _) => inner != [] && parsers.isIpv6(inner)
  }

  /** The host of the split is one, and is not mistaken for an address. */
  ghost predicate HostFits(raw: string, parts: Parts, parsers: Parsers) {
    CleanText(raw) && BracketsFit(raw, parts, parsers) && !IsUnbracketedIpv6Authority(raw, parsers)
    && (parts.Plain? ==> parts.host != [])
  }

  /** What each error says of a text with a given split: the checks made before hold, and the one it names does not. */
  ghost predicate ErrorHolds(error: AuthorityError, raw: string, portRequired: bool, parsers: Parsers, parts: Parts) {
    match error
    case ForbiddenCharacter => exists i | 0 <= i < |raw| :: IsForbidden(raw[i])
    case NotAscii =>
      (exists i | 0 <= i < |raw| :: raw[i] as int >= 0x80) && forall i | 0 <= i < |raw| :: !IsForbidden(raw[i])
    case UserInfo => '@' in raw && ValidateAuthorityText(raw).None?
    case PathQueryOrFragment =>
      ('/' in raw || '?' in raw || '#' in raw) && '@' !in raw && ValidateAuthorityText(raw).None?
    case MisplacedBracket => CleanText(raw) && parts.Plain? && ('[' in raw || ']' in raw)
    case MissingBracket => false
    case TextAfterBracket => false
    case NotIpv6 => CleanText(raw) && parts.Bracketed? && parts.inner != [] && !parsers.isIpv6(parts.inner)
    case BracketsRequired =>
      CleanText(raw) && BracketsFit(raw, parts, parsers) && IsUnbracketedIpv6Authority(raw, parsers)
    case EmptyHost =>
      && CleanText(raw)
      && (if parts.Bracketed? && parts.inner == [] then true
          else if parts.Plain? && parts.host == [] then
            BracketsFit(raw, parts, parsers) && !IsUnbracketedIpv6Authority(raw, parsers)
          else
            && HostFits(raw, parts, parsers) && (parts.port.Some? ==> ValidPort(parts.port.value))
            && parsers.host(raw) == Some([]))
    case PortNotInteger =>
      && HostFits(raw, parts, parsers) && parts.port.Some?
      && (parts.port.value == [] || !AllDigits(parts.port.value))
    case PortOutOfRange =>
      && HostFits(raw, parts, parsers) && parts.port.Some?
      && parts.port.value != [] && AllDigits(parts.port.value) && !(1 <= DecimalValue(parts.port.value) <= 65535)
    case Unparsable =>
      && HostFits(raw, parts, parsers) && (parts.port.Some? ==> ValidPort(parts.port.value))
      && parsers.host(raw).None?
    case PortRequired =>
      && HostFits(raw, parts, parsers) && parts.port.None? && portRequired
      && parsers.host(raw).Some? && parsers.host(raw).value != []
  }

  lemma {:induction false} PastHostChecks(raw: string, portRequired: bool, parsers: Parsers)
    requires ValidateAuthorityText(raw).None? && '@' !in raw && '/' !in raw && '?' !in raw && '#' !in raw
    requires ValidateBracketedHost(raw, parsers).None? && !IsUnbracketedIpv6Authority(raw, parsers)
    requires !RawHostIsEmpty(raw)
    ensures var r, port := ValidateAuthority(raw, portRequired, parsers), ExplicitPort(raw);
            if port.Some? && ValidatePort(port.value).Err? then r == Err(ValidatePort(port.value).error)
            else if parsers.host(raw).None? then r == Err(Unparsable)
            else if parsers.host(raw) == Some([]) then r == Err(EmptyHost)
            else if port.None? && portRequired then r == Err(PortRequired)
            else r.Ok?
  {
  }

  lemma {:induction false} LateErrorIsFirst(raw: string, portRequired: bool, parsers: Parsers, parts: Parts)
    requires Splits(raw, parts) && HostFits(raw, parts, parsers)
    requires ValidateAuthority(raw, portRequired, parsers).Err?
    ensures ErrorHolds(ValidateAuthority(raw, portRequired, parsers).error, raw, portRequired, parsers, parts)
  {
    HostChecksPass(raw, parts, parsers);
    PastHostChecks(raw, portRequired, parsers);
    FunctionsAgreeOnSplit(raw, parts);
    PortErrorIs(parts);
  }

  lemma {:induction false} HostChecksPass(raw: string, parts: Parts, parsers: Parsers)
    requires Splits(raw, parts) && HostFits(raw, parts, parsers)
    ensures ValidateAuthorityText(raw).None? && '@' !in raw && '/' !in raw && '?' !in raw && '#' !in raw
    ensures ValidateBracketedHost(raw, parsers).None? && !RawHostIsEmpty(raw)
  {
    CleanTextIs(raw);
    FunctionsAgreeOnSplit(raw, parts);
    BracketErrorIs(raw, parts, parsers);
  }

  /** The error reported of a text that splits is the first, in the order of the checks, that is wrong with it. */
  lemma {:induction false} ErrorIsFirst(raw: string, portRequired: bool, parsers: Parsers, parts: Parts)
    requires Splits(raw, parts)
    requires ValidateAuthority(raw, portRequired, parsers).Err?
    ensures ErrorHolds(ValidateAuthority(raw, portRequired, parsers).error, raw, portRequired, parsers, parts)
  {
    if HostFits(raw, parts, parsers) {
      LateErrorIsFirst(raw, portRequired, parsers, parts);
    } else {
      CleanTextIs(raw);
      FunctionsAgreeOnSplit(raw, parts);
      BracketErrorIs(raw, parts, parsers);
    }
  }

  lemma {:induction false} BracketErrorIs(raw: string, parts: Parts, parsers: Parsers)
    requires Splits(raw, parts)
    ensures ValidateBracketedHost(raw, parsers) ==
            if BracketsFit(raw, parts, parsers) then None
            else if parts.Plain? then Some(MisplacedBracket)
            else if parts.inner == [] then Some(EmptyHost)
            else Some(NotIpv6)
  {
    if parts.Bracketed? {
      BracketedHostEnds(raw, parts);
    }
  }

  lemma PortErrorIs(parts: Parts)
    ensures parts.port.Some? ==>
              var port := parts.port.value;
              if port == [] || !AllDigits(port) then ValidatePort(port) == Err(PortNotInteger)
              else if !(1 <= DecimalValue(port) <= 65535) then ValidatePort(port) == Err(PortOutOfRange)
              else ValidatePort(port).Ok?
  {
  }

  lemma AcceptedBracketed(raw: string, parts: Parts, parsers: Parsers)
    requires Splits(raw, parts) && parts.Bracketed?
    ensures ValidHost(parts, parsers) <==>
            && ValidateBracketedHost(raw, parsers).None?
            && !IsUnbracketedIpv6Authority(raw, parsers)
            && !RawHostIsEmpty(raw)
  {
    FunctionsAgreeOnSplit(raw, parts);
    BracketCheckOnSplit(raw, parts, parsers);
  }

  lemma AcceptedPlain(raw: string, parts: Parts, parsers: Parsers)
    requires Splits(raw, parts) && parts.Plain?
    requires parts.port.Some? ==> ValidPort(parts.port.value)
    ensures ValidHost(parts, parsers) <==>
            && ValidateBracketedHost(raw, parsers).None?
            && !IsUnbracketedIpv6Authority(raw, parsers)
            && !RawHostIsEmpty(raw)
  {
    FunctionsAgreeOnSplit(raw, parts);
    BracketCheckOnSplit(raw, parts, parsers);
    if parts.host != [] {
      if parts.port.Some? {
        ValidPortIs(parts.port.value);
        NoBracketsInJoin(parts.host, parts.port.value);
      }
      UnbracketedCheckOnSplit(raw, parts, parsers);
    }
  }

  lemma NoBracketsInJoin(host: string, port: string)
    requires '[' !in port && ']' !in port
    ensures '[' in host + (":" + port) <==> '[' in host
    ensures ']' in host + (":" + port) <==> ']' in host
  {
  }

  /** On a given split, the checks in the order the code makes them amount to the parts being valid. */
  lemma AcceptedParts(raw: string, parts: Parts, portRequired: bool, parsers: Parsers)
    requires Splits(raw, parts)
    ensures ValidParts(parts, portRequired, parsers) <==>
            && ValidateBracketedHost(raw, parsers).None?
            && !IsUnbracketedIpv6Authority(raw, parsers)
            && !RawHostIsEmpty(raw)
            && (parts.port.Some? ==> ValidatePort(parts.port.value).Ok?)
            && (portRequired ==> parts.port.Some?)
  {
    if parts.port.Some? {
      ValidPortIs(parts.port.value);
    }
    if parts.port.Some? ==> ValidPort(parts.port.value) {
      if parts.Plain? {
        AcceptedPlain(raw, parts, parsers);
      } else {
        AcceptedBracketed(raw, parts, parsers);
      }
    }
  }
}
