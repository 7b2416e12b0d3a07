/** Checks on raw URI text. */
module UriText {
  import opened Common
  import opened Authority

  const PERCENT: Byte := 0x25

  predicate IsHexDigit(b: Byte) {
    0x30 <= b <= 0x39 || 0x41 <= b <= 0x46 || 0x61 <= b <= 0x66
  }

  /** Section 2.1 of RFC 3986: a percent sign and two hexadecimal digits. */
  predicate IsEscape(bytes: Bytes, i: nat) {
    i + 2 < |bytes| && bytes[i] == PERCENT && IsHexDigit(bytes[i + 1]) && IsHexDigit(bytes[i + 2])
  }

  lemma HexDigitIs(b: Byte)
    ensures IsHexDigit(b) <==> b as int as char in "0123456789ABCDEFabcdef"
  {
  }

  method Position(bytes: Bytes, from: nat) returns (at: Option<nat>)
    requires from <= |bytes|
    ensures at.Some? ==> from <= at.value < |bytes| && bytes[at.value] == PERCENT
    ensures at.Some? ==> forall i | from <= i < at.value :: bytes[i] != PERCENT
    ensures at.None? ==> forall i | from <= i < |bytes| :: bytes[i] != PERCENT
  {
    var i := from;
    while i < |bytes|
      invariant from <= i <= |bytes| && forall j | from <= j < i :: bytes[j] != PERCENT
    {
      if bytes[i] == PERCENT {
        return Some(i);
      }
      i := i + 1;
    }
    return None;
  }

  /** Jumps over each escape it accepts, yet accepts exactly the texts whose every percent sign starts one. */
  method ValidatePercentEncoding(bytes: Bytes) returns (valid: bool)
    ensures valid <==> forall i | 0 <= i < |bytes| && bytes[i] as int == '%' as int :: IsEscape(bytes, i)
  {
    var index := 0;
    while true
      invariant 0 <= index <= |bytes|
      invariant forall i | 0 <= i < index && bytes[i] == PERCENT :: IsEscape(bytes, i)
      decreases |bytes| - index
    {
      var found := Position(bytes, index);
      if found.None? {
        return true;
      }
      var percent := found.value;
      var valid := && percent + 1 < |bytes| && IsHexDigit(bytes[percent + 1])
                   && percent + 2 < |bytes| && IsHexDigit(bytes[percent + 2]);
      if !valid {
        return false;
      }
      index := percent + 3;
    }
  }

  // ------------------------------------------------------------ URL authority

  predicate EndsAuthority(c: char) {
    c == '/' || c == '?' || c == '#'
  }

  /** The first position at or after `from` of a character that ends an authority, or the length of the text. */
  function AuthorityEnd(text: string, from: nat := 0): (at: nat)
    requires from <= |text|
    ensures from <= at <= |text|
    ensures at < |text| ==> EndsAuthority(text[at])
    ensures forall i | from <= i < at :: !EndsAuthority(text[i])
    decreases |text| - from
  {
    if from == |text| || EndsAuthority(text[from]) then from else AuthorityEnd(text, from + 1)
  }

  function RawUrlAuthority(rawUrl: string): Option<string> {
    var colon := Find(rawUrl, ':');
    if colon == |rawUrl| then None
    else
      var rest := rawUrl[colon + 1..];
      if !("//" <= rest) then None else Some(rest[2..][..AuthorityEnd(rest[2..])])
  }

  /** The generic syntax of section 3 of RFC 3986, with a hierarchical part that has an authority. */
  predicate IsUrl(rawUrl: string, scheme: string, authority: string, tail: string) {
    && rawUrl == scheme + "://" + authority + tail
    && ':' !in scheme
    && '/' !in authority && '?' !in authority && '#' !in authority
    && (tail != [] ==> tail[0] == '/' || tail[0] == '?' || tail[0] == '#')
  }

  /** The authority found is the one the URL is written with. */
  lemma {:induction false} AuthorityIsFoundExactly(rawUrl: string, authority: string)
    ensures RawUrlAuthority(rawUrl) == Some(authority) <==>
            exists scheme, tail :: IsUrl(rawUrl, scheme, authority, tail)
  {
    if RawUrlAuthority(rawUrl) == Some(authority) {
      var colon := Find(rawUrl, ':');
      var after := rawUrl[colon + 1..][2..];
      var tail := after[|authority|..];
      assert rawUrl == rawUrl[..colon] + "://" + authority + tail;
      assert IsUrl(rawUrl, rawUrl[..colon], authority, tail);
    }
    if exists scheme, tail :: IsUrl(rawUrl, scheme, authority, tail) {
      var scheme, tail :| IsUrl(rawUrl, scheme, authority, tail);
      UrlHasAuthority(rawUrl, scheme, authority, tail);
    }
  }

  lemma {:induction false} AuthorityEndIs(text: string, from: nat, at: nat)
    requires from <= at <= |text| && (at < |text| ==> EndsAuthority(text[at]))
    requires forall i | from <= i < at :: !EndsAuthority(text[i])
    ensures AuthorityEnd(text, from) == at
    decreases at - from
  {
    if from < at {
      AuthorityEndIs(text, from + 1, at);
    }
  }

  lemma UrlHasAuthority(rawUrl: string, scheme: string, authority: string, tail: string)
    requires IsUrl(rawUrl, scheme, authority, tail)
    ensures RawUrlAuthority(rawUrl) == Some(authority)
  {
    assert rawUrl[|scheme|] == ':' && forall i | 0 <= i < |scheme| :: rawUrl[i] == scheme[i];
    FindIs(rawUrl, ':', 0, |scheme|);
    var after := authority + tail;
    assert rawUrl[|scheme| + 1..] == "//" + after;
    assert ("//" + after)[2..] == after;
    AuthorityEndIs(after, 0, |authority|);
    assert after[..|authority|] == authority;
  }

  datatype UrlError =
    | NoDoubleSlash
    | NoHost
    | UserInfoGiven
    | BracketsMissing
    | BadPort
    | BadAuthority(error: AuthorityError)

  function ValidateRawHttpUrlAuthority(rawUrl: string, parsers: Parsers): Option<UrlError> {
    match RawUrlAuthority(rawUrl)
    case None => Some(NoDoubleSlash)
    case Some(authority) =>
      var port := ExplicitPort(authority);
      if authority == [] then Some(NoHost)
      else if '@' in authority then Some(UserInfoGiven)
      else if IsUnbracketedIpv6Authority(authority, parsers) then Some(BracketsMissing)
      else if RawHostIsEmpty(authority) then Some(NoHost)
      else if port.Some? && (port.value == [] || ValidatePort(port.value).Err?) then Some(BadPort)
      else
        match ValidateAuthority(authority, false, parsers)
        case Err(e) => Some(BadAuthority(e))
        case Ok(_) => None
  }

  /** The checks made before the authority's own validation choose the error, never the outcome: a URL
      is let through exactly when it is written with an authority that is valid with an optional port. */
  lemma {:induction false} UrlIsAcceptedExactlyWhen(rawUrl: string, parsers: Parsers)
    ensures ValidateRawHttpUrlAuthority(rawUrl, parsers).None? <==>
            exists scheme, authority, tail ::
              IsUrl(rawUrl, scheme, authority, tail) && ValidateAuthority(authority, false, parsers).Ok?
  {
    var found := RawUrlAuthority(rawUrl);
    if found.Some? {
      AuthorityIsFoundExactly(rawUrl, found.value);
    }
    if exists scheme, authority, tail ::
        IsUrl(rawUrl, scheme, authority, tail) && ValidateAuthority(authority, false, parsers).Ok? {
      var scheme, authority, tail :|
        IsUrl(rawUrl, scheme, authority, tail) && ValidateAuthority(authority, false, parsers).Ok?;
      UrlHasAuthority(rawUrl, scheme, authority, tail);
      ValidAuthorityPassesUrlChecks(authority, parsers);
    }
  }

  lemma ValidAuthorityPassesUrlChecks(authority: string, parsers: Parsers)
    requires ValidateAuthority(authority, false, parsers).Ok?
    ensures authority != [] && '@' !in authority
    ensures !IsUnbracketedIpv6Authority(authority, parsers) && !RawHostIsEmpty(authority)
    ensures var port := ExplicitPort(authority); port.Some? ==> port.value != [] && ValidatePort(port.value).Ok?
  {
  }
}
