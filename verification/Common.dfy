/** Types shared by every component of the model. */
module Common {
  newtype Byte = b: int | 0 <= b < 256
  type Bytes = seq<Byte>

  /** Bytes asked of a stream by one read. */
  const READ_SIZE: nat := 4096

  datatype Option<+T> = None | Some(value: T)

  datatype Result<+T, +E> = Ok(value: T) | Err(error: E)

  /** An operating-system string: text, or bytes that are no UTF-8. */
  datatype OsText = Text(text: string) | NotUtf8(bytes: Bytes)

  function Min(a: int, b: int): int { if a <= b then a else b }

  function Max(a: int, b: int): int { if a >= b then a else b }

  predicate IsDigit(c: char) { '0' <= c <= '9' }

  predicate AllDigits(text: string) {
    forall i | 0 <= i < |text| :: IsDigit(text[i])
  }

  function DecimalValue(text: string): nat
    requires AllDigits(text)
  {
    if text == [] then 0
    else
      assert IsDigit(text[|text| - 1]);
      10 * DecimalValue(text[..|text| - 1]) + (text[|text| - 1] as int - '0' as int)
  }

  /** The control characters of Unicode. */
  predicate IsControl(c: char) {
    c as int < 0x20 || 0x7F <= c as int < 0xA0
  }

  /** The first `n` elements of `s`, or all of `s` when it is shorter. */
  function First<T>(s: seq<T>, n: nat): seq<T> {
    if |s| <= n then s else s[..n]
  }

  /** Truncating a prefix gives a prefix of the truncated whole. */
  lemma FirstOfPrefix<T>(a: seq<T>, b: seq<T>, n: nat)
    requires a <= b
    ensures First(a, n) <= First(b, n) <= b
    ensures |a| >= n ==> First(a, n) == First(b, n)
  {
  }
}
