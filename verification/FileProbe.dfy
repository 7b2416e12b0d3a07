/** The file probe's content check: a chunked read with an early exit. */
module FileProbe {
  import opened Common
  import opened TextMatch
  import opened Capture

  datatype ReadError = IoError

  /** A file that does not change while it is read. A read returns some
      non-empty piece of what is left, nothing at the end, or an error. */
  class File {
    const content: Bytes
    const sizes: nat -> nat
    const failsAt: Option<nat>
    var position: nat

    ghost predicate Valid()
      reads this
    {
      position <= |content|
    }

    constructor (content: Bytes, sizes: nat -> nat, failsAt: Option<nat>)
      ensures this.content == content && position == 0 && this.failsAt == failsAt
    {
      this.content, this.sizes, this.failsAt, position := content, sizes, failsAt, 0;
    }

    method Read() returns (r: Result<Bytes, ReadError>)
      requires Valid()
      modifies this
      ensures Valid()
      ensures r.Ok? ==> |r.value| <= READ_SIZE && content[..position] == content[..old(position)] + r.value
      ensures r.Ok? ==> (r.value == [] <==> old(position) == |content|)
      ensures r.Ok? ==> position == old(position) + |r.value|
      ensures r.Err? <==> failsAt == Some(old(position))
      ensures r.Err? ==> position == old(position)
    {
      if failsAt == Some(position) {
        return Err(IoError);
      }
      var size := Min(|content| - position, Max(1, Min(READ_SIZE, sizes(position))));
      r := Ok(content[position..position + size]);
      position := position + size;
    }
  }

  /** The captured bytes, and whether anything beyond `limit` was seen. */
  datatype FileBody = FileBody(bytes: Bytes, incomplete: bool)

  method ReadFile(file: File, limit: nat, requiredTexts: seq<Bytes>) returns (r: Result<FileBody, ReadError>)
    requires file.Valid() && file.position == 0
    modifies file
    ensures r.Err? ==> exists n | 0 <= n <= Min(limit, |file.content|) ::
              && file.failsAt == Some(n)
              && (n > 0 ==> requiredTexts == [] || !ContainsAll(file.content[..n], requiredTexts))
    ensures r.Ok? ==> exists n | 0 <= n <= |file.content| ::
              && Captured(r.value.bytes, r.value.incomplete, file.content[..n], limit)
              && (|| n == |file.content| || n > limit
                  || (requiredTexts != [] && ContainsAll(r.value.bytes, requiredTexts)))
  {
    var body := new CaptureBuffer();
    var matcher := new TextMatcher(requiredTexts);
    while true
      invariant file.Valid()
      invariant Captured(body.bytes, body.incomplete, file.content[..file.position], limit)
      invariant matcher.needles == requiredTexts && matcher.Tracks(body.bytes)
      invariant !body.incomplete
      invariant file.position > 0 ==> requiredTexts == [] || !ContainsAll(body.bytes, requiredTexts)
      decreases |file.content| - file.position
    {
      var read := file.Read();
      if read.Err? {
        assert body.bytes == file.content[..file.position];
        return Err(read.error);
      }
      if read.value == [] {
        break;
      }
      var previousLen := body.AppendLimited(read.value, limit);
      matcher.ObserveAppended(body.bytes, previousLen);
      var all := matcher.AllMatched(body.bytes);
      if (requiredTexts != [] && all) || body.incomplete {
        break;
      }
    }
    r := Ok(FileBody(body.bytes, body.incomplete));
  }

  datatype Verdict = Pass | Missing(index: nat) | Truncated(index: nat) | ReadFailed

  /** Passes exactly when every text is in the first `limit` bytes, however the reads
      are cut; plain absence is only reported of a file read whole, and truncation
      only of a file longer than the limit; the first missing text is named; and a read
      error is only reported where the bytes before it did not settle the check. */
  method CheckContents(file: File, limit: nat, contains: seq<Bytes>) returns (verdict: Verdict)
    requires file.Valid() && file.position == 0
    modifies file
    ensures !verdict.ReadFailed? ==> (verdict.Pass? <==> ContainsAll(First(file.content, limit), contains))
    ensures verdict.Missing? ==>
              && |file.content| <= limit && verdict.index < |contains|
              && !Contains(file.content, contains[verdict.index])
              && ContainsAll(file.content, contains[..verdict.index])
    ensures verdict.Truncated? ==>
              && |file.content| > limit && verdict.index < |contains|
              && !Contains(First(file.content, limit), contains[verdict.index])
              && ContainsAll(First(file.content, limit), contains[..verdict.index])
    ensures verdict.ReadFailed? ==> contains != [] && exists n | 0 <= n <= Min(limit, |file.content|) ::
              file.failsAt == Some(n) && (n > 0 ==> !ContainsAll(file.content[..n], contains))
  {
    if contains == [] {
      return Pass;
    }
    var r := ReadFile(file, limit, contains);
    if r.Err? {
      return ReadFailed;
    }
    ghost var n :| 0 <= n <= |file.content|
                   && Captured(r.value.bytes, r.value.incomplete, file.content[..n], limit)
                   && (n == |file.content| || n > limit || ContainsAll(r.value.bytes, contains));
    FirstOfPrefix(file.content[..n], file.content, limit);
    ContainsAllExtends(r.value.bytes, First(file.content, limit), contains);
    var i := 0;
    while i < |contains|
      invariant 0 <= i <= |contains|
      invariant forall j | 0 <= j < i :: Contains(r.value.bytes, contains[j])
    {
      if !Contains(r.value.bytes, contains[i]) {
        assert r.value.bytes == First(file.content, limit);
        return if r.value.incomplete then Truncated(i) else Missing(i);
      }
      i := i + 1;
    }
    return Pass;
  }
}
