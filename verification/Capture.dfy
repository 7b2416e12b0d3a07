/** The bounded capture buffer: keeps the first `limit` bytes of a stream and
    remembers whether anything was dropped. */
module Capture {
  import opened Common

  /** What a capture of the stream read so far must look like. */
  ghost predicate Captured(bytes: Bytes, incomplete: bool, read: Bytes, limit: nat) {
    bytes == First(read, limit) && (incomplete <==> |read| > limit)
  }

  class CaptureBuffer {
    var bytes: Bytes
    var incomplete: bool

    constructor ()
      ensures bytes == [] && !incomplete
      ensures forall limit: nat :: Captured(bytes, incomplete, [], limit)
    {
      bytes := [];
      incomplete := false;
    }

    /** Works for any fill level, also a buffer already longer than `limit`. */
    method AppendLimited(chunk: Bytes, limit: nat) returns (previousLen: nat)
      modifies this
      ensures previousLen == |old(bytes)|
      ensures bytes == First(old(bytes) + chunk, Max(limit, |old(bytes)|))
      ensures incomplete == (old(incomplete) || |old(bytes)| + |chunk| > Max(limit, |old(bytes)|))
      ensures First(bytes, previousLen) == old(bytes)
      ensures forall read: Bytes :: old(Captured(bytes, incomplete, read, limit)) ==>
                Captured(bytes, incomplete, read + chunk, limit)
    {
      ghost var before := bytes;
      ghost var wasIncomplete := incomplete;
      previousLen := |bytes|;
      if |bytes| < limit {
        var remaining := limit - |bytes|;
        if |chunk| > remaining {
          incomplete := true;
        }
        bytes := bytes + chunk[..Min(|chunk|, remaining)];
      } else if chunk != [] {
        incomplete := true;
      }
      forall read: Bytes | Captured(before, wasIncomplete, read, limit)
        ensures Captured(bytes, incomplete, read + chunk, limit)
      {
        CaptureStep(before, wasIncomplete, read, chunk, limit);
      }
    }

    method MarkIncomplete()
      modifies this`incomplete
      ensures incomplete
    {
      incomplete := true;
    }
  }

  lemma CaptureStep(bytes: Bytes, incomplete: bool, read: Bytes, chunk: Bytes, limit: nat)
    requires Captured(bytes, incomplete, read, limit)
    ensures Captured(First(bytes + chunk, Max(limit, |bytes|)),
                     incomplete || |bytes| + |chunk| > Max(limit, |bytes|), read + chunk, limit)
  {
  }
}
