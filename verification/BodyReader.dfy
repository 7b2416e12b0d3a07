/** Reading a bounded, possibly unfinished HTTP body, frame by frame, until the assertions are decided. */
module BodyReader {
  import opened Common
  import opened TextMatch
  import opened Capture
  import opened BodyAssertion

  // --------------------------------------------------------------- body stream

  datatype SizeHint = SizeHint(lower: nat, upper: Option<nat>) {
    function Exact(): Option<nat> {
      if upper == Some(lower) then upper else None
    }
  }

  datatype Frame = Data(bytes: Bytes) | Trailers

  function DataOf(frames: seq<Frame>): Bytes {
    if frames == [] then []
    else
      var last := frames[|frames| - 1];
      DataOf(frames[..|frames| - 1]) + if last.Data? then last.bytes else []
  }

  predicate Silent(frames: seq<Frame>) {
    forall i | 0 <= i < |frames| :: frames[i].Data? ==> frames[i].bytes == []
  }

  lemma {:induction false} DataOfConcat(front: seq<Frame>, back: seq<Frame>)
    ensures DataOf(front + back) == DataOf(front) + DataOf(back)
  {
    if back == [] {
      assert front + back == front;
    } else {
      var all := front + back;
      assert all[..|all| - 1] == front + back[..|back| - 1];
      DataOfConcat(front, back[..|back| - 1]);
    }
  }

  lemma {:induction false} SilentHasNoData(frames: seq<Frame>)
    ensures Silent(frames) <==> DataOf(frames) == []
  {
    if frames != [] {
      var front := frames[..|frames| - 1];
      SilentHasNoData(front);
      assert forall i | 0 <= i < |front| :: front[i] == frames[i];
    }
  }

  lemma {:induction false} PrefixDataIsPrefix(frames: seq<Frame>, n: nat)
    requires n <= |frames|
    ensures DataOf(frames[..n]) <= DataOf(frames)
  {
    if n < |frames| {
      var front := frames[..|frames| - 1];
      assert front[..n] == frames[..n];
      PrefixDataIsPrefix(front, n);
    } else {
      assert frames[..n] == frames;
    }
  }

  /** Reading on only appends. */
  lemma DataOfPrefix(frames: seq<Frame>, n: nat, m: nat)
    requires n <= m <= |frames|
    ensures DataOf(frames[..n]) <= DataOf(frames[..m]) <= DataOf(frames)
  {
    assert frames[..m][..n] == frames[..n];
    PrefixDataIsPrefix(frames[..m], n);
    PrefixDataIsPrefix(frames, m);
  }

  datatype Next = Got(frame: Frame) | EndOfBody | Broken

  /** A response body as the client sees it: its frames, whether it then ends cleanly
      or with a transport error, its size hint, and how many polls the grace timer
      lets through when the reader waits for the end at the limit. */
  datatype Stream = Stream(frames: seq<Frame>, broken: bool, hint: SizeHint, patience: nat) {
    function Delivered(): Bytes { DataOf(frames) }
  }

  class Incoming {
    const stream: Stream
    var position: nat

    ghost predicate Valid()
      reads this
    {
      position <= |stream.frames|
    }

    ghost function Consumed(): seq<Frame>
      reads this
      requires Valid()
    {
      stream.frames[..position]
    }

    constructor (stream: Stream)
      ensures this.stream == stream && position == 0 && Valid()
    {
      this.stream := stream;
      position := 0;
    }

    method NextFrame() returns (next: Next)
      requires Valid()
      modifies this
      ensures Valid()
      ensures old(position) < |stream.frames| ==>
                next == Got(stream.frames[old(position)]) && position == old(position) + 1
      ensures old(position) == |stream.frames| ==>
                position == old(position) && next == (if stream.broken then Broken else EndOfBody)
      ensures next.Got? ==>
                DataOf(Consumed()) == DataOf(old(Consumed())) + if next.frame.Data? then next.frame.bytes else []
    {
      if position < |stream.frames| {
        next := Got(stream.frames[position]);
        position := position + 1;
        assert stream.frames[..position][..position - 1] == stream.frames[..position - 1];
      } else {
        next := if stream.broken then Broken else EndOfBody;
      }
    }
  }

  datatype BodyLimitWait = Complete | StillOpen | MoreBody

  datatype ReadError = TransportError

  /** Which of the four outcomes the wait has is settled by the frames still to come:
      the clean end, a transport error, or data if it is reached within the grace, and otherwise the timer. */
  method WaitForBodyEofAfterLimit(body: Incoming) returns (r: Result<BodyLimitWait, ReadError>)
    requires body.Valid()
    modifies body
    ensures body.Valid()
    ensures var rest := old(body.stream.frames[body.position..]);
            var patience := body.stream.patience;
            && (r == Ok(Complete) <==> Silent(rest) && |rest| < patience && !body.stream.broken)
            && (r.Err? <==> Silent(rest) && |rest| < patience && body.stream.broken)
            && (r == Ok(StillOpen) <==> patience <= |rest| && Silent(rest[..patience]))
  {
    ghost var rest := body.stream.frames[body.position..];
    ghost var start := body.position;
    var polls := 0;
    while polls < body.stream.patience
      invariant body.Valid() && 0 <= polls <= body.stream.patience
      invariant body.position == start + polls
      invariant Silent(rest[..polls])
      decreases body.stream.patience - polls
    {
      var next := body.NextFrame();
      match next {
        case EndOfBody =>
          assert rest[..polls] == rest;
          return Ok(Complete);
        case Broken =>
          assert rest[..polls] == rest;
          return Err(TransportError);
        case Got(frame) =>
          assert frame == rest[polls];
          if frame.Data? && frame.bytes != [] {
            assert !Silent(rest);
            assert body.stream.patience <= |rest| ==> rest[..body.stream.patience][polls] == frame;
            return Ok(MoreBody);
          }
      }
      polls := polls + 1;
    }
    return Ok(StillOpen);
  }

  // --------------------------------------------------------------- reading

  method BodyAssertionIsDecided(exactMatchImpossible: bool, containsMatcher: TextMatcher,
                                notContainsMatcher: TextMatcher, args: BodyArgs, ghost bytes: Bytes)
    returns (decided: bool)
    requires containsMatcher.needles == args.contains && containsMatcher.Tracks(bytes)
    requires notContainsMatcher.needles == args.notContains && notContainsMatcher.Tracks(bytes)
    requires exactMatchImpossible == PrefixMismatch(bytes, args)
    ensures decided <==> Decided(bytes, args)
  {
    if args.bodyEquals.Some? && exactMatchImpossible {
      return true;
    }
    if args.notContains != [] {
      var any := notContainsMatcher.AnyMatched(bytes);
      if any {
        return true;
      }
    }
    var all := containsMatcher.AllMatched(bytes);
    decided := args.bodyEquals.None? && args.notContains == [] && args.contains != [] && all;
  }

  /** The declared length alone rules out the expected body. */
  predicate HintExit(args: BodyArgs, hint: SizeHint) {
    args.bodyEquals.Some? && hint.Exact().Some? && hint.Exact().value != |args.bodyEquals.value|
  }

  predicate DeclaredExceeds(hint: SizeHint, limit: nat) {
    hint.upper.Some? && hint.upper.value > limit
  }

  predicate MayExceed(hint: SizeHint, limit: nat) {
    hint.upper.None? || hint.upper.value > limit
  }

  /** Reading does not go past frame `m`: it is a data frame after which the
      assertions are decided, bytes were dropped, or the limit is reached and more may come. */
  ghost predicate StopsAfter(s: Stream, m: nat, limit: nat, args: BodyArgs)
    requires 0 < m <= |s.frames|
  {
    var read := DataOf(s.frames[..m]);
    && s.frames[m - 1].Data?
    && (Decided(First(read, limit), args) || |read| > limit || (|read| == limit && MayExceed(s.hint, limit)))
  }

  /** The frame before position `n` delivered the last byte that fits. */
  ghost predicate FillsLimitAt(frames: seq<Frame>, limit: nat, n: nat) {
    && 0 < n <= |frames|
    && frames[n - 1].Data? && frames[n - 1].bytes != []
    && |DataOf(frames[..n])| == limit
  }

  /** The grace lets the client see that nothing but silent frames follow position `n`. */
  predicate EndReached(s: Stream, n: nat)
    requires n <= |s.frames|
  {
    Silent(s.frames[n..]) && |s.frames[n..]| < s.patience
  }

  function Body(bytes: Bytes, incomplete: bool, args: BodyArgs): BufferedBody {
    BufferedBody(bytes, incomplete, PrefixMismatch(bytes, args))
  }

  /** `n` is where reading stops, and `r` is what it returns. */
  ghost predicate StoppedAt(n: nat, r: Result<BufferedBody, ReadError>, s: Stream, limit: nat, args: BodyArgs)
    requires n <= |s.frames|
  {
    var read := DataOf(s.frames[..n]);
    var bytes := First(read, limit);
    && (forall m | 0 < m < n :: !StopsAfter(s, m, limit, args))
    && if n > 0 && StopsAfter(s, n, limit, args) then
         if Decided(bytes, args) || |read| > limit then r == Ok(Body(bytes, |read| > limit, args))
         else if s.hint.upper.Some? then r == Ok(Body(bytes, true, args))
         else
           && FillsLimitAt(s.frames, limit, n)
           && r == if EndReached(s, n) && s.broken then Err(TransportError)
                   else Ok(Body(bytes, !EndReached(s, n), args))
       else
         && n == |s.frames|
         && |read| <= limit && (|read| == limit ==> !MayExceed(s.hint, limit)) && !Decided(bytes, args)
         && r == if s.broken then Err(TransportError) else Ok(Body(bytes, false, args))
  }

  ghost predicate ReadOutcome(r: Result<BufferedBody, ReadError>, s: Stream, limit: nat, args: BodyArgs) {
    if HintExit(args, s.hint) then r == Ok(BufferedBody([], false, true))
    else exists n | 0 <= n <= |s.frames| :: StoppedAt(n, r, s, limit, args)
  }

  lemma StopIsUnique(n: nat, r: Result<BufferedBody, ReadError>, n': nat, r': Result<BufferedBody, ReadError>,
                     s: Stream, limit: nat, args: BodyArgs)
    requires n <= |s.frames| && n' <= |s.frames|
    requires StoppedAt(n, r, s, limit, args) && StoppedAt(n', r', s, limit, args)
    ensures n == n' && r == r'
  {
    assert n == |s.frames| || (n > 0 && StopsAfter(s, n, limit, args));
    assert n' == |s.frames| || (n' > 0 && StopsAfter(s, n', limit, args));
  }

  /** The contract of reading leaves no choice. */
  lemma OutcomeIsDetermined(r: Result<BufferedBody, ReadError>, r': Result<BufferedBody, ReadError>,
                            s: Stream, limit: nat, args: BodyArgs)
    requires ReadOutcome(r, s, limit, args) && ReadOutcome(r', s, limit, args)
    ensures r == r'
  {
    if !HintExit(args, s.hint) {
      var n :| 0 <= n <= |s.frames| && StoppedAt(n, r, s, limit, args);
      var n' :| 0 <= n' <= |s.frames| && StoppedAt(n', r', s, limit, args);
      StopIsUnique(n, r, n', r', s, limit, args);
    }
  }

  lemma {:induction false} ReadOnMeansUndecided(s: Stream, n: nat, limit: nat, args: BodyArgs)
    requires ValidArgs(args, limit) && n <= |s.frames|
    requires forall m | 0 < m <= n :: !StopsAfter(s, m, limit, args)
    ensures var read := DataOf(s.frames[..n]);
            && !Decided(First(read, limit), args)
            && |read| <= limit && (MayExceed(s.hint, limit) ==> |read| < limit)
  {
    if n > 0 {
      ReadOnMeansUndecided(s, n - 1, limit, args);
      assert s.frames[..n][..n - 1] == s.frames[..n - 1];
      assert !StopsAfter(s, n, limit, args);
      assert s.frames[n - 1].Trailers? ==> DataOf(s.frames[..n]) == DataOf(s.frames[..n - 1]);
    } else {
      assert args.contains != [] ==> !Contains([], args.contains[0]);
    }
  }

  /** Every stream has an outcome, so together with `OutcomeIsDetermined` it has exactly one. */
  lemma OutcomeExists(s: Stream, limit: nat, args: BodyArgs) returns (r: Result<BufferedBody, ReadError>)
    requires ValidArgs(args, limit)
    ensures ReadOutcome(r, s, limit, args)
  {
    if HintExit(args, s.hint) {
      return Ok(BufferedBody([], false, true));
    }
    var n := 0;
    while n < |s.frames| && (n == 0 || !StopsAfter(s, n, limit, args))
      invariant n <= |s.frames|
      invariant forall m | 0 < m < n :: !StopsAfter(s, m, limit, args)
    {
      n := n + 1;
    }
    var read := DataOf(s.frames[..n]);
    var bytes := First(read, limit);
    if n > 0 && StopsAfter(s, n, limit, args) {
      ReadOnMeansUndecided(s, n - 1, limit, args);
      assert s.frames[..n][..n - 1] == s.frames[..n - 1];
      if Decided(bytes, args) || |read| > limit {
        r := Ok(Body(bytes, |read| > limit, args));
      } else if s.hint.upper.Some? {
        r := Ok(Body(bytes, true, args));
      } else if EndReached(s, n) && s.broken {
        r := Err(TransportError);
      } else {
        r := Ok(Body(bytes, !EndReached(s, n), args));
      }
    } else {
      ReadOnMeansUndecided(s, n, limit, args);
      r := if s.broken then Err(TransportError) else Ok(Body(bytes, false, args));
    }
    assert StoppedAt(n, r, s, limit, args);
  }

  lemma PrefixMismatchStep(bytes: Bytes, longer: Bytes, expected: Bytes)
    requires bytes <= longer
    ensures longer <= expected <==>
            bytes <= expected && |longer| <= |expected| && expected[|bytes|..|longer|] == longer[|bytes|..]
  {
    if bytes <= expected && |longer| <= |expected| && expected[|bytes|..|longer|] == longer[|bytes|..] {
      assert longer == longer[..|bytes|] + longer[|bytes|..];
      assert expected[..|longer|] == expected[..|bytes|] + expected[|bytes|..|longer|];
    }
  }

  /** One data frame: capture it, compare the new bytes with the expected body, update both matchers. */
  method ObserveData(content: CaptureBuffer, containsMatcher: TextMatcher, notContainsMatcher: TextMatcher,
                     exactMatchImpossible: bool, data: Bytes, limit: nat, args: BodyArgs, ghost read: Bytes)
    returns (impossible: bool, decided: bool)
    requires Captured(content.bytes, content.incomplete, read, limit)
    requires containsMatcher != notContainsMatcher
    requires containsMatcher.needles == args.contains && containsMatcher.Tracks(content.bytes)
    requires notContainsMatcher.needles == args.notContains && notContainsMatcher.Tracks(content.bytes)
    requires exactMatchImpossible == PrefixMismatch(content.bytes, args)
    modifies content, containsMatcher, notContainsMatcher
    ensures Captured(content.bytes, content.incomplete, read + data, limit)
    ensures containsMatcher.Tracks(content.bytes) && notContainsMatcher.Tracks(content.bytes)
    ensures impossible == PrefixMismatch(content.bytes, args)
    ensures decided <==> Decided(content.bytes, args)
  {
    ghost var before := content.bytes;
    impossible := exactMatchImpossible;
    var previousLen := content.AppendLimited(data, limit);
    if args.bodyEquals.Some? {
      var expected := args.bodyEquals.value;
      var appended := content.bytes[previousLen..];
      PrefixMismatchStep(before, content.bytes, expected);
      if !(|content.bytes| <= |expected| && expected[previousLen..|content.bytes|] == appended) {
        impossible := true;
      }
    }
    containsMatcher.ObserveAppended(content.bytes, previousLen);
    notContainsMatcher.ObserveAppended(content.bytes, previousLen);
    decided := BodyAssertionIsDecided(impossible, containsMatcher, notContainsMatcher, args, content.bytes);
  }

  /** Nothing but silent frames after position `n`: everything delivered was read by then. */
  lemma SilentRest(s: Stream, n: nat)
    requires n <= |s.frames|
    ensures Silent(s.frames[n..]) <==> s.Delivered() == DataOf(s.frames[..n])
  {
    assert s.frames == s.frames[..n] + s.frames[n..];
    DataOfConcat(s.frames[..n], s.frames[n..]);
    SilentHasNoData(s.frames[n..]);
  }

  /** After an undecided data frame: stop when bytes were dropped, when the declared
      length promises more, or when an unknown-length body has filled the limit. */
  method StopAtLimit(body: Incoming, content: CaptureBuffer, limit: nat, ghost args: BodyArgs)
    returns (r: Result<bool, ReadError>)
    requires body.Valid() && body.position > 0
    requires Captured(content.bytes, content.incomplete, DataOf(body.Consumed()), limit)
    requires !Decided(content.bytes, args) && body.stream.frames[body.position - 1].Data?
    requires forall m | 0 < m < body.position :: !StopsAfter(body.stream, m, limit, args)
    requires |DataOf(body.Consumed())| == limit && body.stream.hint.upper.None? ==>
               FillsLimitAt(body.stream.frames, limit, body.position)
    modifies body, content
    ensures body.Valid() && content.bytes == old(content.bytes)
    ensures r.Err? ==> StoppedAt(old(body.position), Err(TransportError), body.stream, limit, args)
    ensures r == Ok(true) ==>
              StoppedAt(old(body.position), Ok(Body(content.bytes, content.incomplete, args)), body.stream, limit, args)
    ensures r == Ok(false) ==>
              && body.position == old(body.position) && !content.incomplete
              && !StopsAfter(body.stream, body.position, limit, args)
  {
    var declaredBodyExceedsLimit := DeclaredExceeds(body.stream.hint, limit);
    var bodyMayExceedLimit := MayExceed(body.stream.hint, limit);
    if content.incomplete || (declaredBodyExceedsLimit && |content.bytes| == limit) {
      if !content.incomplete {
        content.MarkIncomplete();
      }
      return Ok(true);
    }
    if |content.bytes| == limit && bodyMayExceedLimit {
      var wait := WaitForBodyEofAfterLimit(body);
      if wait.Err? {
        return Err(TransportError);
      }
      if wait.value != Complete {
        content.MarkIncomplete();
      }
      return Ok(true);
    }
    return Ok(false);
  }

  /** The matchers and the mismatch flag follow the capture, and the assertions are not decided. */
  ghost predicate Undecided(content: CaptureBuffer, containsMatcher: TextMatcher, notContainsMatcher: TextMatcher,
                            exactMatchImpossible: bool, args: BodyArgs)
    reads content, containsMatcher, notContainsMatcher
  {
    && containsMatcher != notContainsMatcher
    && containsMatcher.needles == args.contains && containsMatcher.Tracks(content.bytes)
    && notContainsMatcher.needles == args.notContains && notContainsMatcher.Tracks(content.bytes)
    && exactMatchImpossible == PrefixMismatch(content.bytes, args)
    && !Decided(content.bytes, args)
  }

  /** The capture holds exactly what was read, and no frame so far was a stopping point. */
  ghost predicate Following(body: Incoming, content: CaptureBuffer, limit: nat, args: BodyArgs)
    reads body, content
  {
    && body.Valid()
    && (forall m | 0 < m <= body.position :: !StopsAfter(body.stream, m, limit, args))
    && var read := DataOf(body.Consumed());
    && Captured(content.bytes, content.incomplete, read, limit)
    && |read| <= limit
    && (MayExceed(body.stream.hint, limit) ==> |read| < limit)
  }

  datatype Step = KeepReading | StopReading | Abandon

  /** What a turn of the reading loop leaves behind. */
  ghost predicate AfterStep(step: Step, body: Incoming, content: CaptureBuffer, exactMatchImpossible: bool,
                            limit: nat, args: BodyArgs)
    reads body, content
  {
    match step
    case KeepReading => Following(body, content, limit, args)
    case StopReading => exists n | 0 <= n <= |body.stream.frames| ::
      StoppedAt(n, Ok(BufferedBody(content.bytes, content.incomplete, exactMatchImpossible)), body.stream, limit, args)
    case Abandon => exists n | 0 <= n <= |body.stream.frames| ::
      StoppedAt(n, Err(TransportError), body.stream, limit, args)
  }

  /** A turn that got a data frame. */
  method HandleData(body: Incoming, content: CaptureBuffer,
                    containsMatcher: TextMatcher, notContainsMatcher: TextMatcher,
                    exactMatchImpossible: bool, data: Bytes, limit: nat, args: BodyArgs, ghost read: Bytes)
    returns (impossible: bool, step: Step)
    requires Undecided(content, containsMatcher, notContainsMatcher, exactMatchImpossible, args)
    requires body.Valid() && body.position > 0 && body.stream.frames[body.position - 1] == Data(data)
    requires forall m | 0 < m < body.position :: !StopsAfter(body.stream, m, limit, args)
    requires Captured(content.bytes, content.incomplete, read, limit) && DataOf(body.Consumed()) == read + data
    requires |read| <= limit && (MayExceed(body.stream.hint, limit) ==> |read| < limit)
    modifies body, content, containsMatcher, notContainsMatcher
    ensures AfterStep(step, body, content, impossible, limit, args)
    ensures step.KeepReading? ==>
              && Undecided(content, containsMatcher, notContainsMatcher, impossible, args)
              && body.position == old(body.position)
  {
    ghost var n := body.position;
    var decided;
    impossible, decided :=
      ObserveData(content, containsMatcher, notContainsMatcher, exactMatchImpossible, data, limit, args, read);
    if decided {
      assert StoppedAt(n, Ok(Body(content.bytes, content.incomplete, args)), body.stream, limit, args);
      return impossible, StopReading;
    }
    var stop := StopAtLimit(body, content, limit, args);
    if stop.Err? {
      assert StoppedAt(n, Err(TransportError), body.stream, limit, args);
      return impossible, Abandon;
    }
    if stop.value {
      assert StoppedAt(n, Ok(Body(content.bytes, content.incomplete, args)), body.stream, limit, args);
      return impossible, StopReading;
    }
    return impossible, KeepReading;
  }

  /** One turn of the reading loop. */
  method ReadFrame(body: Incoming, content: CaptureBuffer,
                   containsMatcher: TextMatcher, notContainsMatcher: TextMatcher,
                   exactMatchImpossible: bool, limit: nat, args: BodyArgs)
    returns (impossible: bool, step: Step)
    requires Undecided(content, containsMatcher, notContainsMatcher, exactMatchImpossible, args)
    requires Following(body, content, limit, args)
    modifies body, content, containsMatcher, notContainsMatcher
    ensures AfterStep(step, body, content, impossible, limit, args)
    ensures step.KeepReading? ==>
              && Undecided(content, containsMatcher, notContainsMatcher, impossible, args)
              && body.position == old(body.position) + 1
  {
    ghost var read := DataOf(body.Consumed());
    impossible := exactMatchImpossible;
    var next := body.NextFrame();
    ghost var n := body.position;
    match next {
      case EndOfBody =>
        assert StoppedAt(n, Ok(Body(content.bytes, content.incomplete, args)), body.stream, limit, args);
        step := StopReading;
      case Broken =>
        assert StoppedAt(n, Err(TransportError), body.stream, limit, args);
        step := Abandon;
      case Got(Trailers) =>
        step := KeepReading;
      case Got(Data(data)) =>
        impossible, step :=
          HandleData(body, content, containsMatcher, notContainsMatcher, impossible, data, limit, args, read);
    }
  }

  method ReadBody(body: Incoming, limit: nat, args: BodyArgs) returns (r: Result<BufferedBody, ReadError>)
    requires body.Valid() && body.position == 0
    requires ValidArgs(args, limit)
    modifies body
    ensures ReadOutcome(r, body.stream, limit, args)
    ensures var hint := body.stream.hint;
            args.bodyEquals.Some? && hint.upper == Some(hint.lower) && hint.lower != |args.bodyEquals.value|
            ==> body.position == 0
  {
    var content := new CaptureBuffer();
    var hint := body.stream.hint;
    var exactMatchImpossible := HintExit(args, hint);
    if exactMatchImpossible {
      return Ok(BufferedBody(content.bytes, content.incomplete, exactMatchImpossible));
    }
    var containsMatcher := new TextMatcher(args.contains);
    var notContainsMatcher := new TextMatcher(args.notContains);
    var step := KeepReading;
    while step.KeepReading?
      invariant step.KeepReading? ==>
                  Undecided(content, containsMatcher, notContainsMatcher, exactMatchImpossible, args)
      invariant AfterStep(step, body, content, exactMatchImpossible, limit, args)
      decreases step.KeepReading?, |body.stream.frames| - body.position
    {
      exactMatchImpossible, step :=
        ReadFrame(body, content, containsMatcher, notContainsMatcher, exactMatchImpossible, limit, args);
    }
    if step.Abandon? {
      return Err(TransportError);
    }
    return Ok(BufferedBody(content.bytes, content.incomplete, exactMatchImpossible));
  }
}
