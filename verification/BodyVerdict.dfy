/** Reading a body and then asserting on it, against a specification of the whole stream. */
module BodyVerdict {
  import opened Common
  import opened TextMatch
  import opened BodyAssertion
  import opened BodyReader

  function VerdictOf(r: Result<BufferedBody, ReadError>, args: BodyArgs): Verdict {
    match r
    case Err(_) => ReadFailed
    case Ok(body) => AssertResponseBody(body, args)
  }

  method CheckBody(body: Incoming, limit: nat, args: BodyArgs) returns (verdict: Verdict)
    requires body.Valid() && body.position == 0
    requires ValidArgs(args, limit)
    modifies body
    ensures exists r :: ReadOutcome(r, body.stream, limit, args) && verdict == VerdictOf(r, args)
    ensures ExactHintHolds(body.stream) ==> (verdict.Pass? <==> WholeStreamPasses(body.stream, limit, args))
  {
    var r := ReadBody(body, limit, args);
    verdict := VerdictOf(r, args);
    if ExactHintHolds(body.stream) {
      PassesAsWholeStreamSays(r, body.stream, limit, args);
    }
  }

  /** An exact size hint is the length of a body that ends cleanly. */
  predicate ExactHintHolds(s: Stream) {
    !s.broken && s.hint.Exact().Some? ==> s.hint.Exact().value == |s.Delivered()|
  }

  /** The end of a body that fills the limit exactly is known from its declared
      length, or seen within the grace after the frame that filled it. */
  ghost predicate EndIsKnown(s: Stream, limit: nat) {
    match s.hint.upper
    case Some(upper) => upper <= limit
    case None => exists n | 0 < n <= |s.frames| :: FillsLimitAt(s.frames, limit, n) && |s.frames| - n < s.patience
  }

  /** The specification: it looks at the delivered bytes as a whole, not at frames. */
  ghost predicate WholeStreamPasses(s: Stream, limit: nat, args: BodyArgs) {
    if ContainsOnly(args) then ContainsAll(First(s.Delivered(), limit), args.contains)
    else
      && !s.broken
      && |s.Delivered()| <= limit
      && (|s.Delivered()| == limit ==> EndIsKnown(s, limit))
      && Satisfies(s.Delivered(), args)
  }

  /** At most one frame fills the limit. */
  lemma FillingFrameIsUnique(frames: seq<Frame>, limit: nat, n: nat, m: nat)
    requires FillsLimitAt(frames, limit, n) && FillsLimitAt(frames, limit, m)
    ensures n == m
  {
    var a, b := Min(n, m), Max(n, m);
    if a < b {
      DataOfPrefix(frames[..b], a, b - 1);
      assert frames[..b][..a] == frames[..a] && frames[..b][..b - 1] == frames[..b - 1];
    }
  }

  /** An undecided capture that may not be the whole body never passes. */
  lemma UndecidedTruncated(bytes: Bytes, args: BodyArgs)
    requires HasBodyAssertions(args) && !Decided(bytes, args)
    ensures !AssertResponseBody(Body(bytes, true, args), args).Pass?
    ensures ContainsOnly(args) ==> !ContainsAll(bytes, args.contains)
  {
  }

  lemma UndecidedComplete(bytes: Bytes, args: BodyArgs)
    requires !Decided(bytes, args)
    ensures AssertResponseBody(Body(bytes, false, args), args).Pass? <==> Satisfies(bytes, args)
    ensures ContainsOnly(args) ==> (Satisfies(bytes, args) <==> ContainsAll(bytes, args.contains))
  {
  }

  /** A body whose end was not waited for, or not seen in time, has no known end. */
  lemma EndIsKnownAt(s: Stream, limit: nat, n: nat)
    requires s.hint.upper.None? && FillsLimitAt(s.frames, limit, n)
    ensures EndIsKnown(s, limit) && |s.Delivered()| == limit <==> EndReached(s, n)
  {
    SilentRest(s, n);
    DataOfPrefix(s.frames, n, |s.frames|);
    if EndIsKnown(s, limit) {
      var m :| 0 < m <= |s.frames| && FillsLimitAt(s.frames, limit, m) && |s.frames| - m < s.patience;
      FillingFrameIsUnique(s.frames, limit, n, m);
    }
  }

  lemma {:induction false} StoppedPasses(n: nat, r: Result<BufferedBody, ReadError>, s: Stream,
                                         limit: nat, args: BodyArgs)
    requires ValidArgs(args, limit)
    requires n <= |s.frames| && StoppedAt(n, r, s, limit, args)
    ensures VerdictOf(r, args).Pass? <==> WholeStreamPasses(s, limit, args)
  {
    var read, all := DataOf(s.frames[..n]), s.Delivered();
    var bytes := First(read, limit);
    DataOfPrefix(s.frames, n, |s.frames|);
    FirstOfPrefix(read, all, limit);
    if Decided(bytes, args) {
      ContainsAllExtends(bytes, First(all, limit), args.contains);
      DecisionIsFinal(bytes, all, |read| > limit, args);
    } else if n > 0 && StopsAfter(s, n, limit, args) {
      assert First(all, limit) == bytes;
      UndecidedTruncated(bytes, args);
      UndecidedComplete(bytes, args);
      if |read| == limit && s.hint.upper.None? {
        EndIsKnownAt(s, limit, n);
        SilentRest(s, n);
      }
    } else {
      assert s.frames[..n] == s.frames;
      UndecidedComplete(bytes, args);
    }
  }

  /** Reading frame by frame and stopping early passes exactly when the whole stream does. */
  lemma PassesAsWholeStreamSays(r: Result<BufferedBody, ReadError>, s: Stream, limit: nat, args: BodyArgs)
    requires ValidArgs(args, limit) && ExactHintHolds(s)
    requires ReadOutcome(r, s, limit, args)
    ensures VerdictOf(r, args).Pass? <==> WholeStreamPasses(s, limit, args)
  {
    if !HintExit(args, s.hint) {
      var n :| 0 <= n <= |s.frames| && StoppedAt(n, r, s, limit, args);
      StoppedPasses(n, r, s, limit, args);
    }
  }

  /** Whether the end of the body is known can settle the verdict. */
  ghost predicate EndMatters(s: Stream, limit: nat, args: BodyArgs) {
    |s.Delivered()| == limit && !s.broken && !ContainsOnly(args) && Satisfies(s.Delivered(), args)
  }

  /** How the bytes were cut into frames, and where empty frames and trailers sit, makes one stream pass and the
      other fail exactly when a body that ends cleanly and satisfies everything fills the limit and its end
      is seen in time in one case only. */
  lemma FramingMattersExactlyWhen(r: Result<BufferedBody, ReadError>, s: Stream,
                                  r': Result<BufferedBody, ReadError>, s': Stream, limit: nat, args: BodyArgs)
    requires ValidArgs(args, limit) && ExactHintHolds(s) && ExactHintHolds(s')
    requires s.Delivered() == s'.Delivered() && s.broken == s'.broken
    requires ReadOutcome(r, s, limit, args) && ReadOutcome(r', s', limit, args)
    ensures VerdictOf(r, args).Pass? != VerdictOf(r', args).Pass? <==>
            EndMatters(s, limit, args) && EndIsKnown(s, limit) != EndIsKnown(s', limit)
  {
    PassesAsWholeStreamSays(r, s, limit, args);
    PassesAsWholeStreamSays(r', s', limit, args);
  }

  const EQUALS_A := BodyArgs(Some([97]), [], [])
  const ENDS_AT_ONCE := Stream([Data([97])], false, SizeHint(0, None), 1)
  const ENDS_LATE := Stream([Data([97]), Trailers], false, SizeHint(0, None), 1)

  lemma {:induction false} OneByteStreams()
    ensures ENDS_AT_ONCE.Delivered() == [97] == ENDS_LATE.Delivered()
    ensures EndIsKnown(ENDS_AT_ONCE, 1) && !EndIsKnown(ENDS_LATE, 1)
  {
    var s, s' := ENDS_AT_ONCE, ENDS_LATE;
    assert s.frames[..1] == s.frames && s'.frames[..1] == s.frames;
    assert DataOf(s.frames) == [97] by {
      assert s.frames[..0] == [];
    }
    DataOfConcat(s.frames, [Trailers]);
    assert s'.frames == s.frames + [Trailers];
    assert FillsLimitAt(s.frames, 1, 1) && FillsLimitAt(s'.frames, 1, 1);
    EndIsKnownAt(s, 1, 1);
    EndIsKnownAt(s', 1, 1);
  }

  /** The case is real: a trailer that uses up the grace after "a" has filled a limit of one byte. */
  lemma {:induction false} FramingMattersAtTheLimit()
    ensures ENDS_AT_ONCE.Delivered() == ENDS_LATE.Delivered()
    ensures exists r, r' ::
              && ReadOutcome(r, ENDS_AT_ONCE, 1, EQUALS_A) && VerdictOf(r, EQUALS_A).Pass?
              && ReadOutcome(r', ENDS_LATE, 1, EQUALS_A) && !VerdictOf(r', EQUALS_A).Pass?
  {
    OneByteStreams();
    var r := OutcomeExists(ENDS_AT_ONCE, 1, EQUALS_A);
    var r' := OutcomeExists(ENDS_LATE, 1, EQUALS_A);
    PassesAsWholeStreamSays(r, ENDS_AT_ONCE, 1, EQUALS_A);
    PassesAsWholeStreamSays(r', ENDS_LATE, 1, EQUALS_A);
    assert ReadOutcome(r, ENDS_AT_ONCE, 1, EQUALS_A) && VerdictOf(r, EQUALS_A).Pass?;
    assert ReadOutcome(r', ENDS_LATE, 1, EQUALS_A) && !VerdictOf(r', EQUALS_A).Pass?;
  }

  // ------------------------------------------------------ the whole diagnosis

  /** What is said of a stream when no text is forbidden, read off its bytes as a whole: nothing but the end
      of a body that fills the limit can make a difference to it. */
  function WholeDiagnosis(delivered: Bytes, broken: bool, endIsKnown: bool, limit: nat, args: BodyArgs): Verdict {
    var bytes := First(delivered, limit);
    var cut := |delivered| > limit || (|delivered| == limit && !endIsKnown);
    if broken && !cut && !Decided(bytes, args) then ReadFailed
    else AssertResponseBody(Body(bytes, cut, args), args)
  }

  /** A decision stands when more is read, and without forbidden texts it settles the whole diagnosis. */
  lemma DecisionSettlesDiagnosis(bytes: Bytes, more: Bytes, incomplete: bool, incomplete': bool, args: BodyArgs)
    requires args.notContains == [] && bytes <= more && Decided(bytes, args)
    ensures Decided(more, args)
    ensures AssertResponseBody(Body(bytes, incomplete, args), args) ==
            AssertResponseBody(Body(more, incomplete', args), args)
  {
    ContainsAllExtends(bytes, more, args.contains);
  }

  lemma {:induction false} StoppedDiagnosis(n: nat, r: Result<BufferedBody, ReadError>, s: Stream,
                                            limit: nat, args: BodyArgs)
    requires ValidArgs(args, limit) && args.notContains == []
    requires n <= |s.frames| && StoppedAt(n, r, s, limit, args)
    ensures VerdictOf(r, args) == WholeDiagnosis(s.Delivered(), s.broken, EndIsKnown(s, limit), limit, args)
  {
    var read, all := DataOf(s.frames[..n]), s.Delivered();
    var bytes := First(read, limit);
    DataOfPrefix(s.frames, n, |s.frames|);
    FirstOfPrefix(read, all, limit);
    if Decided(bytes, args) {
      var cut := |all| > limit || (|all| == limit && !EndIsKnown(s, limit));
      DecisionSettlesDiagnosis(bytes, First(all, limit), |read| > limit, cut, args);
    } else if n > 0 && StopsAfter(s, n, limit, args) {
      assert First(all, limit) == bytes;
      if |read| == limit && s.hint.upper.None? {
        EndIsKnownAt(s, limit, n);
        SilentRest(s, n);
      }
    } else {
      assert s.frames[..n] == s.frames;
    }
  }

  /** Without forbidden texts not only passing but the whole diagnosis, with the text it names, is that of
      the bytes delivered, however they were framed; only a declared length can settle it before reading. */
  lemma {:induction false} DiagnosisIsOfTheWhole(r: Result<BufferedBody, ReadError>, s: Stream,
                                                 limit: nat, args: BodyArgs)
    requires ValidArgs(args, limit) && args.notContains == []
    requires ReadOutcome(r, s, limit, args)
    ensures VerdictOf(r, args) ==
            if HintExit(args, s.hint) then NotEqual
            else WholeDiagnosis(s.Delivered(), s.broken, EndIsKnown(s, limit), limit, args)
  {
    if !HintExit(args, s.hint) {
      var n :| 0 <= n <= |s.frames| && StoppedAt(n, r, s, limit, args);
      StoppedDiagnosis(n, r, s, limit, args);
    }
  }

  /** A declared length that is not the expected one is reported as inequality, whatever the body. */
  lemma {:induction false} DeclaredLengthDecides(r: Result<BufferedBody, ReadError>, s: Stream,
                                                 limit: nat, args: BodyArgs)
    requires ReadOutcome(r, s, limit, args)
    requires args.bodyEquals.Some? && s.hint.upper == Some(s.hint.lower) && s.hint.lower != |args.bodyEquals.value|
    ensures VerdictOf(r, args) == NotEqual
  {
  }

  /** A transport error is reported exactly when reading ran into it: no declared length ruled out the expected
      body, the bytes delivered settled nothing, and the limit did not end the reading first. */
  lemma {:induction false} ReadFailedExactlyWhen(r: Result<BufferedBody, ReadError>, s: Stream,
                                                 limit: nat, args: BodyArgs)
    requires ValidArgs(args, limit) && ReadOutcome(r, s, limit, args)
    ensures VerdictOf(r, args).ReadFailed? <==>
            var bytes := First(s.Delivered(), limit);
            && s.broken
            && (|s.Delivered()| < limit || (|s.Delivered()| == limit && EndIsKnown(s, limit)))
            && (args.bodyEquals.Some? ==>
                  bytes <= args.bodyEquals.value
                  && !(s.hint.upper == Some(s.hint.lower) && s.hint.lower != |args.bodyEquals.value|))
            && !ContainsAny(bytes, args.notContains)
            && (args.bodyEquals.None? && args.notContains == [] ==> !ContainsAll(bytes, args.contains))
  {
    if !HintExit(args, s.hint) {
      var n :| 0 <= n <= |s.frames| && StoppedAt(n, r, s, limit, args);
      StoppedReadFails(n, r, s, limit, args);
    }
  }

  lemma {:induction false} StoppedReadFails(n: nat, r: Result<BufferedBody, ReadError>, s: Stream,
                                            limit: nat, args: BodyArgs)
    requires ValidArgs(args, limit)
    requires n <= |s.frames| && StoppedAt(n, r, s, limit, args)
    ensures r.Err? <==>
            && s.broken && !Decided(First(s.Delivered(), limit), args)
            && (|s.Delivered()| < limit || (|s.Delivered()| == limit && EndIsKnown(s, limit)))
  {
    var read, all := DataOf(s.frames[..n]), s.Delivered();
    var bytes := First(read, limit);
    DataOfPrefix(s.frames, n, |s.frames|);
    FirstOfPrefix(read, all, limit);
    if Decided(bytes, args) {
      ContainsAllExtends(bytes, First(all, limit), args.contains);
      ContainsAllExtends(bytes, First(all, limit), args.notContains);
    } else if n > 0 && StopsAfter(s, n, limit, args) {
      assert First(all, limit) == bytes;
      if |read| == limit && s.hint.upper.None? {
        EndIsKnownAt(s, limit, n);
        SilentRest(s, n);
      }
    } else {
      assert s.frames[..n] == s.frames;
    }
  }

  // ------------------------------------------------------ truth of a diagnosis

  /** `full` is the body the server means to send: all of it was delivered unless the
      transport broke, and an exact size hint is its length. */
  predicate WholeBody(s: Stream, full: Bytes) {
    && s.Delivered() <= full
    && (!s.broken ==> full == s.Delivered())
    && (s.hint.Exact().Some? ==> |full| == s.hint.Exact().value)
  }

  /** Reading stops early without having lost anything only because of a forbidden text. */
  predicate StoppedByForbidden(body: BufferedBody, args: BodyArgs) {
    !body.incomplete && ContainsAny(body.bytes, args.notContains)
  }

  lemma StoppedIsFaithful(n: nat, r: Result<BufferedBody, ReadError>, s: Stream, full: Bytes,
                          limit: nat, args: BodyArgs)
    requires n <= |s.frames| && StoppedAt(n, r, s, limit, args) && WholeBody(s, full) && r.Ok?
    ensures FromFrames(r.value, args) && r.value.bytes <= full
    ensures |r.value.bytes| <= limit && (r.value.incomplete ==> |s.Delivered()| >= limit)
    ensures Consistent(full, r.value) || (!r.value.incomplete && Decided(r.value.bytes, args))
  {
    var read := DataOf(s.frames[..n]);
    DataOfPrefix(s.frames, n, |s.frames|);
    FirstOfPrefix(read, full, limit);
    if n > 0 && StopsAfter(s, n, limit, args) {
      if !Decided(First(read, limit), args) && |read| == limit && s.hint.upper.None? {
        SilentRest(s, n);
      }
    } else {
      assert s.frames[..n] == s.frames;
    }
  }

  lemma CaptureIsFaithful(r: Result<BufferedBody, ReadError>, s: Stream, full: Bytes, limit: nat, args: BodyArgs)
    requires ReadOutcome(r, s, limit, args) && WholeBody(s, full) && !HintExit(args, s.hint) && r.Ok?
    ensures FromFrames(r.value, args) && r.value.bytes <= full
    ensures |r.value.bytes| <= limit && (r.value.incomplete ==> |s.Delivered()| >= limit)
    ensures || Consistent(full, r.value) || StoppedByForbidden(r.value, args)
            || PrefixMismatch(r.value.bytes, args) || VerdictOf(r, args).Pass?
  {
    var n :| 0 <= n <= |s.frames| && StoppedAt(n, r, s, limit, args);
    StoppedIsFaithful(n, r, s, full, limit, args);
  }

  /** Without forbidden texts every definite verdict is true of the whole body; a text
      reported as present is in it whatever the other assertions are; and "cannot
      prove" is only said when the limit was reached. */
  lemma DiagnosisIsTrue(r: Result<BufferedBody, ReadError>, s: Stream, full: Bytes, limit: nat, args: BodyArgs)
    requires ReadOutcome(r, s, limit, args) && WholeBody(s, full)
    ensures match VerdictOf(r, args)
      case NotEqual => args.notContains == [] ==> full != args.bodyEquals.value
      case Missing(i) => args.notContains == [] ==> !Contains(full, args.contains[i])
      case Forbidden(i) => Contains(full, args.notContains[i])
      case CannotProveEqual => |s.Delivered()| >= limit
      case CannotProveMissing(_) => |s.Delivered()| >= limit
      case CannotProveAbsence => |s.Delivered()| >= limit
      case Pass => true
      case ReadFailed => s.broken
  {
    if HintExit(args, s.hint) {
      assert VerdictOf(r, args) == NotEqual;
    } else if r.Err? {
      var n :| 0 <= n <= |s.frames| && StoppedAt(n, r, s, limit, args);
    } else {
      CaptureIsFaithful(r, s, full, limit, args);
      VerdictIsExact(r.value, args);
      if VerdictOf(r, args).Forbidden? {
        ContainsExtends(r.value.bytes, full, args.notContains[VerdictOf(r, args).index]);
      }
    }
  }

  /** A stream of two data frames and no declared length, delivering `front` and then `back`. */
  function TwoFrames(front: Bytes, back: Bytes): Stream {
    Stream([Data(front), Data(back)], false, SizeHint(0, None), 0)
  }

  lemma StopsAtForbiddenFront(front: Bytes, back: Bytes, limit: nat, args: BodyArgs)
    requires |front| <= limit && ContainsAny(front, args.notContains)
    ensures ReadOutcome(Ok(Body(front, false, args)), TwoFrames(front, back), limit, args)
    ensures WholeBody(TwoFrames(front, back), front + back)
  {
    var s := TwoFrames(front, back);
    assert s.frames[..1] == [Data(front)] && s.frames[..2] == s.frames;
    assert DataOf([Data(front)]) == front by {
      assert [Data(front)][..0] == [];
    }
    assert s.Delivered() == front + back by {
      assert s.frames[..|s.frames| - 1] == [Data(front)];
    }
    assert StopsAfter(s, 1, limit, args);
    assert StoppedAt(1, Ok(Body(front, false, args)), s, limit, args);
  }

  /** No forbidden text can stop the reading inside the expected body. */
  predicate ExpectedBodyIsClear(args: BodyArgs, limit: nat)
    requires args.bodyEquals.Some?
  {
    var expected := args.bodyEquals.value;
    expected == [] || !ContainsAny(First(expected[..|expected| - 1], limit), args.notContains)
  }

  ghost predicate NotEqualIsAlwaysTrue(args: BodyArgs, limit: nat)
    requires args.bodyEquals.Some?
  {
    forall s: Stream, full: Bytes, r: Result<BufferedBody, ReadError> |
      WholeBody(s, full) && ReadOutcome(r, s, limit, args) && VerdictOf(r, args).NotEqual? ::
      full != args.bodyEquals.value
  }

  /** "does not equal" can be said of a body that does equal the expected text, because
      a forbidden text stops the reading early. This is exactly when it cannot happen. */
  lemma NotEqualIsTrueExactlyWhen(args: BodyArgs, limit: nat)
    requires ValidArgs(args, limit) && args.bodyEquals.Some?
    ensures NotEqualIsAlwaysTrue(args, limit) <==> ExpectedBodyIsClear(args, limit)
  {
    if ExpectedBodyIsClear(args, limit) {
      forall s: Stream, full: Bytes, r: Result<BufferedBody, ReadError> |
        WholeBody(s, full) && ReadOutcome(r, s, limit, args) && VerdictOf(r, args).NotEqual?
        ensures full != args.bodyEquals.value
      {
        NotEqualIsTrueHere(r, s, full, limit, args);
      }
    } else {
      NotEqualCanBeWrong(args, limit);
    }
  }

  lemma ProperPrefixIsInFront(bytes: Bytes, expected: Bytes, limit: nat)
    requires bytes <= expected && bytes != expected && |bytes| <= limit
    ensures expected != [] && bytes <= First(expected[..|expected| - 1], limit)
  {
    assert |bytes| < |expected|;
  }

  lemma NotEqualIsTrueHere(r: Result<BufferedBody, ReadError>, s: Stream, full: Bytes, limit: nat, args: BodyArgs)
    requires ReadOutcome(r, s, limit, args) && WholeBody(s, full)
    requires args.bodyEquals.Some? && ExpectedBodyIsClear(args, limit)
    requires VerdictOf(r, args).NotEqual?
    ensures full != args.bodyEquals.value
  {
    var expected := args.bodyEquals.value;
    if full == expected && !HintExit(args, s.hint) {
      CaptureIsFaithful(r, s, full, limit, args);
      var bytes := r.value.bytes;
      ProperPrefixIsInFront(bytes, expected, limit);
      ContainsAllExtends(bytes, First(expected[..|expected| - 1], limit), args.notContains);
    }
  }

  lemma NotEqualCanBeWrong(args: BodyArgs, limit: nat)
    requires args.bodyEquals.Some? && !ExpectedBodyIsClear(args, limit)
    ensures !NotEqualIsAlwaysTrue(args, limit)
  {
    var expected := args.bodyEquals.value;
    var front := First(expected[..|expected| - 1], limit);
    var back := expected[|front|..];
    assert front + back == expected && front <= expected && front != expected;
    StopsAtForbiddenFront(front, back, limit, args);
    assert VerdictOf(Ok(Body(front, false, args)), args).NotEqual?;
  }

  /** Whatever forbidden text stops the reading, the required texts are in it. */
  predicate RequiredInsideForbidden(args: BodyArgs, limit: nat) {
    match args.bodyEquals
    case None => forall i | 0 <= i < |args.notContains| ::
      |args.notContains[i]| <= limit ==> ContainsAll(args.notContains[i], args.contains)
    case Some(expected) =>
      |expected| <= limit && ContainsAny(expected, args.notContains) ==> ContainsAll(expected, args.contains)
  }

  ghost predicate MissingIsAlwaysTrue(args: BodyArgs, limit: nat) {
    forall s: Stream, full: Bytes, r: Result<BufferedBody, ReadError> |
      WholeBody(s, full) && ReadOutcome(r, s, limit, args) && VerdictOf(r, args).Missing? ::
      !Contains(full, args.contains[VerdictOf(r, args).index])
  }

  lemma ContainsTransitive(bytes: Bytes, middle: Bytes, needle: Bytes)
    requires Contains(bytes, middle) && Contains(middle, needle)
    ensures Contains(bytes, needle)
  {
    if middle != [] && needle != [] {
      var at :| 0 <= at <= |bytes| - |middle| && OccursAt(bytes, middle, at);
      var off :| 0 <= off <= |middle| - |needle| && OccursAt(middle, needle, off);
      forall k | 0 <= k < |needle|
        ensures bytes[at + off..at + off + |needle|][k] == needle[k]
      {
        assert bytes[at..at + |middle|][off + k] == middle[off..off + |needle|][k];
      }
      assert OccursAt(bytes, needle, at + off);
    }
  }

  /** "does not contain" can be said of a body that does contain the text, for the
      same reason. This is exactly when it cannot happen. */
  lemma MissingIsTrueExactlyWhen(args: BodyArgs, limit: nat)
    requires ValidArgs(args, limit)
    ensures MissingIsAlwaysTrue(args, limit) <==> RequiredInsideForbidden(args, limit)
  {
    if RequiredInsideForbidden(args, limit) {
      forall s: Stream, full: Bytes, r: Result<BufferedBody, ReadError> |
        WholeBody(s, full) && ReadOutcome(r, s, limit, args) && VerdictOf(r, args).Missing?
        ensures !Contains(full, args.contains[VerdictOf(r, args).index])
      {
        MissingIsTrueHere(r, s, full, limit, args);
      }
    } else {
      var front: Bytes;
      match args.bodyEquals {
        case None =>
          var i :| 0 <= i < |args.notContains| && |args.notContains[i]| <= limit
                   && !ContainsAll(args.notContains[i], args.contains);
          front := args.notContains[i];
          ContainsAppended([], front);
          assert [] + front == front;
        case Some(expected) =>
          front := expected;
      }
      var k := FirstMissing(front, args.contains).value;
      StopsAtForbiddenFront(front, args.contains[k], limit, args);
      ContainsAppended(front, args.contains[k]);
      assert VerdictOf(Ok(Body(front, false, args)), args) == Missing(k);
    }
  }

  lemma MissingIsTrueHere(r: Result<BufferedBody, ReadError>, s: Stream, full: Bytes, limit: nat, args: BodyArgs)
    requires ReadOutcome(r, s, limit, args) && WholeBody(s, full) && RequiredInsideForbidden(args, limit)
    requires VerdictOf(r, args).Missing?
    ensures !Contains(full, args.contains[VerdictOf(r, args).index])
  {
    CaptureIsFaithful(r, s, full, limit, args);
    VerdictIsExact(r.value, args);
    if StoppedByForbidden(r.value, args) {
      var bytes := r.value.bytes;
      var i :| 0 <= i < |args.notContains| && Contains(bytes, args.notContains[i]);
      assert |args.notContains[i]| <= |bytes|;
      if args.bodyEquals.None? {
        ContainsTransitive(bytes, args.notContains[i], args.contains[VerdictOf(r, args).index]);
      }
      assert false;
    }
  }

  /** The body "ab" with the assertions "equals ab" and "does not contain a" is refused for
      the wrong reason: it arrives as "a" and then "b", and is said not to equal "ab". */
  lemma WrongReasonExample()
    ensures var args := BodyArgs(Some([97, 98]), [], [[97]]);
            exists r :: && ReadOutcome(r, TwoFrames([97], [98]), 10, args)
                        && VerdictOf(r, args).NotEqual?
                        && TwoFrames([97], [98]).Delivered() == args.bodyEquals.value
  {
    var args := BodyArgs(Some([97, 98]), [], [[97]]);
    assert OccursAt([97], [97], 0);
    assert Contains([97], args.notContains[0]);
    StopsAtForbiddenFront([97], [98], 10, args);
    assert [97] + [98] == [97 as Byte, 98];
    assert VerdictOf(Ok(Body([97], false, args)), args).NotEqual?;
  }
}
