/** HTTP body assertions and the three-way verdict on what was captured of a body. */
module BodyAssertion {
  import opened Common
  import opened TextMatch

  datatype BodyArgs = BodyArgs(bodyEquals: Option<Bytes>, contains: seq<Bytes>, notContains: seq<Bytes>)

  predicate HasBodyAssertions(args: BodyArgs) {
    args.bodyEquals.Some? || args.contains != [] || args.notContains != []
  }

  predicate ContainsOnly(args: BodyArgs) {
    args.bodyEquals.None? && args.notContains == []
  }

  /** Established by argument validation before any request is sent. */
  predicate ValidArgs(args: BodyArgs, limit: nat) {
    && HasBodyAssertions(args)
    && limit >= 1
    && (forall i | 0 <= i < |args.contains| :: args.contains[i] != [])
    && (forall i | 0 <= i < |args.notContains| :: args.notContains[i] != [])
  }

  /** The meaning of the assertions on a complete body. */
  predicate Satisfies(body: Bytes, args: BodyArgs) {
    && (args.bodyEquals.Some? ==> body == args.bodyEquals.value)
    && ContainsAll(body, args.contains)
    && !ContainsAny(body, args.notContains)
  }

  datatype BufferedBody = BufferedBody(bytes: Bytes, incomplete: bool, exactMatchImpossible: bool)

  datatype Verdict =
    | Pass
    | NotEqual
    | CannotProveEqual
    | Missing(index: nat)
    | CannotProveMissing(index: nat)
    | Forbidden(index: nat)
    | CannotProveAbsence
    | ReadFailed

  function AssertTexts(body: BufferedBody, args: BodyArgs): Verdict {
    match FirstMissing(body.bytes, args.contains)
    case Some(i) => if body.incomplete then CannotProveMissing(i) else Missing(i)
    case None =>
      match FirstPresent(body.bytes, args.notContains)
      case Some(i) => Forbidden(i)
      case None =>
        if body.incomplete && args.notContains != [] then CannotProveAbsence else Pass
  }

  function AssertResponseBody(body: BufferedBody, args: BodyArgs): Verdict {
    if args.bodyEquals.Some? then
      var expected := args.bodyEquals.value;
      if body.exactMatchImpossible || body.bytes != expected then
        if body.incomplete && body.bytes <= expected then CannotProveEqual else NotEqual
      else if body.incomplete then CannotProveEqual
      else AssertTexts(body, args)
    else AssertTexts(body, args)
  }

  // ------------------------------------------- the verdict on a single capture

  /** The complete bodies that a capture leaves possible. */
  ghost predicate Consistent(full: Bytes, capture: BufferedBody) {
    if capture.incomplete then capture.bytes <= full else full == capture.bytes
  }

  /** Whether the captured bytes already rule out an exact match. */
  predicate PrefixMismatch(bytes: Bytes, args: BodyArgs) {
    args.bodyEquals.Some? && !(bytes <= args.bodyEquals.value)
  }

  /** A capture that did not leave through the size-hint exit. */
  predicate FromFrames(capture: BufferedBody, args: BodyArgs) {
    capture.exactMatchImpossible == PrefixMismatch(capture.bytes, args)
  }

  lemma SatisfiesOnExtensions(capture: BufferedBody, full: Bytes, args: BodyArgs)
    requires Consistent(full, capture)
    requires AssertResponseBody(capture, args).Pass?
    ensures Satisfies(full, args)
  {
    ContainsAllExtends(capture.bytes, full, args.contains);
  }

  /** A body longer than `expected` extending `bytes`. */
  function LongerThan(bytes: Bytes, expected: Bytes): (full: Bytes)
    ensures bytes <= full && full != expected
  {
    if bytes == expected then bytes + [0] else bytes
  }

  /** Passing means exactly that every possible complete body satisfies every assertion. */
  lemma PassIffCertain(capture: BufferedBody, args: BodyArgs)
    requires FromFrames(capture, args)
    ensures AssertResponseBody(capture, args).Pass? <==>
            forall full | Consistent(full, capture) :: Satisfies(full, args)
  {
    if AssertResponseBody(capture, args).Pass? {
      forall full | Consistent(full, capture)
        ensures Satisfies(full, args)
      {
        SatisfiesOnExtensions(capture, full, args);
      }
    } else if forall full | Consistent(full, capture) :: Satisfies(full, args) {
      assert Consistent(capture.bytes, capture);
      if capture.incomplete && args.bodyEquals.Some? {
        var other := LongerThan(capture.bytes, args.bodyEquals.value);
        assert Consistent(other, capture);
      } else if capture.incomplete && args.notContains != [] {
        var other := capture.bytes + args.notContains[0];
        ContainsAppended(capture.bytes, args.notContains[0]);
        assert Consistent(other, capture);
      }
    }
  }

  /** Each definite verdict names an assertion that is false of every possible
      complete body; each "cannot prove" verdict names one that is true of some and false of others. */
  lemma VerdictIsExact(capture: BufferedBody, args: BodyArgs)
    requires FromFrames(capture, args)
    ensures match AssertResponseBody(capture, args)
      case NotEqual => args.bodyEquals.Some? && forall full | Consistent(full, capture) :: full != args.bodyEquals.value
      case CannotProveEqual =>
        && args.bodyEquals.Some?
        && Consistent(args.bodyEquals.value, capture)
        && exists full :: Consistent(full, capture) && full != args.bodyEquals.value
      case Missing(i) =>
        i < |args.contains| && forall full | Consistent(full, capture) :: !Contains(full, args.contains[i])
      case CannotProveMissing(i) =>
        && i < |args.contains|
        && (exists full :: Consistent(full, capture) && Contains(full, args.contains[i]))
        && (exists full :: Consistent(full, capture) && !Contains(full, args.contains[i]))
      case Forbidden(i) =>
        i < |args.notContains| && forall full | Consistent(full, capture) :: Contains(full, args.notContains[i])
      case CannotProveAbsence =>
        && (exists full :: Consistent(full, capture) && ContainsAny(full, args.notContains))
        && (exists full :: Consistent(full, capture) && !ContainsAny(full, args.notContains))
      case Pass => true
      case ReadFailed => false
  {
    assert Consistent(capture.bytes, capture);
    match AssertResponseBody(capture, args)
    case CannotProveEqual =>
      var other := LongerThan(capture.bytes, args.bodyEquals.value);
      assert Consistent(other, capture);
    case CannotProveMissing(i) =>
      ContainsAppended(capture.bytes, args.contains[i]);
      assert Consistent(capture.bytes + args.contains[i], capture);
    case Forbidden(i) =>
      forall full | Consistent(full, capture)
        ensures Contains(full, args.notContains[i])
      {
        ContainsExtends(capture.bytes, full, args.notContains[i]);
      }
    case CannotProveAbsence =>
      ContainsAppended(capture.bytes, args.notContains[0]);
      assert Consistent(capture.bytes + args.notContains[0], capture);
    case _ =>
  }

  /** The assertions are checked in their order on the command line, exact match first, then required texts, then
      forbidden ones: a verdict about one of them says that all before it hold, and names the first that does not. */
  lemma {:induction false} VerdictInOrder(capture: BufferedBody, args: BodyArgs)
    requires FromFrames(capture, args)
    ensures var verdict := AssertResponseBody(capture, args);
            var equal := args.bodyEquals.Some? ==> capture.bytes == args.bodyEquals.value && !capture.incomplete;
            && (verdict.NotEqual? || verdict.CannotProveEqual? <==> !equal)
            && (verdict.CannotProveEqual? <==> !equal && capture.incomplete && capture.bytes <= args.bodyEquals.value)
            && (verdict.Missing? || verdict.CannotProveMissing? <==>
                  equal && exists i | 0 <= i < |args.contains| :: !Contains(capture.bytes, args.contains[i]))
            && (verdict.Missing? || verdict.CannotProveMissing? ==>
                  && (verdict.CannotProveMissing? <==> capture.incomplete)
                  && verdict.index < |args.contains| && !Contains(capture.bytes, args.contains[verdict.index])
                  && ContainsAll(capture.bytes, args.contains[..verdict.index]))
            && (verdict.Forbidden? <==>
                  equal && ContainsAll(capture.bytes, args.contains) && ContainsAny(capture.bytes, args.notContains))
            && (verdict.Forbidden? ==>
                  && verdict.index < |args.notContains| && Contains(capture.bytes, args.notContains[verdict.index])
                  && !ContainsAny(capture.bytes, args.notContains[..verdict.index]))
  {
  }

  // ------------------------------------------------------------ early decision

  /** The pure form of the early-exit test: what it says about the captured bytes. */
  predicate Decided(bytes: Bytes, args: BodyArgs) {
    || PrefixMismatch(bytes, args)
    || (args.notContains != [] && ContainsAny(bytes, args.notContains))
    || (ContainsOnly(args) && args.contains != [] && ContainsAll(bytes, args.contains))
  }

  /** An early decision is final: whatever the rest of the body is, and whether or
      not the capture was truncated, the verdict is the one the whole body gets. */
  lemma DecisionIsFinal(bytes: Bytes, full: Bytes, incomplete: bool, args: BodyArgs)
    requires bytes <= full && Decided(bytes, args)
    ensures AssertResponseBody(BufferedBody(bytes, incomplete, PrefixMismatch(bytes, args)), args).Pass?
            <==> Satisfies(full, args)
  {
    ContainsAllExtends(bytes, full, args.contains);
    ContainsAllExtends(bytes, full, args.notContains);
  }
}
