/** What the output protocol guarantees over every run: sound verdicts, monotone progress,
    bounded waiting, and a wait that always returns. */
module ExecOutput {
  import opened Common
  import opened TextMatch
  import opened ExecProtocol

  // ------------------------------------------------------------------ verdicts

  datatype Verdict = Pass | DoesNotContain(index: nat) | LimitReached(index: nat) | StillOpen(index: nat)

  predicate ReachedCaptureBoundaryBeforeEof(o: BufferedOutput) {
    o.incomplete || (o.limitReached && !o.complete)
  }

  /** The check of one stream: the first missing text decides, and how the capture ended decides what is said. */
  function Judge(needles: seq<Bytes>, o: BufferedOutput): Verdict {
    match FirstMissing(o.bytes, needles)
    case None => Pass
    case Some(i) =>
      if ReachedCaptureBoundaryBeforeEof(o) then LimitReached(i)
      else if !o.complete then StillOpen(i)
      else DoesNotContain(i)
  }

  /** What a verdict says about the stream: `read` is everything the child has written to
      it by now, `len` of it was there when the output was copied. */
  ghost predicate VerdictIsTrue(c: Config, p: Producer, len: nat, verdict: Verdict)
    requires len <= |p.read|
  {
    match verdict
    case Pass => ContainsAll(First(p.read, c.limit), c.needles)
    case DoesNotContain(i) =>
      i < |c.needles| && p.eof && len == |p.read| <= c.limit && !Contains(p.read, c.needles[i])
    case LimitReached(i) =>
      i < |c.needles| && |p.read| >= c.limit && !Contains(First(p.read, c.limit), c.needles[i])
    case StillOpen(i) =>
      i < |c.needles| && len < c.limit && !Contains(p.read[..len], c.needles[i])
  }

  /** Under any interleaving of chunks, end of stream, aborts and timers, the verdict on what the wait
      returned is true of the stream; and the only failure it can return is the reader's own. */
  lemma VerdictIsSound(c: Config, run: seq<State>, events: seq<Event>)
    requires ValidConfig(c) && IsRun(c, run, events)
    requires run[|run| - 1].w.waiter.Done?
    ensures match run[|run| - 1].w.waiter.outcome
      case Captured(o, len) =>
        var p := run[|run| - 1].p;
        len <= |p.read| && VerdictIsTrue(c, p, len, Judge(c.needles, o))
      case Failed(result) => result == ReadFailed
  {
    var s := run[|run| - 1];
    InvariantAlong(c, run, events, |run| - 1);
    assert s.p.read[..|s.p.read|] == s.p.read;
    if s.w.waiter.outcome.Captured? {
      var part := s.p.read[..s.w.waiter.outcome.len];
      FirstOfPrefix(part, s.p.read, c.limit);
      ContainsAllExtends(First(part, c.limit), First(s.p.read, c.limit), c.needles);
    }
  }

  /** A verdict is fixed by the bytes read when the output was copied and by whether it was complete, and
      names the first required text that is missing. */
  lemma VerdictIsOfTheCopy(c: Config, run: seq<State>, events: seq<Event>)
    requires ValidConfig(c) && IsRun(c, run, events)
    requires run[|run| - 1].w.waiter.Done? && run[|run| - 1].w.waiter.outcome.Captured?
    ensures var Captured(o, len) := run[|run| - 1].w.waiter.outcome;
            len <= |run[|run| - 1].p.read|
    ensures var Captured(o, len) := run[|run| - 1].w.waiter.outcome;
            var bytes := First(run[|run| - 1].p.read[..len], c.limit);
            var verdict := Judge(c.needles, o);
            && (verdict.Pass? <==> ContainsAll(bytes, c.needles))
            && (verdict.DoesNotContain? ==> len <= c.limit && o.complete)
            && (verdict.LimitReached? ==> len > c.limit || (len == c.limit && !o.complete))
            && (verdict.StillOpen? ==> len < c.limit && !o.complete)
            && (!verdict.Pass? ==>
                  && verdict.index < |c.needles| && !Contains(bytes, c.needles[verdict.index])
                  && ContainsAll(bytes, c.needles[..verdict.index]))
  {
    InvariantAlong(c, run, events, |run| - 1);
  }

  /** When the wait ended because the reader finished, the verdict is the one a search of the whole stream gives. */
  lemma JoinedVerdictIsExact(c: Config, run: seq<State>, events: seq<Event>)
    requires ValidConfig(c) && IsRun(c, run, events)
    requires var w := run[|run| - 1].w.waiter; w.Done? && w.why == Joined && w.outcome.Captured?
    ensures var s := run[|run| - 1];
            var verdict := Judge(c.needles, s.w.waiter.outcome.output);
            && s.p.eof
            && (verdict.Pass? <==> ContainsAll(First(s.p.read, c.limit), c.needles))
            && (verdict.DoesNotContain? <==> |s.p.read| <= c.limit && !ContainsAll(s.p.read, c.needles))
            && (verdict.LimitReached? <==> |s.p.read| > c.limit && !ContainsAll(First(s.p.read, c.limit), c.needles))
  {
    var s := run[|run| - 1];
    InvariantAlong(c, run, events, |run| - 1);
    assert s.p.read[..|s.p.read|] == s.p.read;
  }

  /** The wait has only to collect the result of a reader that is done. */
  ghost predicate Collecting(s: State) {
    && s.p.reader.Finished?
    && match s.w.waiter
       case Top => true
       case Joining => true
       case Done(outcome, why, _) => why == Joined && outcome == JoinOutcome(s.p)
       case _ => false
  }

  lemma {:induction false} CollectsFinishedReader(c: Config, run: seq<State>, events: seq<Event>, n: nat, i: nat)
    requires IsRun(c, run, events) && n < |events| && n < i < |run|
    requires events[n] == ByWaiter(Enter) && run[n].p.reader.Finished?
    ensures Collecting(run[i]) && run[i].p == run[n].p && run[i].w.entered == run[n].now
    ensures run[i].now >= run[n].now && (run[i].now > run[n].now ==> run[i].w.waiter.Done?)
    ensures run[i].w.waiter.Done? ==> run[i].w.waiter.at == run[n].now
    decreases i
  {
    if n < i - 1 {
      CollectsFinishedReader(c, run, events, n, i - 1);
      assert Enabled(run[i - 1], events[i - 1]);
    }
  }

  /** A reader that has finished when the wait begins is always joined, at once, and the verdict is exact. */
  lemma FinishedReaderIsJudgedExactly(c: Config, run: seq<State>, events: seq<Event>, n: nat)
    requires ValidConfig(c) && IsRun(c, run, events) && n < |events|
    requires events[n] == ByWaiter(Enter) && run[n].p.reader.Finished?
    requires run[|run| - 1].w.waiter.Done?
    ensures var s := run[|run| - 1];
            && s.w.waiter.why == Joined && s.w.waiter.at == s.w.entered
            && match s.w.waiter.outcome
               case Failed(_) => run[n].p.reader.result == ReadFailed
               case Captured(o, _) =>
                 && run[n].p.eof
                 && (Judge(c.needles, o).Pass? <==> ContainsAll(First(run[n].p.read, c.limit), c.needles))
                 && (Judge(c.needles, o).DoesNotContain? <==>
                       |run[n].p.read| <= c.limit && !ContainsAll(run[n].p.read, c.needles))
  {
    CollectsFinishedReader(c, run, events, n, |run| - 1);
    InvariantAlong(c, run, events, |run| - 1);
    if run[|run| - 1].w.waiter.outcome.Captured? {
      JoinedVerdictIsExact(c, run, events);
    }
  }

  // ------------------------------------------------------------------ progress

  lemma GrowsInOneStep(c: Config, s: State, e: Event)
    requires ValidConfig(c) && Invariant(c, s) && Enabled(s, e)
    ensures Grows(s.p, Apply(c, s, e).p)
  {
    if e.ByReader? {
      ReaderGrows(c, s.p, e.r);
    }
  }

  /** Everything the reader's side shows only grows along a run. */
  lemma {:induction false} GrowsAlong(c: Config, run: seq<State>, events: seq<Event>, i: nat, j: nat)
    requires ValidConfig(c) && IsRun(c, run, events) && i <= j < |run|
    ensures Grows(run[i].p, run[j].p)
    decreases j
  {
    if i < j {
      GrowsAlong(c, run, events, i, j - 1);
      InvariantAlong(c, run, events, j - 1);
      GrowsInOneStep(c, run[j - 1], events[j - 1]);
      GrowsTransitive(run[i].p, run[j - 1].p, run[j].p);
    }
  }

  /** The published progress is the projection of some earlier shared state, so a snapshot
      taken after a flag was observed still has that flag. */
  lemma {:induction false} PublishedWasShared(c: Config, run: seq<State>, events: seq<Event>, i: nat)
    requires ValidConfig(c) && IsRun(c, run, events) && i < |run|
    ensures exists k | 0 <= k <= i :: run[i].p.value == ProgressOf(run[k].p.shared)
    ensures forall j | i <= j < |run| :: FlagsGrow(run[i].p.value, ProgressOf(run[j].p.shared))
  {
    if i == 0 {
      assert run[0].p.value == ProgressOf(run[0].p.shared);
    } else {
      PublishedWasShared(c, run, events, i - 1);
      InvariantAlong(c, run, events, i - 1);
      if events[i - 1] == ByReader(Publish) {
        assert run[i].p.value == ProgressOf(run[i - 1].p.shared);
      } else {
        assert run[i].p.value == run[i - 1].p.value;
      }
    }
    var k :| 0 <= k <= i && run[i].p.value == ProgressOf(run[k].p.shared);
    forall j | i <= j < |run|
      ensures FlagsGrow(run[i].p.value, ProgressOf(run[j].p.shared))
    {
      GrowsAlong(c, run, events, k, j);
    }
  }

  /** A snapshot returned because a match or a truncation was published judges the stream
      as any later state of it would, the final one included. */
  lemma EarlySnapshotIsFinal(c: Config, run: seq<State>, events: seq<Event>, i: nat, j: nat)
    requires ValidConfig(c) && IsRun(c, run, events) && i <= j < |run|
    requires var w := run[i].w.waiter; w.Done? && (w.why == SawMatch || w.why == SawIncomplete)
    ensures run[i].w.waiter.outcome.Captured?
    ensures Judge(c.needles, run[i].w.waiter.outcome.output) == Judge(c.needles, run[j].p.shared)
  {
    var w := run[i].w.waiter;
    InvariantAlong(c, run, events, i);
    InvariantAlong(c, run, events, j);
    GrowsAlong(c, run, events, i, j);
    var part := run[i].p.read[..w.outcome.len];
    assert part <= run[j].p.read;
    OutputGrows(c, part, run[j].p.read);
  }

  // ------------------------------------------------------------------- waiting

  const GRACE_TOTAL: nat := 300_000_000

  predicate Waiting(s: State) {
    !s.w.waiter.NotEntered? && !s.w.waiter.Done?
  }

  /** However often the settle waits restart, the wait lasts at most 300 ms and ends by the hard
      deadline, at once when that has passed; and its loop goes round at most `limit + 2` times. */
  lemma WaitIsBounded(c: Config, run: seq<State>, events: seq<Event>, i: nat)
    requires ValidConfig(c) && IsRun(c, run, events) && i < |run|
    ensures var s := run[i];
            && (Waiting(s) ==> s.now <= s.w.entered + GRACE_TOTAL && s.now <= Max(s.w.entered, c.deadline))
            && (s.w.waiter.Done? ==>
                  s.w.waiter.at <= s.w.entered + GRACE_TOTAL && s.w.waiter.at <= Max(s.w.entered, c.deadline))
            && s.w.turns <= c.limit + 2
            && s.steps <= 4 * c.limit + 14
  {
    InvariantAlong(c, run, events, i);
  }

  /** The probe waits for one stream and then for the other under one deadline: together at most 600 ms. */
  lemma BothWaitsAreBounded(c: Config, run: seq<State>, events: seq<Event>,
                            c': Config, run': seq<State>, events': seq<Event>)
    requires ValidConfig(c) && IsRun(c, run, events) && ValidConfig(c') && IsRun(c', run', events')
    requires c'.deadline == c.deadline
    requires run[|run| - 1].w.waiter.Done? && run'[|run'| - 1].w.waiter.Done?
    requires run'[|run'| - 1].w.entered == run[|run| - 1].w.waiter.at
    ensures var entered, end := run[|run| - 1].w.entered, run'[|run'| - 1].w.waiter.at;
            entered <= end <= entered + 2 * GRACE_TOTAL && end <= Max(entered, c.deadline)
  {
    InvariantAlong(c, run, events, |run| - 1);
    InvariantAlong(c', run', events', |run'| - 1);
  }

  /** A wait that gives up does so with the reader aborted, and not before the idle grace since
      it began, or the limit grace since it first waited at the limit, or the deadline. */
  lemma GivesUpOnlyAfterGrace(c: Config, run: seq<State>, events: seq<Event>)
    requires ValidConfig(c) && IsRun(c, run, events)
    requires run[|run| - 1].w.waiter.Done? && run[|run| - 1].w.waiter.why != Joined
    ensures var w := run[|run| - 1].w;
            && w.abortRequested
            && (w.waiter.why == GraceOver ==>
                  w.waiter.at >= Min(c.deadline, if w.limitAt.None? then w.entered + OUTPUT_IDLE_GRACE_AFTER_EXIT
                                                 else w.limitAt.value + OUTPUT_EOF_GRACE_AFTER_LIMIT))
  {
    InvariantAlong(c, run, events, |run| - 1);
  }

  /** When a wait that last looked at the published progress in state `s`, and found
      neither a match nor a truncation, gives up. */
  function GivesUpAt(c: Config, s: State): nat {
    var end := if s.p.value.limitReached then c.deadline else Min(s.w.entered + 250_000_000, c.deadline);
    Max(s.now, Min(s.now + 50_000_000, end))
  }

  /** Since it looked at the published progress in state `s` the wait has only settled. */
  ghost predicate SettlesSince(c: Config, s: State, s': State) {
    && s'.w.entered == s.w.entered
    && match s'.w.waiter
       case Entering(atLimit) => s'.now == s.now && atLimit == s.p.value.limitReached
       case Settling(timer, _) => timer == GivesUpAt(c, s) && s'.now <= timer
       case Stopping => s'.now == GivesUpAt(c, s)
       case Done(_, why, at) => why == GraceOver && at == GivesUpAt(c, s)
       case _ => false
  }

  predicate LooksIn(s: State, e: Event) {
    s.w.waiter.Polling? && e == ByWaiter(Advance) && !s.p.value.matched && !s.p.value.incomplete
  }

  lemma {:induction false} LastLook(c: Config, run: seq<State>, events: seq<Event>, i: nat) returns (m: nat)
    requires ValidConfig(c) && IsRun(c, run, events) && i < |run|
    requires var w := run[i].w.waiter;
             w.Entering? || w.Settling? || w.Stopping? || (w.Done? && w.why == GraceOver)
    ensures m < i && LooksIn(run[m], events[m]) && SettlesSince(c, run[m], run[i])
    ensures forall k | m < k < i :: events[k] != ByWaiter(SelectChanged)
  {
    var s, e := run[i - 1], events[i - 1];
    assert Enabled(s, e) && run[i] == Apply(c, s, e);
    InvariantAlong(c, run, events, i - 1);
    if s.w.waiter.Polling? && e.ByWaiter? {
      m := i - 1;
    } else {
      m := LastLook(c, run, events, i - 1);
      SettlesOn(c, run[m], s, e);
    }
  }

  lemma SettlesOn(c: Config, look: State, s: State, e: Event)
    requires SettlesSince(c, look, s) && Enabled(s, e)
    requires var w := Apply(c, s, e).w.waiter;
             w.Entering? || w.Settling? || w.Stopping? || (w.Done? && w.why == GraceOver)
    ensures SettlesSince(c, look, Apply(c, s, e))
  {
  }

  /** A wait that gives up does so at an exact time: a full 50 ms after it last looked at the published progress,
      which it does again after every publication it notices, or earlier at the end of its time: the hard deadline
      when the capture was full, and otherwise 250 ms after it began, or the hard deadline. */
  lemma {:induction false} GivesUpExactlyWhen(c: Config, run: seq<State>, events: seq<Event>) returns (m: nat)
    requires ValidConfig(c) && IsRun(c, run, events)
    requires var w := run[|run| - 1].w.waiter; w.Done? && w.why == GraceOver
    ensures m < |events| && run[m].w.waiter.Polling? && events[m] == ByWaiter(Advance)
    ensures forall k | m < k < |events| :: events[k] != ByWaiter(SelectChanged)
    ensures var value, entered := run[m].p.value, run[|run| - 1].w.entered;
            var end := if value.limitReached then c.deadline else Min(entered + 250_000_000, c.deadline);
            && !value.matched && !value.incomplete
            && run[|run| - 1].w.waiter.at == Max(run[m].now, Min(run[m].now + 50_000_000, end))
  {
    m := LastLook(c, run, events, |run| - 1);
  }

  lemma {:induction false} TimeGoesOn(c: Config, run: seq<State>, events: seq<Event>, i: nat, j: nat)
    requires IsRun(c, run, events) && i <= j < |run|
    ensures run[i].now <= run[j].now
    decreases j
  {
    if i < j {
      TimeGoesOn(c, run, events, i, j - 1);
      assert Enabled(run[j - 1], events[j - 1]) && run[j] == Apply(c, run[j - 1], events[j - 1]);
    }
  }

  /** Every publication that the wait notices starts the idle grace again. */
  lemma {:induction false} NewsRestartsGrace(c: Config, run: seq<State>, events: seq<Event>, n: nat)
    requires ValidConfig(c) && IsRun(c, run, events) && n < |events|
    requires events[n] == ByWaiter(SelectChanged)
    requires var w := run[|run| - 1].w.waiter; w.Done? && w.why == GraceOver
    ensures var w := run[|run| - 1].w;
            w.waiter.at >= Min(run[n].now + 50_000_000, Min(w.entered + 250_000_000, c.deadline))
  {
    var m := GivesUpExactlyWhen(c, run, events);
    assert Enabled(run[n], events[n]);
    TimeGoesOn(c, run, events, n, m);
  }

  /** A published match or truncation that the wait looks at is returned at once. */
  lemma {:induction false} LookIsAnswered(c: Config, run: seq<State>, events: seq<Event>, n: nat, i: nat)
    requires IsRun(c, run, events) && n < |events| && n < i < |run|
    requires run[n].w.waiter.Polling? && events[n] == ByWaiter(Advance)
    requires run[n].p.value.matched || run[n].p.value.incomplete
    ensures var why := if run[n].p.value.matched then SawMatch else SawIncomplete;
            match run[i].w.waiter
            case Snapshotting(w) => w == why && run[i].now == run[n].now
            case Done(_, w, at) => w == why && at == run[n].now
            case _ => false
    decreases i
  {
    assert Enabled(run[i - 1], events[i - 1]) && run[i] == Apply(c, run[i - 1], events[i - 1]);
    if n < i - 1 {
      LookIsAnswered(c, run, events, n, i - 1);
    }
  }

  /** A run that never ends. */
  ghost predicate IsInfiniteRun(c: Config, run: nat -> State, events: nat -> Event) {
    && run(0) == Init()
    && forall i: nat {:trigger events(i)} :: Enabled(run(i), events(i)) && run(i + 1) == Apply(c, run(i), events(i))
  }

  ghost predicate WaiterReady(s: State) {
    exists e :: WaiterCan(s, e)
  }

  ghost predicate ReadyFrom(run: nat -> State, n: nat) {
    forall i: nat | i >= n :: WaiterReady(run(i))
  }

  /** A waiter that stays ready is eventually scheduled. */
  ghost predicate Fair(run: nat -> State, events: nat -> Event) {
    forall n: nat | ReadyFrom(run, n) :: exists i: nat | i >= n :: events(i).ByWaiter?
  }

  lemma {:induction false} InvariantForever(c: Config, run: nat -> State, events: nat -> Event, i: nat)
    requires ValidConfig(c) && IsInfiniteRun(c, run, events)
    ensures Invariant(c, run(i))
  {
    if i == 0 {
      InitInvariant(c);
    } else {
      InvariantForever(c, run, events, i - 1);
      InvariantStep(c, run(i - 1), events(i - 1));
    }
  }

  /** A number that cannot exceed `bound` stops changing if it never decreases. */
  lemma {:induction false} Settles(f: nat -> nat, n: nat, bound: nat) returns (m: nat)
    requires forall i: nat, j: nat | n <= i <= j :: f(i) <= f(j)
    requires forall i: nat | i >= n :: f(i) <= bound
    ensures m >= n && forall i: nat | i >= m :: f(i) == f(m)
    decreases bound - f(n)
  {
    if i: nat :| i > n && f(i) > f(n) {
      m := Settles(f, i, bound);
    } else {
      m := n;
    }
  }

  /** The waiter stays ready while only the reader moves. */
  lemma ReadyStays(c: Config, s: State, e: ReaderEvent)
    requires Invariant(c, s) && Waiting(s) && WaiterReady(s) && ReaderCan(s.p, s.w.abortRequested, e)
    ensures WaiterReady(s.(p := ReaderStep(c, s.p, e)))
  {
    var s' := s.(p := ReaderStep(c, s.p, e));
    if s.w.waiter.Settling? {
      assert || WaiterCan(s', SelectJoin) || WaiterCan(s', SelectChanged)
             || WaiterCan(s', SelectClosed) || WaiterCan(s', SelectTimer);
    } else {
      assert WaiterCan(s', Advance);
    }
  }

  /** Reader steps until a publication, or the closing of the channel, can wake the waiter. */
  function StepsToWake(r: Reader): nat {
    match r
    case AtRead => 5
    case Publishing(_) => 1
    case AnnouncingEnd(_) => 1
    case Leaving(_) => 2
    case Returned(_) => 1
    case Finished(_) => 0
  }

  lemma ReaderWakes(c: Config, s: State, e: ReaderEvent)
    requires Invariant(c, s) && Waiting(s) && !WaiterReady(s) && ReaderCan(s.p, s.w.abortRequested, e)
    ensures var s' := s.(p := ReaderStep(c, s.p, e));
            WaiterReady(s') || StepsToWake(s'.p.reader) < StepsToWake(s.p.reader)
  {
    var s' := s.(p := ReaderStep(c, s.p, e));
    assert && !WaiterCan(s, Advance) && !WaiterCan(s, SelectClosed)
           && !WaiterCan(s, SelectChanged) && !WaiterCan(s, SelectJoin);
    if || WaiterCan(s', Advance) || WaiterCan(s', SelectChanged)
       || WaiterCan(s', SelectClosed) || WaiterCan(s', SelectJoin)
    {
      assert WaiterReady(s');
    }
  }

  /** From a moment on, only the reader moves. */
  ghost predicate OnlyReader(c: Config, run: nat -> State, events: nat -> Event, n: nat) {
    forall i: nat {:trigger events(i)} | i >= n :: events(i).ByReader? && Waiting(run(i)) && Invariant(c, run(i))
  }

  lemma OnlyReaderLater(c: Config, run: nat -> State, events: nat -> Event, n: nat, m: nat)
    requires OnlyReader(c, run, events, n) && m >= n
    ensures OnlyReader(c, run, events, m)
  {
    forall i: nat {:trigger events(i)} | i >= m
      ensures events(i).ByReader? && Waiting(run(i)) && Invariant(c, run(i))
    {
    }
  }

  lemma {:induction false} WakesUp(c: Config, run: nat -> State, events: nat -> Event, n: nat) returns (m: nat)
    requires IsInfiniteRun(c, run, events) && OnlyReader(c, run, events, n)
    ensures m >= n && WaiterReady(run(m))
    decreases StepsToWake(run(n).p.reader)
  {
    if WaiterReady(run(n)) {
      m := n;
    } else {
      ReaderWakes(c, run(n), events(n).r);
      OnlyReaderLater(c, run, events, n, n + 1);
      if WaiterReady(run(n + 1)) {
        m := n + 1;
      } else {
        m := WakesUp(c, run, events, n + 1);
      }
    }
  }

  lemma {:induction false} ReadyForever(c: Config, run: nat -> State, events: nat -> Event, n: nat, i: nat)
    requires IsInfiniteRun(c, run, events) && OnlyReader(c, run, events, n)
    requires WaiterReady(run(n)) && i >= n
    ensures WaiterReady(run(i))
  {
    if i > n {
      ReadyForever(c, run, events, n, i - 1);
      ReadyStays(c, run(i - 1), events(i - 1).r);
      assert run(i - 1 + 1) == run(i);
    }
  }

  /** Steps and the clock never go back. */
  lemma {:induction false} CountsUp(c: Config, run: nat -> State, events: nat -> Event, i: nat, j: nat)
    requires IsInfiniteRun(c, run, events) && i <= j && !run(i).w.waiter.NotEntered?
    ensures run(i).steps <= run(j).steps && run(i).now <= run(j).now
    ensures !run(j).w.waiter.NotEntered? && run(i).w.entered == run(j).w.entered
    decreases j
  {
    if i < j {
      CountsUp(c, run, events, i, j - 1);
      assert Enabled(run(j - 1), events(j - 1));
    }
  }

  /** If the wait never ends, then at some point the clock has stopped and the waiter takes no more steps. */
  lemma NeverReturningStalls(c: Config, run: nat -> State, events: nat -> Event, start: nat) returns (m: nat)
    requires ValidConfig(c) && IsInfiniteRun(c, run, events)
    requires forall i: nat | i >= start :: Waiting(run(i))
    ensures OnlyReader(c, run, events, m)
  {
    forall i: nat, j: nat | start <= i <= j
      ensures run(i).steps <= run(j).steps && run(i).now <= run(j).now
      ensures run(j).w.entered == run(start).w.entered
    {
      CountsUp(c, run, events, start, i);
      CountsUp(c, run, events, i, j);
    }
    forall i: nat
      ensures Invariant(c, run(i))
    {
      InvariantForever(c, run, events, i);
    }
    forall i: nat | i >= start
      ensures run(i).steps <= 4 * c.limit + 14 && run(i).now <= run(start).w.entered + GRACE_TOTAL
    {
      BoundedWhileWaiting(c, run(i));
    }
    var steps: nat -> nat := i => run(i).steps;
    var clock: nat -> nat := i => run(i).now;
    var n := Settles(steps, start, 4 * c.limit + 14);
    m := Settles(clock, n, run(start).w.entered + GRACE_TOTAL);
    forall i: nat | i >= m
      ensures events(i).ByReader?
    {
      assert steps(i) == steps(i + 1) && clock(i) == clock(i + 1);
      StalledMeansReader(c, run(i), events(i));
    }
  }

  lemma BoundedWhileWaiting(c: Config, s: State)
    requires Invariant(c, s) && Waiting(s)
    ensures s.steps <= 4 * c.limit + 14 && s.now <= s.w.entered + GRACE_TOTAL
  {
  }

  lemma StalledMeansReader(c: Config, s: State, e: Event)
    requires Enabled(s, e)
    requires var s' := Apply(c, s, e); s'.steps == s.steps && s'.now == s.now
    ensures e.ByReader?
  {
  }

  /** An event that only the child can bring about. */
  predicate ByChild(e: Event) {
    e.ByReader? && (e.r.Chunk? || e.r.EndOfStream? || e.r.ReadError?)
  }

  /** A wait never gets stuck: even if the child does nothing any more, some step can be
      taken; and while the reader is at its read, the waiter is ready or the clock can move. */
  lemma WaitIsNeverStuck(c: Config, run: seq<State>, events: seq<Event>)
    requires ValidConfig(c) && IsRun(c, run, events) && Waiting(run[|run| - 1])
    ensures var s := run[|run| - 1];
            && (exists e :: Enabled(s, e) && !ByChild(e))
            && (s.p.reader.AtRead? ==> WaiterReady(s) || CanTick(s, 1))
  {
    var s := run[|run| - 1];
    InvariantAlong(c, run, events, |run| - 1);
    var byReader := match s.p.reader
      case Publishing(_) => Publish
      case AnnouncingEnd(_) => Publish
      case Leaving(_) => DropSender
      case _ => Finish;
    if s.w.waiter.Settling? {
      assert || Enabled(s, ByReader(byReader)) || Enabled(s, Tick(1)) || Enabled(s, ByWaiter(SelectJoin))
             || Enabled(s, ByWaiter(SelectChanged)) || Enabled(s, ByWaiter(SelectTimer));
      assert s.p.reader.AtRead? ==> WaiterCan(s, SelectChanged) || WaiterCan(s, SelectTimer) || CanTick(s, 1);
    } else {
      assert Enabled(s, ByReader(byReader)) || Enabled(s, ByWaiter(Advance));
      assert s.p.reader.AtRead? ==> WaiterCan(s, Advance);
    }
  }

  /** Every fair run in which the wait starts returns from it. */
  lemma WaitAlwaysReturns(c: Config, run: nat -> State, events: nat -> Event, start: nat)
    requires ValidConfig(c) && IsInfiniteRun(c, run, events) && Fair(run, events)
    requires Waiting(run(start))
    ensures exists i: nat :: i >= start && run(i).w.waiter.Done?
  {
    if forall i: nat | i >= start :: !run(i).w.waiter.Done? {
      forall i: nat | i >= start
        ensures Waiting(run(i))
      {
        CountsUp(c, run, events, start, i);
      }
      var m := NeverReturningStalls(c, run, events, start);
      var k := WakesUp(c, run, events, m);
      OnlyReaderLater(c, run, events, m, k);
      forall i: nat | i >= k
        ensures WaiterReady(run(i))
      {
        ReadyForever(c, run, events, k, i);
      }
      assert ReadyFrom(run, k);
      assert false;
    }
  }

  const EXAMPLE := Config(10, [[1]], 1_000)
  const MATCHED := BufferedOutput([1], false, true, false, false)

  lemma ExampleChunk()
    ensures ValidConfig(EXAMPLE)
    ensures AppendChunk(EXAMPLE, EMPTY_OUTPUT, [1]) == MATCHED
  {
    assert OccursAt([1], EXAMPLE.needles[0], 0);
    assert [] + [1] == [1 as Byte];
  }

  function ExampleState(reader: Reader, version: nat, waiter: Waiter, steps: nat): State {
    var value := ProgressOf(if version == 0 then EMPTY_OUTPUT else MATCHED);
    State(0, Producer([1], false, MATCHED, reader, value, version, version),
          Consumer(waiter, 0, waiter.Done?, 0, None, 0), steps)
  }

  /** A run in which the wait returns a match: the child writes the required text and keeps its stream open. */
  lemma MatchingRun()
    ensures exists run: seq<State>, events: seq<Event> ::
              && IsRun(EXAMPLE, run, events)
              && run[|run| - 1].w.waiter == Done(Captured(MATCHED, 1), SawMatch, 0)
  {
    ExampleChunk();
    var events := [ByWaiter(Enter), ByReader(Chunk([1])), ByReader(Publish),
                   ByWaiter(Advance), ByWaiter(Advance), ByWaiter(Advance)];
    var entered := Init().(w := Init().w.(waiter := Top), steps := 1);
    assert [] + [1] == [1 as Byte];
    assert Apply(EXAMPLE, entered, events[1]) == ExampleState(Publishing(ProgressOf(MATCHED)), 0, Top, 1);
    var run := [Init(), entered, ExampleState(Publishing(ProgressOf(MATCHED)), 0, Top, 1),
                ExampleState(AtRead, 1, Top, 1),
                ExampleState(AtRead, 1, Polling, 2), ExampleState(AtRead, 1, Snapshotting(SawMatch), 3),
                ExampleState(AtRead, 1, Done(Captured(MATCHED, 1), SawMatch, 0), 4)];
    assert IsRun(EXAMPLE, run, events);
  }
}
