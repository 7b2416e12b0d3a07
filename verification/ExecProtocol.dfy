/** The exec probe's output protocol as a transition system: a reader task fills a shared
    buffer and publishes its progress over a watch channel, while a waiter polls, snapshots,
    aborts, and is bounded by grace periods and a hard deadline. Every access to shared
    state is one step, and the steps of the two sides interleave freely. */
module ExecProtocol {
  import opened Common
  import opened TextMatch

  // Nanoseconds.
  const OUTPUT_EOF_GRACE_AFTER_LIMIT: nat := 50_000_000
  const OUTPUT_IDLE_GRACE_AFTER_EXIT: nat := 50_000_000
  const OUTPUT_MAX_GRACE_AFTER_EXIT: nat := 250_000_000

  /** One captured stream: its capture limit, its required texts and the hard deadline of the probe. */
  datatype Config = Config(limit: nat, needles: seq<Bytes>, deadline: nat)

  /** A stream is only captured when it has required texts; they and the limit are validated before. */
  predicate ValidConfig(c: Config) {
    c.limit >= 1 && c.needles != [] && forall i | 0 <= i < |c.needles| :: c.needles[i] != []
  }

  datatype BufferedOutput =
    BufferedOutput(bytes: Bytes, incomplete: bool, matched: bool, limitReached: bool, complete: bool)

  const EMPTY_OUTPUT := BufferedOutput([], false, false, false, false)

  datatype Progress = Progress(incomplete: bool, matched: bool, limitReached: bool)

  function ProgressOf(o: BufferedOutput): Progress {
    Progress(o.incomplete, o.matched, o.limitReached)
  }

  /** What the reader does to the shared output, under the lock, with one chunk. */
  function AppendChunk(c: Config, o: BufferedOutput, chunk: Bytes): BufferedOutput {
    var room := Max(c.limit, |o.bytes|);
    var bytes := First(o.bytes + chunk, room);
    BufferedOutput(bytes, o.incomplete || |o.bytes| + |chunk| > room,
                   c.needles != [] && ContainsAll(bytes, c.needles),
                   c.needles != [] && |bytes| == c.limit, false)
  }

  // -------------------------------------------------------------------- states

  datatype TaskResult = Output(output: BufferedOutput) | ReadFailed | Cancelled

  /** Where the reader task is. `AtRead` is its only suspension point. */
  datatype Reader =
    | AtRead
    | Publishing(progress: Progress)
    | AnnouncingEnd(output: BufferedOutput)
    | Leaving(result: TaskResult)   // the channel's sender still exists
    | Returned(result: TaskResult)  // the sender is dropped, the join handle not yet ready
    | Finished(result: TaskResult)

  datatype Why = Joined | SawMatch | SawIncomplete | GraceOver

  /** A returned output remembers how many bytes had been read when it was copied. */
  datatype Outcome = Captured(output: BufferedOutput, len: nat) | Failed(result: TaskResult)

  /** The reader task's side: what it has read, the output it shares, and the watch channel it publishes to. */
  datatype Producer = Producer(
    read: Bytes,
    eof: bool,             // the end of the stream has been seen
    shared: BufferedOutput,
    reader: Reader,
    value: Progress,       // the channel's current value, its version, and how much had been read when it was made
    version: nat,
    published: nat
  )

  /** Where the waiter is. */
  datatype Waiter =
    | NotEntered
    | Top
    | Polling
    | Snapshotting(why: Why)
    | Entering(atLimit: bool)
    | Settling(timer: nat, atLimit: bool)
    | Stopping
    | Joining
    | Done(outcome: Outcome, why: Why, at: nat)

  /** The waiter's side. */
  datatype Consumer = Consumer(
    waiter: Waiter,
    seen: nat,             // the channel version last seen
    abortRequested: bool,
    entered: nat,          // when the wait started
    limitAt: Option<nat>,  // when it first waited at the limit
    turns: nat             // how often its loop went round
  )

  /** The clock, both sides, and how many steps the waiter took. */
  datatype State = State(now: nat, p: Producer, w: Consumer, steps: nat)

  function Init(): State {
    State(0, Producer([], false, EMPTY_OUTPUT, AtRead, ProgressOf(EMPTY_OUTPUT), 0, 0),
          Consumer(NotEntered, 0, false, 0, None, 0), 0)
  }

  // -------------------------------------------------------------------- events

  datatype ReaderEvent =
    | Chunk(bytes: Bytes)
    | EndOfStream
    | ReadError
    | Publish
    | DropSender
    | Finish
    | Cancel

  datatype WaiterEvent = Enter | Advance | SelectJoin | SelectChanged | SelectClosed | SelectTimer

  datatype Event = ByReader(r: ReaderEvent) | ByWaiter(w: WaiterEvent) | Tick(elapsed: nat)

  predicate SenderGone(p: Producer) {
    p.reader.Returned? || p.reader.Finished?
  }

  /** No branch of the waiter's select is ready. */
  predicate Blocked(s: State) {
    && s.w.waiter.Settling?
    && !s.p.reader.Finished? && s.p.version == s.w.seen && !SenderGone(s.p)
    && s.now < s.w.waiter.timer
  }

  /** Computation takes no time: the clock moves only while the reader is suspended or
      finished, and while the waiter is outside or blocked, then no further than its timer. */
  predicate CanTick(s: State, elapsed: nat) {
    && elapsed > 0
    && (s.p.reader.AtRead? || s.p.reader.Finished?)
    && (s.w.waiter.NotEntered? || s.w.waiter.Done? || (Blocked(s) && s.now + elapsed <= s.w.waiter.timer))
  }

  predicate ReaderCan(p: Producer, abortRequested: bool, e: ReaderEvent) {
    match e
    case Chunk(bytes) => p.reader.AtRead? && 0 < |bytes| <= READ_SIZE
    case EndOfStream => p.reader.AtRead?
    case ReadError => p.reader.AtRead?
    case Publish => p.reader.Publishing? || p.reader.AnnouncingEnd?
    case DropSender => p.reader.Leaving?
    case Finish => p.reader.Returned?
    case Cancel => p.reader.AtRead? && abortRequested
  }

  predicate WaiterCan(s: State, e: WaiterEvent) {
    var w := s.w.waiter;
    match e
    case Enter => w.NotEntered?
    case Advance => w.Top? || w.Polling? || w.Snapshotting? || w.Entering? || w.Stopping?
                    || (w.Joining? && s.p.reader.Finished?)
    case SelectJoin => w.Settling? && s.p.reader.Finished?
    case SelectChanged => w.Settling? && s.p.version != s.w.seen
    case SelectClosed => w.Settling? && s.p.version == s.w.seen && SenderGone(s.p)
    case SelectTimer => w.Settling? && s.now >= w.timer
  }

  predicate Enabled(s: State, e: Event) {
    match e
    case ByReader(r) => ReaderCan(s.p, s.w.abortRequested, r)
    case ByWaiter(w) => WaiterCan(s, w)
    case Tick(elapsed) => CanTick(s, elapsed)
  }

  function ReaderStep(c: Config, p: Producer, e: ReaderEvent): Producer
    requires ReaderCan(p, true, e)
  {
    match e
    case Chunk(bytes) =>
      var output := AppendChunk(c, p.shared, bytes);
      p.(read := p.read + bytes, shared := output, reader := Publishing(ProgressOf(output)))
    case EndOfStream =>
      var output := p.shared.(complete := true);
      p.(eof := true, shared := output, reader := AnnouncingEnd(output))
    case ReadError => p.(reader := Leaving(ReadFailed))
    case Publish =>
      if p.reader.Publishing? then
        p.(value := p.reader.progress, version := p.version + 1, published := |p.read|, reader := AtRead)
      else
        p.(value := ProgressOf(p.reader.output), version := p.version + 1, published := |p.read|,
           reader := Leaving(Output(p.reader.output)))
    case DropSender => p.(reader := Returned(p.reader.result))
    case Finish => p.(reader := Finished(p.reader.result))
    case Cancel => p.(reader := Leaving(Cancelled))
  }

  function OutputDeadline(c: Config, entered: nat): nat {
    Min(entered + OUTPUT_MAX_GRACE_AFTER_EXIT, c.deadline)
  }

  /** What awaiting the finished task returns. */
  function JoinOutcome(p: Producer): Outcome
    requires p.reader.Finished?
  {
    match p.reader.result
    case Output(o) => Captured(o, |p.read|)
    case other => Failed(other)
  }

  function Snapshot(p: Producer): Outcome {
    Captured(p.shared, |p.read|)
  }

  function EnterSettle(c: Config, now: nat, w: Consumer, atLimit: bool): Consumer {
    var deadline := if atLimit then c.deadline else OutputDeadline(c, w.entered);
    var maxGrace := if atLimit then OUTPUT_EOF_GRACE_AFTER_LIMIT else OUTPUT_IDLE_GRACE_AFTER_EXIT;
    var grace := Min(Max(0, deadline - now), maxGrace);
    if grace == 0 then w.(abortRequested := true, waiter := Stopping)
    else w.(waiter := Settling(now + grace, atLimit))
  }

  function AdvanceWaiter(c: Config, s: State): Consumer
    requires WaiterCan(s, Advance)
  {
    var w := s.w;
    match w.waiter
    case Top => w.(waiter := if s.p.reader.Finished? then Joining else Polling)
    case Polling =>
      if s.p.value.matched then w.(waiter := Snapshotting(SawMatch))
      else if s.p.value.incomplete then w.(waiter := Snapshotting(SawIncomplete))
      else if s.p.value.limitReached then
        w.(waiter := Entering(true), limitAt := if w.limitAt.None? then Some(s.now) else w.limitAt)
      else w.(waiter := Entering(false))
    case Snapshotting(why) => w.(abortRequested := true, waiter := Done(Snapshot(s.p), why, s.now))
    case Entering(atLimit) => EnterSettle(c, s.now, w, atLimit)
    case Stopping => w.(waiter := Done(Snapshot(s.p), GraceOver, s.now))
    case Joining => w.(waiter := Done(JoinOutcome(s.p), Joined, s.now))
  }

  function WaiterStep(c: Config, s: State, e: WaiterEvent): Consumer
    requires WaiterCan(s, e)
  {
    var w := s.w;
    match e
    case Enter => w.(waiter := Top, entered := s.now)
    case Advance => AdvanceWaiter(c, s)
    case SelectJoin => w.(waiter := Done(JoinOutcome(s.p), Joined, s.now))
    case SelectChanged => w.(seen := s.p.version, turns := w.turns + 1, waiter := Top)
    case SelectClosed => w.(waiter := Joining)
    case SelectTimer => w.(abortRequested := true, waiter := Stopping)
  }

  function Apply(c: Config, s: State, e: Event): State
    requires Enabled(s, e)
  {
    match e
    case ByReader(r) => s.(p := ReaderStep(c, s.p, r))
    case ByWaiter(w) => s.(w := WaiterStep(c, s, w), steps := s.steps + 1)
    case Tick(elapsed) => s.(now := s.now + elapsed)
  }

  /** A finite interleaving, from the moment the reader is spawned: `run[i + 1]` follows `run[i]` by `events[i]`. */
  ghost predicate IsRun(c: Config, run: seq<State>, events: seq<Event>) {
    && |run| == |events| + 1
    && run[0] == Init()
    && forall i {:trigger events[i]} | 0 <= i < |events| ::
         Enabled(run[i], events[i]) && run[i + 1] == Apply(c, run[i], events[i])
  }

  // ---------------------------------------------------------- the reader's side

  /** The output that a plain look at everything read so far gives. */
  function OutputOf(c: Config, read: Bytes): BufferedOutput {
    var bytes := First(read, c.limit);
    BufferedOutput(bytes, |read| > c.limit, ContainsAll(bytes, c.needles), |bytes| == c.limit, false)
  }

  function ResultOf(r: Reader): Option<TaskResult> {
    if r.Leaving? || r.Returned? || r.Finished? then Some(r.result) else None
  }

  /** The reader has announced the end of the stream or given up reading. */
  predicate ReaderLeft(p: Producer) {
    ResultOf(p.reader).Some?
  }

  predicate EndAnnounced(p: Producer) {
    ReaderLeft(p) && ResultOf(p.reader).value.Output?
  }

  /** The shared output is what a plain look at the bytes read gives, and the reader's own copies agree with it. */
  ghost predicate DataInvariant(c: Config, p: Producer) {
    && p.shared == OutputOf(c, p.read).(complete := p.eof)
    && (p.eof <==> p.reader.AnnouncingEnd? || EndAnnounced(p))
    && (p.reader.AnnouncingEnd? ==> p.reader.output == p.shared)
    && (EndAnnounced(p) ==> ResultOf(p.reader).value.output == p.shared)
    && (p.reader.Publishing? ==> p.reader.progress == ProgressOf(p.shared))
  }

  /** The published value is what a plain look gave at some earlier moment, at most one chunk ago. */
  ghost predicate ChannelInvariant(c: Config, p: Producer) {
    && p.published <= |p.read|
    && p.value == ProgressOf(OutputOf(c, p.read[..p.published]))
    && (p.published == |p.read| <==> !p.reader.Publishing?)
    && p.version <= p.published + (if EndAnnounced(p) then 1 else 0)
  }

  /** The waiter will return without waiting any more. */
  predicate Over(p: Producer) {
    p.value.matched || p.value.incomplete || ReaderLeft(p)
  }

  predicate FlagsGrow(a: Progress, b: Progress) {
    (a.matched ==> b.matched) && (a.incomplete ==> b.incomplete) && (a.limitReached ==> b.limitReached)
  }

  /** How the reader's side can change over any number of steps. */
  ghost predicate Grows(p: Producer, p': Producer) {
    && p.read <= p'.read && (p.eof ==> p'.eof && p'.read == p.read)
    && p.shared.bytes <= p'.shared.bytes
    && FlagsGrow(ProgressOf(p.shared), ProgressOf(p'.shared))
    && FlagsGrow(p.value, p'.value)
    && p.version <= p'.version
    && (ReaderLeft(p) ==> ResultOf(p'.reader) == ResultOf(p.reader) && p'.read == p.read)
    && (SenderGone(p) ==> SenderGone(p'))
    && (p.value.limitReached && p'.version != p.version ==> Over(p'))
  }

  /** Appending a chunk to the shared output is looking at a longer stream. */
  lemma AppendChunkIsOutputOf(c: Config, read: Bytes, chunk: Bytes, complete: bool)
    requires ValidConfig(c)
    ensures AppendChunk(c, OutputOf(c, read).(complete := complete), chunk) == OutputOf(c, read + chunk)
  {
    assert First(First(read, c.limit) + chunk, c.limit) == First(read + chunk, c.limit);
  }

  /** What a capture shows never gets lost when more is read, and a truncated capture does not change at all. */
  lemma OutputGrows(c: Config, read: Bytes, more: Bytes)
    requires read <= more
    ensures OutputOf(c, read).bytes <= OutputOf(c, more).bytes
    ensures FlagsGrow(ProgressOf(OutputOf(c, read)), ProgressOf(OutputOf(c, more)))
    ensures OutputOf(c, read).incomplete ==> OutputOf(c, more).bytes == OutputOf(c, read).bytes
    ensures OutputOf(c, read).limitReached && |more| > |read| ==> OutputOf(c, more).incomplete
  {
    FirstOfPrefix(read, more, c.limit);
    ContainsAllExtends(First(read, c.limit), First(more, c.limit), c.needles);
  }

  lemma ReaderKeepsData(c: Config, p: Producer, e: ReaderEvent)
    requires ValidConfig(c) && DataInvariant(c, p) && ReaderCan(p, true, e)
    ensures DataInvariant(c, ReaderStep(c, p, e))
  {
    if e.Chunk? {
      AppendChunkIsOutputOf(c, p.read, e.bytes, p.eof);
    }
  }

  lemma ReaderKeepsChannel(c: Config, p: Producer, e: ReaderEvent)
    requires ValidConfig(c) && DataInvariant(c, p) && ChannelInvariant(c, p) && ReaderCan(p, true, e)
    ensures ChannelInvariant(c, ReaderStep(c, p, e))
  {
    if e.Chunk? {
      assert (p.read + e.bytes)[..p.published] == p.read[..p.published];
    } else if e.Publish? {
      assert p.read[..|p.read|] == p.read;
    }
  }

  lemma ReaderGrows(c: Config, p: Producer, e: ReaderEvent)
    requires ValidConfig(c) && DataInvariant(c, p) && ChannelInvariant(c, p) && ReaderCan(p, true, e)
    ensures Grows(p, ReaderStep(c, p, e))
  {
    ReaderKeepsData(c, p, e);
    OutputGrows(c, p.read, ReaderStep(c, p, e).read);
    OutputGrows(c, p.read[..p.published], p.read);
  }

  lemma GrowsTransitive(p: Producer, p': Producer, p'': Producer)
    requires Grows(p, p') && Grows(p', p'')
    ensures Grows(p, p'')
  {
  }

  // ---------------------------------------------------------- the waiter's side

  /** What a finished wait returned. */
  ghost predicate GoodOutcome(c: Config, p: Producer, outcome: Outcome, why: Why) {
    match outcome
    case Failed(result) => result == ReadFailed && why == Joined
    case Captured(o, len) =>
      && len <= |p.read|
      && o == OutputOf(c, p.read[..len]).(complete := o.complete)
      && (o.complete ==> p.eof && len == |p.read|)
      && (why == Joined ==> o.complete)
      && (why == SawMatch ==> o.matched)
      && (why == SawIncomplete ==> o.incomplete)
  }

  ghost predicate WaiterInvariant(c: Config, p: Producer, w: Consumer) {
    && (w.abortRequested ==> w.waiter.Stopping? || w.waiter.Done?)
    && (ResultOf(p.reader) == Some(Cancelled) ==> w.abortRequested)
    && match w.waiter
       case Snapshotting(why) => (why == SawMatch && p.shared.matched) || (why == SawIncomplete && p.shared.incomplete)
       case Stopping => w.abortRequested
       case Joining => SenderGone(p)
       case Done(outcome, why, _) => GoodOutcome(c, p, outcome, why) && (why != Joined ==> w.abortRequested)
       case _ => true
  }

  // Latest time at which the waiter is still in its idle phase.
  function IdleEnd(c: Config, w: Consumer): nat {
    Max(w.entered, OutputDeadline(c, w.entered))
  }

  // Latest time at which the waiter is still running.
  function LastMoment(c: Config, w: Consumer): nat {
    if w.limitAt.None? then IdleEnd(c, w)
    else Max(w.limitAt.value, Min(w.limitAt.value + OUTPUT_EOF_GRACE_AFTER_LIMIT, c.deadline))
  }

  // Earliest time at which the waiter may give up waiting.
  function FirstChance(c: Config, w: Consumer): nat {
    if w.limitAt.None? then Min(w.entered + OUTPUT_IDLE_GRACE_AFTER_EXIT, c.deadline)
    else Min(w.limitAt.value + OUTPUT_EOF_GRACE_AFTER_LIMIT, c.deadline)
  }

  ghost predicate TimeInvariant(c: Config, now: nat, p: Producer, w: Consumer) {
    && (w.limitAt.Some? ==>
          p.value.limitReached && w.entered <= w.limitAt.value <= IdleEnd(c, w) && w.limitAt.value <= now)
    && (!w.waiter.NotEntered? && !w.waiter.Done? ==> w.entered <= now <= LastMoment(c, w))
    && var late := w.limitAt.Some? && w.limitAt.value < now;
       match w.waiter
       case NotEntered => w.limitAt.None?
       case Done(_, why, at) =>
         w.entered <= at <= now && at <= LastMoment(c, w) && (why == GraceOver ==> at >= FirstChance(c, w))
       case Stopping => now >= FirstChance(c, w)
       case Entering(atLimit) => (atLimit <==> w.limitAt.Some?) && (late ==> ReaderLeft(p))
       case Settling(timer, atLimit) =>
         && (atLimit <==> w.limitAt.Some?)
         && (timer <= LastMoment(c, w) || ReaderLeft(p))
         && timer >= FirstChance(c, w)
         && (late ==> p.version == w.seen || Over(p))
       case _ => late && (w.waiter.Top? || w.waiter.Polling?) ==> Over(p)
  }

  // Waiter steps since its loop last went round.
  function Rank(w: Waiter): nat {
    match w
    case NotEntered => 0
    case Top => 1
    case Polling => 2
    case Snapshotting(_) => 3
    case Entering(_) => 3
    case Settling(_, _) => 4
    case Stopping => 5
    case Joining => 5
    case Done(_, _, _) => 6
  }

  ghost predicate CountInvariant(c: Config, version: nat, w: Consumer, steps: nat) {
    && w.turns <= w.seen <= version
    && w.turns <= c.limit + 2
    && (w.waiter.Entering? || w.waiter.Settling? ==> w.turns <= c.limit + 1)
    && steps <= 4 * w.turns + Rank(w.waiter)
  }

  ghost predicate Invariant(c: Config, s: State) {
    && DataInvariant(c, s.p)
    && ChannelInvariant(c, s.p)
    && WaiterInvariant(c, s.p, s.w)
    && TimeInvariant(c, s.now, s.p, s.w)
    && CountInvariant(c, s.p.version, s.w, s.steps)
  }

  lemma InitInvariant(c: Config)
    requires ValidConfig(c)
    ensures Invariant(c, Init())
  {
    assert !Contains([], c.needles[0]);
  }

  /** A returned outcome stays true of the longer stream. */
  lemma GoodOutcomeStays(c: Config, p: Producer, p': Producer, outcome: Outcome, why: Why)
    requires GoodOutcome(c, p, outcome, why) && Grows(p, p')
    ensures GoodOutcome(c, p', outcome, why)
  {
    if outcome.Captured? {
      assert p'.read[..outcome.len] == p.read[..outcome.len];
    }
  }

  /** Whatever the reader does meanwhile, the waiter's timing argument stands. */
  lemma GrowthKeepsTime(c: Config, now: nat, p: Producer, p': Producer, w: Consumer)
    requires TimeInvariant(c, now, p, w) && Grows(p, p')
    ensures TimeInvariant(c, now, p', w)
  {
  }

  lemma GrowthKeepsWaiter(c: Config, p: Producer, p': Producer, w: Consumer)
    requires WaiterInvariant(c, p, w) && Grows(p, p')
    requires ResultOf(p'.reader) == Some(Cancelled) ==> w.abortRequested
    ensures WaiterInvariant(c, p', w)
  {
    if w.waiter.Done? {
      GoodOutcomeStays(c, p, p', w.waiter.outcome, w.waiter.why);
    }
  }

  lemma ReaderKeepsInvariant(c: Config, s: State, e: ReaderEvent)
    requires ValidConfig(c) && Invariant(c, s) && ReaderCan(s.p, s.w.abortRequested, e)
    ensures Invariant(c, s.(p := ReaderStep(c, s.p, e)))
  {
    var p' := ReaderStep(c, s.p, e);
    ReaderKeepsData(c, s.p, e);
    ReaderKeepsChannel(c, s.p, e);
    ReaderGrows(c, s.p, e);
    GrowthKeepsTime(c, s.now, s.p, p', s.w);
    GrowthKeepsWaiter(c, s.p, p', s.w);
  }

  /** A published match or truncation is visible in the shared output. */
  lemma PublishedIsShared(c: Config, p: Producer)
    requires DataInvariant(c, p) && ChannelInvariant(c, p)
    ensures FlagsGrow(p.value, ProgressOf(p.shared))
    ensures !p.value.incomplete ==> p.version <= c.limit + 1
  {
    OutputGrows(c, p.read[..p.published], p.read);
  }

  lemma AdvanceKeepsWaiter(c: Config, s: State)
    requires ValidConfig(c) && Invariant(c, s) && WaiterCan(s, Advance)
    ensures WaiterInvariant(c, s.p, AdvanceWaiter(c, s))
  {
    PublishedIsShared(c, s.p);
    assert s.p.read[..|s.p.read|] == s.p.read;
  }

  lemma EnterSettleKeepsTime(c: Config, now: nat, p: Producer, w: Consumer)
    requires TimeInvariant(c, now, p, w) && w.waiter.Entering?
    ensures TimeInvariant(c, now, p, EnterSettle(c, now, w, w.waiter.atLimit))
  {
  }

  lemma AdvanceKeepsTime(c: Config, s: State)
    requires WaiterInvariant(c, s.p, s.w) && TimeInvariant(c, s.now, s.p, s.w) && WaiterCan(s, Advance)
    ensures TimeInvariant(c, s.now, s.p, AdvanceWaiter(c, s))
  {
    if s.w.waiter.Entering? {
      EnterSettleKeepsTime(c, s.now, s.p, s.w);
    }
  }

  lemma AdvanceKeepsCount(c: Config, s: State)
    requires ValidConfig(c) && Invariant(c, s) && WaiterCan(s, Advance)
    ensures CountInvariant(c, s.p.version, AdvanceWaiter(c, s), s.steps + 1)
  {
    PublishedIsShared(c, s.p);
  }

  lemma SelectKeepsWaiter(c: Config, s: State, e: WaiterEvent)
    requires ValidConfig(c) && Invariant(c, s) && WaiterCan(s, e) && !e.Advance?
    ensures WaiterInvariant(c, s.p, WaiterStep(c, s, e))
  {
    assert s.p.read[..|s.p.read|] == s.p.read;
  }

  lemma SelectKeepsTime(c: Config, s: State, e: WaiterEvent)
    requires TimeInvariant(c, s.now, s.p, s.w) && WaiterCan(s, e) && !e.Advance?
    ensures TimeInvariant(c, s.now, s.p, WaiterStep(c, s, e))
  {
  }

  lemma SelectKeepsCount(c: Config, s: State, e: WaiterEvent)
    requires ValidConfig(c) && Invariant(c, s) && WaiterCan(s, e) && !e.Advance?
    ensures CountInvariant(c, s.p.version, WaiterStep(c, s, e), s.steps + 1)
  {
    PublishedIsShared(c, s.p);
  }

  lemma WaiterKeepsInvariant(c: Config, s: State, e: WaiterEvent)
    requires ValidConfig(c) && Invariant(c, s) && WaiterCan(s, e)
    ensures Invariant(c, s.(w := WaiterStep(c, s, e), steps := s.steps + 1))
  {
    if e.Advance? {
      AdvanceKeepsWaiter(c, s);
      AdvanceKeepsTime(c, s);
      AdvanceKeepsCount(c, s);
    } else {
      SelectKeepsWaiter(c, s, e);
      SelectKeepsTime(c, s, e);
      SelectKeepsCount(c, s, e);
    }
  }

  lemma TickKeepsInvariant(c: Config, s: State, elapsed: nat)
    requires Invariant(c, s) && CanTick(s, elapsed)
    ensures Invariant(c, s.(now := s.now + elapsed))
  {
  }

  lemma InvariantStep(c: Config, s: State, e: Event)
    requires ValidConfig(c) && Invariant(c, s) && Enabled(s, e)
    ensures Invariant(c, Apply(c, s, e))
  {
    match e
    case ByReader(r) => ReaderKeepsInvariant(c, s, r);
    case ByWaiter(w) => WaiterKeepsInvariant(c, s, w);
    case Tick(elapsed) => TickKeepsInvariant(c, s, elapsed);
  }

  lemma {:induction false} InvariantAlong(c: Config, run: seq<State>, events: seq<Event>, i: nat)
    requires ValidConfig(c) && IsRun(c, run, events) && i < |run|
    ensures Invariant(c, run[i])
  {
    if i == 0 {
      InitInvariant(c);
    } else {
      InvariantAlong(c, run, events, i - 1);
      InvariantStep(c, run[i - 1], events[i - 1]);
    }
  }
}
