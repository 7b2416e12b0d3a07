/** The TCP probe's attempt loop: one deadline shared out over the resolved addresses. Times are
    nanoseconds since the loop started; scheduling takes none. */
module TcpProbe {
  import opened Common

  const MILLISECOND: nat := 1_000_000
  const U32_MAX: nat := 0xFFFF_FFFF

  /** How an address answers a connection attempt, given enough time. */
  datatype Answer = Connects(after: nat) | Refuses(after: nat) | Hangs

  /** One attempt: when it started, the time it was allotted, the time it took, whether it connected. */
  datatype Attempt = Attempt(start: nat, allotted: nat, spent: nat, connected: bool)

  /** The reported outcome; an error is the one of the last attempt. */
  datatype Outcome = Connected(index: nat) | LastError(index: nat) | TimedOut | NoAddresses

  // ----------------------------------------------------------------- division

  lemma MulMonotone(d: nat, p: nat, q: nat)
    requires p <= q
    ensures d * p <= d * q
  {
    assert d * q == d * p + d * (q - p);
  }

  lemma Quotient(a: nat, d: nat)
    requires d >= 1
    ensures d * (a / d) <= a < d * (a / d) + d
    ensures a / d <= a
  {
    assert a == d * (a / d) + a % d;
    MulMonotone(a / d, 1, d);
  }

  /** `a / d` is the largest number of equal shares that fit. */
  lemma QuotientIsLargest(a: nat, d: nat, q: nat)
    requires d >= 1 && d * q <= a
    ensures q <= a / d
  {
    Quotient(a, d);
    var above := a / d + 1;
    assert d * above == d * (a / d) + d;
    if above <= q {
      MulMonotone(d, above, q);
    }
  }

  // ----------------------------------------------------------------- the loop

  function PerAttemptTimeout(remaining: nat, attemptsLeft: nat): nat {
    Max(remaining / Min(Max(attemptsLeft, 1), U32_MAX), MILLISECOND)
  }

  /** A connection attempt under a timeout: an answer that arrives at the timeout still counts. */
  function Try(start: nat, allotted: nat, answer: Answer): Attempt {
    match answer
    case Connects(after) =>
      if after <= allotted then Attempt(start, allotted, after, true) else Attempt(start, allotted, allotted, false)
    case Refuses(after) => Attempt(start, allotted, Min(after, allotted), false)
    case Hangs => Attempt(start, allotted, allotted, false)
  }

  /** When the last attempt ended. */
  function End(log: seq<Attempt>): nat {
    if log == [] then 0 else log[|log| - 1].start + log[|log| - 1].spent
  }

  /** Attempt `k` follows the one before, starts before the deadline with its share of
      the time that is left, and is the last if it connected. */
  ghost predicate AttemptAt(log: seq<Attempt>, answers: seq<Answer>, timeout: nat, k: nat)
    requires k < |log| <= |answers|
  {
    && log[k].start == (if k == 0 then 0 else log[k - 1].start + log[k - 1].spent)
    && log[k].start < timeout
    && log[k] == Try(log[k].start, PerAttemptTimeout(timeout - log[k].start, |answers| - k), answers[k])
    && (log[k].connected ==> k == |log| - 1)
  }

  ghost predicate IsSchedule(log: seq<Attempt>, answers: seq<Answer>, timeout: nat) {
    |log| <= |answers| && forall k | 0 <= k < |log| :: AttemptAt(log, answers, timeout, k)
  }

  lemma ScheduleExtends(log: seq<Attempt>, answers: seq<Answer>, timeout: nat, next: Attempt)
    requires IsSchedule(log, answers, timeout) && |log| < |answers|
    requires log != [] ==> !log[|log| - 1].connected
    requires End(log) < timeout
    requires next == Try(End(log), PerAttemptTimeout(timeout - End(log), |answers| - |log|), answers[|log|])
    ensures IsSchedule(log + [next], answers, timeout)
  {
    forall k | 0 <= k < |log| + 1
      ensures AttemptAt(log + [next], answers, timeout, k)
    {
      if k < |log| {
        assert AttemptAt(log, answers, timeout, k);
      }
    }
  }

  lemma SchedulePrefix(log: seq<Attempt>, answers: seq<Answer>, timeout: nat, j: nat)
    requires IsSchedule(log, answers, timeout) && j <= |log|
    ensures IsSchedule(log[..j], answers, timeout)
    ensures j < |log| ==> log[j].start == End(log[..j])
  {
    forall k | 0 <= k < j
      ensures AttemptAt(log[..j], answers, timeout, k)
    {
      assert AttemptAt(log, answers, timeout, k);
    }
    if j < |log| {
      assert AttemptAt(log, answers, timeout, j);
    }
  }

  // --------------------------------------------------------------- guarantees

  /** For any deadline and any number of addresses the loop ends less than a millisecond
      late, and every attempt is allotted at least a millisecond. */
  lemma EndsOnTime(log: seq<Attempt>, answers: seq<Answer>, timeout: nat)
    requires IsSchedule(log, answers, timeout)
    ensures End(log) < timeout + MILLISECOND
    ensures forall k | 0 <= k < |log| :: log[k].allotted >= MILLISECOND
  {
    forall k | 0 <= k < |log|
      ensures log[k].allotted >= MILLISECOND
    {
      assert AttemptAt(log, answers, timeout, k);
    }
    if log != [] {
      var k := |log| - 1;
      assert AttemptAt(log, answers, timeout, k);
      var remaining := timeout - log[k].start;
      Quotient(remaining, Min(Max(|answers| - k, 1), U32_MAX));
    }
  }

  /** The deadline leaves every address at least the minimum of one millisecond. */
  predicate EnoughTime(timeout: nat, addresses: nat) {
    1 <= addresses <= U32_MAX && timeout >= addresses * MILLISECOND
  }

  /** One attempt of `left` takes its share and leaves the others at least as much each. */
  lemma ShareLeavesEnough(remaining: nat, left: nat, spent: nat)
    requires left >= 2 && spent <= remaining / left
    ensures spent <= remaining && (remaining - spent) / (left - 1) >= remaining / left
  {
    var share := remaining / left;
    Quotient(remaining, left);
    assert left * share == (left - 1) * share + share;
    QuotientIsLargest(remaining - spent, left - 1, share);
  }

  /** With enough time each attempt gets exactly its share of what is left, never less
      than the one before, so at least an equal part of the whole. */
  lemma {:induction false} FairShares(log: seq<Attempt>, answers: seq<Answer>, timeout: nat, k: nat)
    requires IsSchedule(log, answers, timeout) && EnoughTime(timeout, |answers|) && k < |log|
    ensures log[k].allotted == (timeout - log[k].start) / (|answers| - k)
    ensures log[k].allotted >= timeout / |answers| >= MILLISECOND
    ensures k > 0 ==> log[k].allotted >= log[k - 1].allotted
  {
    var n := |answers|;
    QuotientIsLargest(timeout, n, MILLISECOND);
    assert AttemptAt(log, answers, timeout, k);
    if k > 0 {
      assert AttemptAt(log, answers, timeout, k - 1);
      FairShares(log, answers, timeout, k - 1);
      ShareLeavesEnough(timeout - log[k - 1].start, n - k + 1, log[k - 1].spent);
    }
  }

  /** With enough time the attempts together never take more than the deadline, and
      what is left after `k` of them still gives every remaining address an equal part. */
  lemma {:induction false} StaysInBudget(log: seq<Attempt>, answers: seq<Answer>, timeout: nat)
    requires IsSchedule(log, answers, timeout) && EnoughTime(timeout, |answers|)
    ensures End(log) <= timeout
    ensures |log| < |answers| ==> (timeout - End(log)) / (|answers| - |log|) >= timeout / |answers|
  {
    if log != [] {
      var k := |log| - 1;
      var left := |answers| - k;
      FairShares(log, answers, timeout, k);
      assert AttemptAt(log, answers, timeout, k);
      Quotient(timeout - log[k].start, left);
      if left >= 2 {
        ShareLeavesEnough(timeout - log[k].start, left, log[k].spent);
      }
    }
  }

  lemma KeepsToBudget(log: seq<Attempt>, answers: seq<Answer>, timeout: nat)
    requires IsSchedule(log, answers, timeout)
    ensures End(log) < timeout + MILLISECOND
    ensures EnoughTime(timeout, |answers|) ==> End(log) <= timeout && (End(log) == timeout ==> |log| == |answers|)
  {
    EndsOnTime(log, answers, timeout);
    if EnoughTime(timeout, |answers|) {
      StaysInBudget(log, answers, timeout);
      QuotientIsLargest(timeout, |answers|, MILLISECOND);
    }
  }

  /** What an attempt reports is what its address did: connected exactly when the address connects within the time
      allotted, over when it answers or at the timeout; and that time is the largest equal part of what is left,
      but a millisecond at least. */
  lemma {:induction false} AttemptsReportAnswers(log: seq<Attempt>, answers: seq<Answer>, timeout: nat, k: nat)
    requires IsSchedule(log, answers, timeout) && k < |log|
    ensures log[k].connected <==> answers[k].Connects? && answers[k].after <= log[k].allotted
    ensures log[k].spent ==
            if !answers[k].Hangs? && answers[k].after <= log[k].allotted then answers[k].after else log[k].allotted
    ensures var left, remaining := Min(|answers| - k, 4_294_967_295), timeout - log[k].start;
            if remaining < left * 1_000_000 then log[k].allotted == 1_000_000
            else left * log[k].allotted <= remaining < left * log[k].allotted + left
  {
    assert AttemptAt(log, answers, timeout, k);
    var left, remaining := Min(|answers| - k, 4_294_967_295), timeout - log[k].start;
    Quotient(remaining, left);
    if remaining >= left * 1_000_000 {
      QuotientIsLargest(remaining, left, 1_000_000);
    } else if remaining / left >= 1_000_000 {
      MulMonotone(left, 1_000_000, remaining / left);
    }
  }

  /** An address that connects within an equal part of the deadline is connected to when its turn comes. */
  lemma {:induction false} PromptAddressConnects(log: seq<Attempt>, answers: seq<Answer>, timeout: nat, k: nat)
    requires IsSchedule(log, answers, timeout) && EnoughTime(timeout, |answers|) && k < |log|
    requires answers[k].Connects? && answers[k].after <= timeout / |answers|
    ensures log[k].connected && k == |log| - 1
  {
    AttemptsReportAnswers(log, answers, timeout, k);
    FairShares(log, answers, timeout, k);
    assert AttemptAt(log, answers, timeout, k);
  }

  /** Tries the addresses in order until one connects or the time is used up. */
  method ConnectAny(answers: seq<Answer>, timeout: nat) returns (outcome: Outcome, now: nat, log: seq<Attempt>)
    ensures IsSchedule(log, answers, timeout) && now == End(log)
    ensures match outcome
      case NoAddresses => answers == []
      case TimedOut => answers != [] && timeout == 0 && log == []
      case Connected(i) => |log| == i + 1 && log[i].connected
      case LastError(i) => |log| == i + 1 && !log[i].connected && (|log| == |answers| || now >= timeout)
    ensures now < timeout + MILLISECOND
    ensures EnoughTime(timeout, |answers|) ==> now <= timeout && (outcome.Connected? || |log| == |answers|)
    ensures outcome.Connected? ==> answers[outcome.index].Connects?
    ensures EnoughTime(timeout, |answers|)
            && (exists k | 0 <= k < |answers| :: answers[k].Connects? && answers[k].after <= timeout / |answers|)
            ==> outcome.Connected?
  {
    now, log := 0, [];
    if answers == [] {
      return NoAddresses, now, log;
    }
    var lastError := None;
    var index := 0;
    while index < |answers|
      invariant 0 <= index <= |answers| && |log| == index && now == End(log)
      invariant IsSchedule(log, answers, timeout)
      invariant log != [] ==> !log[index - 1].connected
      invariant lastError == if index == 0 then None else Some(index - 1)
    {
      var remaining := Max(0, timeout - now);
      if remaining == 0 {
        break;
      }
      var attempt := Try(now, PerAttemptTimeout(remaining, |answers| - index), answers[index]);
      ScheduleExtends(log, answers, timeout, attempt);
      log := log + [attempt];
      now := now + attempt.spent;
      if attempt.connected {
        KeepsToBudget(log, answers, timeout);
        AttemptsReportAnswers(log, answers, timeout, index);
        return Connected(index), now, log;
      }
      lastError := Some(index);
      index := index + 1;
    }
    KeepsToBudget(log, answers, timeout);
    if EnoughTime(timeout, |answers|) {
      forall k | 0 <= k < |answers| && answers[k].Connects? && answers[k].after <= timeout / |answers|
        ensures false
      {
        PromptAddressConnects(log, answers, timeout, k);
      }
    }
    outcome := match lastError case Some(i) => LastError(i) case None => TimedOut;
  }

  // ---------------------------------------------------------- allotted time

  function Allotted(log: seq<Attempt>): nat {
    if log == [] then 0 else Allotted(log[..|log| - 1]) + log[|log| - 1].allotted
  }

  function Unspent(log: seq<Attempt>): nat {
    if log == [] then 0
    else Unspent(log[..|log| - 1]) + Max(0, log[|log| - 1].allotted - log[|log| - 1].spent)
  }

  lemma {:induction false} AllottedIsSpentPlusUnspent(log: seq<Attempt>, answers: seq<Answer>, timeout: nat)
    requires IsSchedule(log, answers, timeout)
    ensures Allotted(log) == End(log) + Unspent(log)
  {
    if log != [] {
      var front := log[..|log| - 1];
      SchedulePrefix(log, answers, timeout, |log| - 1);
      assert AttemptAt(log, answers, timeout, |log| - 1);
      AllottedIsSpentPlusUnspent(front, answers, timeout);
    }
  }

  ghost predicate AllTimedOut(log: seq<Attempt>) {
    forall k | 0 <= k < |log| :: log[k].spent == log[k].allotted
  }

  lemma {:induction false} NothingUnspent(log: seq<Attempt>, answers: seq<Answer>, timeout: nat)
    requires IsSchedule(log, answers, timeout)
    ensures Unspent(log) == 0 <==> AllTimedOut(log)
  {
    if log != [] {
      var front := log[..|log| - 1];
      SchedulePrefix(log, answers, timeout, |log| - 1);
      assert AttemptAt(log, answers, timeout, |log| - 1);
      NothingUnspent(front, answers, timeout);
      assert forall k | 0 <= k < |front| :: front[k] == log[k];
    }
  }

  /** Whatever the addresses answer, the time allotted to the attempts adds up to at most the deadline. */
  ghost predicate AllotmentsAlwaysFit(timeout: nat, addresses: nat) {
    forall answers, log | |answers| == addresses && IsSchedule(log, answers, timeout) :: Allotted(log) <= timeout
  }

  /** The time allotted can add up to more than the deadline: time an attempt gives back is allotted again.
      It never does exactly when there is nothing to share out, or one address that gets the whole deadline. */
  lemma {:induction false} AllotmentsFitExactlyWhen(timeout: nat, addresses: nat)
    ensures AllotmentsAlwaysFit(timeout, addresses) <==>
            timeout == 0 || addresses == 0 || (addresses == 1 && timeout >= MILLISECOND)
  {
    if timeout == 0 || addresses == 0 {
      forall answers, log | |answers| == addresses && IsSchedule(log, answers, timeout)
        ensures Allotted(log) <= timeout
      {
        NothingTried(log, answers, timeout);
      }
    } else if addresses == 1 {
      forall answers, log | |answers| == 1 && IsSchedule(log, answers, timeout)
        ensures Allotted(log) <= Max(timeout, MILLISECOND)
      {
        if log != [] {
          assert AttemptAt(log, answers, timeout, 0);
          assert log[..0] == [];
        }
      }
      var log := RefusedAtOnce(timeout, 1, 1);
      LastAllotment(log, seq(1, _ => Refuses(0)), timeout);
    } else {
      var log := RefusedAtOnce(timeout, addresses, addresses);
      LastAllotment(log, seq(addresses, _ => Refuses(0)), timeout);
      AllottedAtLeast(log, seq(addresses, _ => Refuses(0)), timeout, addresses - 1);
    }
  }

  lemma NothingTried(log: seq<Attempt>, answers: seq<Answer>, timeout: nat)
    requires IsSchedule(log, answers, timeout) && (timeout == 0 || answers == [])
    ensures log == []
  {
    assert log != [] ==> AttemptAt(log, answers, timeout, 0);
  }

  /** The first `tried` of `addresses` that all refuse at once. */
  lemma {:induction false} RefusedAtOnce(timeout: nat, addresses: nat, tried: nat) returns (log: seq<Attempt>)
    requires timeout > 0 && tried <= addresses
    ensures IsSchedule(log, seq(addresses, _ => Refuses(0)), timeout)
    ensures |log| == tried && End(log) == 0 && (log != [] ==> !log[|log| - 1].connected)
  {
    log := [];
    if tried > 0 {
      var front := RefusedAtOnce(timeout, addresses, tried - 1);
      var next := Try(0, PerAttemptTimeout(timeout, addresses - (tried - 1)), Refuses(0));
      ScheduleExtends(front, seq(addresses, _ => Refuses(0)), timeout, next);
      log := front + [next];
    }
  }

  /** The last address is allotted all that is left, and a millisecond at least. */
  lemma LastAllotment(log: seq<Attempt>, answers: seq<Answer>, timeout: nat)
    requires IsSchedule(log, answers, timeout) && |log| == |answers| > 0
    ensures log[|log| - 1].allotted == Max(timeout - log[|log| - 1].start, MILLISECOND)
    ensures Allotted(log) == Allotted(log[..|log| - 1]) + log[|log| - 1].allotted
  {
    assert AttemptAt(log, answers, timeout, |log| - 1);
  }

  lemma {:induction false} AllottedAtLeast(log: seq<Attempt>, answers: seq<Answer>, timeout: nat, n: nat)
    requires IsSchedule(log, answers, timeout) && n <= |log|
    ensures Allotted(log[..n]) >= n * MILLISECOND
  {
    if n > 0 {
      AllottedAtLeast(log, answers, timeout, n - 1);
      assert AttemptAt(log, answers, timeout, n - 1);
      assert log[..n][..n - 1] == log[..n - 1];
    }
  }

  // What is left for the last addresses when each of the first `k` used up its share.
  function LeftAfter(timeout: nat, addresses: nat, k: nat): (left: nat)
    requires k <= addresses
    ensures left <= timeout
  {
    if k == 0 then timeout
    else
      var left := LeftAfter(timeout, addresses, k - 1);
      Quotient(left, addresses - k + 1);
      left - left / (addresses - k + 1)
  }

  /** The answer takes at least as long as its address is allotted when all before it used up their shares. */
  predicate UsesUpShare(answers: seq<Answer>, timeout: nat, k: nat)
    requires k < |answers|
  {
    answers[k].Hangs? || answers[k].after >= LeftAfter(timeout, |answers|, k) / (|answers| - k)
  }

  lemma {:induction false} UsesUpShareStep(attempt: Attempt, answers: seq<Answer>, timeout: nat, k: nat)
    requires k < |answers| && attempt.start == timeout - LeftAfter(timeout, |answers|, k)
    requires attempt.allotted == (timeout - attempt.start) / (|answers| - k)
    requires attempt == Try(attempt.start, attempt.allotted, answers[k])
    ensures attempt.spent == attempt.allotted <==> UsesUpShare(answers, timeout, k)
    ensures attempt.spent == attempt.allotted ==>
              attempt.start + attempt.spent == timeout - LeftAfter(timeout, |answers|, k + 1)
  {
  }

  lemma AllTimedOutStep(log: seq<Attempt>, k: nat)
    requires k < |log|
    ensures AllTimedOut(log[..k + 1]) <==> AllTimedOut(log[..k]) && log[k].spent == log[k].allotted
  {
    assert log[..k + 1] == log[..k] + [log[k]];
  }

  lemma {:induction false} SharesUsedUp(log: seq<Attempt>, answers: seq<Answer>, timeout: nat, n: nat)
    requires IsSchedule(log, answers, timeout) && EnoughTime(timeout, |answers|) && n <= |log|
    ensures AllTimedOut(log[..n]) <==> forall k | 0 <= k < n :: UsesUpShare(answers, timeout, k)
    ensures AllTimedOut(log[..n]) ==> End(log[..n]) == timeout - LeftAfter(timeout, |answers|, n)
  {
    if n > 0 {
      SharesUsedUp(log, answers, timeout, n - 1);
      SchedulePrefix(log, answers, timeout, n - 1);
      AllTimedOutStep(log, n - 1);
      FairShares(log, answers, timeout, n - 1);
      assert AttemptAt(log, answers, timeout, n - 1);
      if AllTimedOut(log[..n - 1]) {
        UsesUpShareStep(log[n - 1], answers, timeout, n - 1);
      }
    }
  }

  /** A run that tried every address was allotted no more than the deadline exactly when that leaves each
      address the minimum, and every answer but the last took at least its address's share. */
  lemma {:induction false} FullRunFitsExactlyWhen(log: seq<Attempt>, answers: seq<Answer>, timeout: nat)
    requires IsSchedule(log, answers, timeout) && 1 <= |log| == |answers| <= U32_MAX
    ensures Allotted(log) <= timeout <==>
            timeout >= |answers| * MILLISECOND && forall k | 0 <= k < |answers| - 1 :: UsesUpShare(answers, timeout, k)
  {
    assert log[..|log|] == log;
    AllottedAtLeast(log, answers, timeout, |log|);
    if EnoughTime(timeout, |answers|) {
      FullRunWithEnoughTime(log, answers, timeout);
    }
  }

  lemma {:induction false} FullRunWithEnoughTime(log: seq<Attempt>, answers: seq<Answer>, timeout: nat)
    requires IsSchedule(log, answers, timeout) && EnoughTime(timeout, |answers|)
    requires |log| == |answers|
    ensures Allotted(log) <= timeout <==> forall k | 0 <= k < |answers| - 1 :: UsesUpShare(answers, timeout, k)
  {
    var k := |log| - 1;
    var front := log[..k];
    SchedulePrefix(log, answers, timeout, k);
    AllottedIsSpentPlusUnspent(front, answers, timeout);
    NothingUnspent(front, answers, timeout);
    FairShares(log, answers, timeout, k);
    SharesUsedUp(log, answers, timeout, k);
  }

  /** Three refusals at once under a deadline of three milliseconds: 1, 1.5 and 3 milliseconds are allotted. */
  lemma {:induction false} AllotmentsCanExceed()
    ensures exists log ::
              IsSchedule(log, [Refuses(0), Refuses(0), Refuses(0)], 3 * MILLISECOND) && Allotted(log) > 3 * MILLISECOND
  {
    var answers := [Refuses(0), Refuses(0), Refuses(0)];
    var a0 := Attempt(0, 1_000_000, 0, false);
    var a1 := Attempt(0, 1_500_000, 0, false);
    var a2 := Attempt(0, 3_000_000, 0, false);
    var log := [a0, a1, a2];
    assert AttemptAt(log, answers, 3 * MILLISECOND, 0) && AttemptAt(log, answers, 3 * MILLISECOND, 1)
        && AttemptAt(log, answers, 3 * MILLISECOND, 2);
    assert IsSchedule(log, answers, 3 * MILLISECOND);
    LastAllotment(log, answers, 3 * MILLISECOND);
    AllottedAtLeast(log, answers, 3 * MILLISECOND, 2);
  }
}
