/**
 * How the benchmark waits for one upload: the poll loop of `uploadOnce`, with
 * its delays, its budget, its push channel, its 429 pauses and its deadline.
 * The server's answers and the pushes are arbitrary.
 */
module UploadPolling {
  import opened Counting
  import opened StatusBudget

  const FINE_STATUS_CHECKS: nat := 40
  const COARSE_POLL_INTERVAL_MS: real := 4000.0
  const DEADLINE_MS: real := 120000.0

  datatype Status = Ready | Rejected | Unfinished

  /** What one `GET /media/{id}` does: answer, ask to wait, or fail otherwise. */
  datatype Answer = View(status: Status) | RateLimited(retryAfterMs: real) | Failure

  datatype Outcome =
    | Finished(status: Status, coarse: bool, waitMs: real)
    | TimedOut
    | Failed

  /**
   * One status check, in the order of its parts: the reading its turn of the loop
   * began with, the delay, the budget's last two readings and the wait it asked
   * for, the request, and the answer.
   */
  datatype Check = Check(
    begunAt: real, delayMs: real, evictedAt: real, decidedAt: real, waitedMs: real,
    requestedAt: real, answeredAt: real, answer: Answer)

  predicate Final(status: Status) {
    status.Ready? || status.Rejected?
  }

  /** The delay the schedule gives the check after `attempt` others. */
  function Scheduled(delays: seq<real>, attempt: nat): real
    requires delays != []
  {
    delays[if attempt < |delays| - 1 then attempt else |delays| - 1]
  }

  /** Whether the check after `attempt` others comes at the coarse interval. */
  predicate Coarsened(delays: seq<real>, attempt: nat)
    requires delays != []
  {
    attempt >= FINE_STATUS_CHECKS && Scheduled(delays, attempt) < COARSE_POLL_INTERVAL_MS
  }

  /** The delay before the check after `attempt` others. */
  function Delay(delays: seq<real>, attempt: nat): real
    requires delays != []
  {
    if Coarsened(delays, attempt) then COARSE_POLL_INTERVAL_MS else Scheduled(delays, attempt)
  }

  /** The schedule stays at its last delay; after 40 checks, delays under 4 s are raised to it and count as coarse. */
  lemma DelayMeans(delays: seq<real>, attempt: nat)
    requires delays != []
    ensures var scheduled := delays[if attempt < |delays| then attempt else |delays| - 1];
            && Delay(delays, attempt) == (if attempt < 40 || scheduled >= 4000.0 then scheduled else 4000.0)
            && (Coarsened(delays, attempt) <==> Delay(delays, attempt) != scheduled)
  {
  }

  /** Whether one check was slowed down: by the coarse interval, by the budget or by a 429. */
  predicate Slowed(delays: seq<real>, attempt: nat, check: Check)
    requires delays != []
  {
    Coarsened(delays, attempt) || check.waitedMs > 0.0 || check.answer.RateLimited?
  }

  predicate AnySlowed(delays: seq<real>, checks: seq<Check>)
    requires delays != []
  {
    checks != [] &&
    var last := |checks| - 1;
    AnySlowed(delays, checks[..last]) || Slowed(delays, last, checks[last])
  }

  lemma {:induction false} AnySlowedMeans(delays: seq<real>, checks: seq<Check>)
    requires delays != []
    ensures AnySlowed(delays, checks) <==>
              exists i :: 0 <= i < |checks| &&
                (Coarsened(delays, i) || checks[i].waitedMs > 0.0 || checks[i].answer.RateLimited?)
  {
    if checks != [] {
      var last := |checks| - 1;
      AnySlowedMeans(delays, checks[..last]);
      assert forall i :: 0 <= i < last ==> checks[..last][i] == checks[i];
    }
  }

  ghost predicate LastIsPaced(h: seq<real>) {
    |h| > FINE_STATUS_CHECKS ==> h[|h| - 2] + COARSE_POLL_INTERVAL_MS <= h[|h| - 1]
  }

  /** After the fine checks, every check comes at least 4 s after the one before. */
  ghost predicate CoarselyPaced(h: seq<real>) {
    h == [] || (CoarselyPaced(h[..|h| - 1]) && LastIsPaced(h))
  }

  lemma LastStepIsPaced(h: seq<real>, stamp: real)
    requires |h| >= FINE_STATUS_CHECKS ==> h[|h| - 1] + COARSE_POLL_INTERVAL_MS <= stamp
    ensures LastIsPaced(h + [stamp])
  {
  }

  lemma CoarseStep(h: seq<real>, stamp: real)
    requires CoarselyPaced(h)
    requires |h| >= FINE_STATUS_CHECKS ==> h[|h| - 1] + COARSE_POLL_INTERVAL_MS <= stamp
    ensures CoarselyPaced(h + [stamp])
  {
    var next := h + [stamp];
    assert next[..|next| - 1] == h;
    LastStepIsPaced(h, stamp);
  }

  lemma {:induction false} CoarseRun(h: seq<real>, i: nat, j: nat)
    requires CoarselyPaced(h)
    requires FINE_STATUS_CHECKS - 1 <= i <= j < |h|
    ensures h[i] + COARSE_POLL_INTERVAL_MS * (j - i) as real <= h[j]
    decreases |h|
  {
    var last := |h| - 1;
    if j < last {
      CoarseRun(h[..last], i, j);
    } else if i < last {
      CoarseRun(h[..last], i, last - 1);
    }
  }

  /** 40 checks at any pace and 14 more within 56 s: a window holds 54 paced checks. */
  lemma PacedSpacing(h: seq<real>)
    requires Sorted(h) && CoarselyPaced(h)
    ensures Spaced(h, FINE_STATUS_CHECKS + 14, STATUS_CHECK_WINDOW_MS)
  {
    forall i, j | 0 <= i && j == i + (FINE_STATUS_CHECKS + 14) && j < |h|
      ensures h[i] + STATUS_CHECK_WINDOW_MS <= h[j]
    {
      CoarseRun(h, if i < FINE_STATUS_CHECKS then FINE_STATUS_CHECKS - 1 else i, j);
    }
  }

  /** Paced checks never fill the budget. */
  lemma PacedNeverFull(h: seq<real>, asOf: real, now: real)
    requires History(h, asOf) && asOf <= now && CoarselyPaced(h)
    requires |h| >= FINE_STATUS_CHECKS ==> h[|h| - 1] + COARSE_POLL_INTERVAL_MS <= now
    ensures !WindowFull(h, now)
  {
    HistoryMeans(h, asOf);
    if |h| >= STATUS_CHECK_BUDGET {
      var i := |h| - STATUS_CHECK_BUDGET;
      CoarseRun(h, if i < FINE_STATUS_CHECKS then FINE_STATUS_CHECKS - 1 else i, |h| - 1);
    }
  }

  lemma {:induction false} BudgetRun(h: seq<real>, windows: nat)
    requires Spaced(h, STATUS_CHECK_BUDGET, STATUS_CHECK_WINDOW_MS)
    requires windows * STATUS_CHECK_BUDGET < |h|
    ensures h[0] + STATUS_CHECK_WINDOW_MS * windows as real <= h[windows * STATUS_CHECK_BUDGET]
  {
    if windows > 0 {
      BudgetRun(h, windows - 1);
    }
  }

  /** The budget alone: three full windows and one more check do not fit before the deadline. */
  lemma BudgetedChecks(h: seq<real>, start: real, now: real)
    requires History(h, now)
    requires h != [] ==> start <= h[0]
    requires now <= start + DEADLINE_MS
    ensures |h| <= 3 * STATUS_CHECK_BUDGET
  {
    HistoryMeans(h, now);
    var windows := if h == [] then 0 else (|h| - 1) / STATUS_CHECK_BUDGET;
    if h != [] {
      BudgetRun(h, windows);
    }
  }

  /** The pacing alone: 40 fine checks, and one coarse check per 4 s of the two minutes. */
  lemma PacedChecks(h: seq<real>, start: real, now: real)
    requires History(h, now) && CoarselyPaced(h)
    requires h != [] ==> start <= h[0]
    requires now <= start + DEADLINE_MS
    ensures |h| <= FINE_STATUS_CHECKS + 30
  {
    HistoryMeans(h, now);
    if |h| > FINE_STATUS_CHECKS {
      CoarseRun(h, FINE_STATUS_CHECKS - 1, |h| - 1);
    }
  }

  /** Checks stamped no earlier than the wait began, the last of them begun before the deadline. */
  ghost predicate BeforeDeadline(h: seq<real>, start: real) {
    h != [] ==> start <= h[0] && (|h| > 1 ==> h[|h| - 2] <= start + DEADLINE_MS)
  }

  /** What the loop knows about the stamps of its checks by the time `asOf`. */
  ghost predicate Stamped(h: seq<real>, start: real, asOf: real, socket: bool) {
    && History(h, asOf)
    && BeforeDeadline(h, start)
    && (!socket ==> CoarselyPaced(h))
  }

  /** Before the deadline there is room for another check under either bound. */
  lemma StampedBounds(h: seq<real>, start: real, asOf: real, socket: bool)
    requires Stamped(h, start, asOf, socket) && asOf <= start + DEADLINE_MS
    ensures |h| <= 3 * STATUS_CHECK_BUDGET
    ensures !socket ==> |h| <= FINE_STATUS_CHECKS + 30
  {
    BudgetedChecks(h, start, asOf);
    if !socket {
      PacedChecks(h, start, asOf);
    }
  }

  /** No 60 s window ever holds more than 55 checks, nor more than 54 when only pacing spaces them. */
  lemma StampedRate(h: seq<real>, start: real, asOf: real, socket: bool, from: real)
    requires Stamped(h, start, asOf, socket)
    ensures |ChecksFrom(h, from, 60000.0)| <= 55
    ensures !socket ==> |ChecksFrom(h, from, 60000.0)| <= 54
  {
    HistoryMeans(h, asOf);
    WindowHoldsAtMost(h, STATUS_CHECK_BUDGET, STATUS_CHECK_WINDOW_MS, from);
    if !socket {
      PacedSpacing(h);
      WindowHoldsAtMost(h, FINE_STATUS_CHECKS + 14, STATUS_CHECK_WINDOW_MS, from);
    }
  }

  lemma StampedLater(h: seq<real>, start: real, asOf: real, later: real, socket: bool)
    requires Stamped(h, start, asOf, socket) && asOf <= later
    ensures Stamped(h, start, later, socket)
  {
  }

  lemma StampedStep(h: seq<real>, start: real, asOf: real, socket: bool, stamp: real)
    requires Stamped(h, start, asOf, socket) && asOf <= start + DEADLINE_MS
    requires start <= stamp && History(h + [stamp], stamp)
    requires !socket ==> CoarselyPaced(h + [stamp])
    ensures Stamped(h + [stamp], start, stamp, socket)
  {
  }

  /** The least a delay takes: with a socket, a push may end it at once. */
  function LeastDelay(delays: seq<real>, socket: bool, attempt: nat): real
    requires delays != []
  {
    if socket || Delay(delays, attempt) < 0.0 then 0.0 else Delay(delays, attempt)
  }

  /** The pause a 429 asks for, which no push ends. */
  function Pause(check: Check): real {
    match check.answer
    case RateLimited(retryAfterMs) => if retryAfterMs > 0.0 then retryAfterMs else 0.0
    case _ => 0.0
  }

  /** When the loop is ready for its next turn. */
  ghost function ReadyFrom(start: real, checks: seq<Check>): real {
    if checks == [] then start else checks[|checks| - 1].answeredAt + Pause(checks[|checks| - 1])
  }

  /**
   * One check stamped `stamp`, made after those at `h` in a turn that began at
   * `begunAt`: it waits out its delay, then for the budget as the window asks, and
   * only then sends its request.
   */
  ghost predicate Timed(delays: seq<real>, socket: bool, h: seq<real>, check: Check, stamp: real)
    requires delays != []
  {
    && Budgeted(h, check.begunAt + LeastDelay(delays, socket, |h|),
                check.evictedAt, check.decidedAt, check.waitedMs, stamp)
    && stamp <= check.requestedAt <= check.answeredAt
  }

  lemma TimedMeans(delays: seq<real>, socket: bool, h: seq<real>, asOf: real, check: Check, stamp: real)
    requires delays != [] && Timed(delays, socket, h, check, stamp)
    requires History(h, asOf) && (h != [] ==> h[|h| - 1] <= check.begunAt)
    ensures check.waitedMs > 0.0 <==> WindowFull(h, check.decidedAt)
    ensures check.waitedMs > 0.0 ==> check.decidedAt < Expiry(h) <= stamp
    ensures check.waitedMs <= STATUS_CHECK_WINDOW_MS
  {
    assert History(h, check.evictedAt);
    BudgetWaitMeans(h, check.evictedAt, check.decidedAt);
  }

  /** A turn begins once the one before is over, at a reading within the deadline. */
  ghost predicate Begun(start: real, checks: seq<Check>, check: Check) {
    ReadyFrom(start, checks) <= check.begunAt <= start + DEADLINE_MS
  }

  /** Every check is begun and timed so. */
  ghost predicate PacedBy(delays: seq<real>, socket: bool, start: real, h: seq<real>, checks: seq<Check>)
    requires delays != []
  {
    && |h| == |checks|
    && (h != [] ==>
          var last := |h| - 1;
          && PacedBy(delays, socket, start, h[..last], checks[..last])
          && Begun(start, checks[..last], checks[last])
          && Timed(delays, socket, h[..last], checks[last], h[last]))
  }

  lemma PacedStep(
    delays: seq<real>, socket: bool, start: real, h: seq<real>, checks: seq<Check>, stamp: real, check: Check)
    requires delays != [] && PacedBy(delays, socket, start, h, checks)
    requires Begun(start, checks, check) && Timed(delays, socket, h, check, stamp)
    ensures PacedBy(delays, socket, start, h + [stamp], checks + [check])
    ensures ReadyFrom(start, checks + [check]) == check.answeredAt + Pause(check)
  {
  }

  lemma PacedByLast(
    delays: seq<real>, socket: bool, start: real, h: seq<real>, checks: seq<Check>)
    requires delays != [] && PacedBy(delays, socket, start, h, checks) && h != []
    ensures h[|h| - 1] <= ReadyFrom(start, checks)
  {
  }

  /**
   * Every turn begins within the deadline, once the answer before it has come and
   * the pause it asked for is over. A check waits out its delay unless a push ends
   * it, and waits for the budget exactly when the window is full once it decides:
   * until the window empties, so never for more than 60 s.
   */
  lemma {:induction false} PacedByMeans(
    delays: seq<real>, socket: bool, start: real, h: seq<real>, checks: seq<Check>, asOf: real, i: nat)
    requires delays != [] && PacedBy(delays, socket, start, h, checks) && i < |h|
    requires History(h, asOf)
    ensures start <= checks[i].begunAt <= start + 120000.0
    ensures i > 0 ==> h[i - 1] <= checks[i - 1].requestedAt <= checks[i - 1].answeredAt <= checks[i].begunAt
    ensures i > 0 && checks[i - 1].answer.RateLimited? ==>
              checks[i - 1].answeredAt + checks[i - 1].answer.retryAfterMs <= checks[i].begunAt
    ensures checks[i].begunAt <= checks[i].evictedAt <= checks[i].decidedAt <= h[i] <= checks[i].requestedAt
    ensures !socket ==> checks[i].begunAt + Delay(delays, i) <= checks[i].evictedAt
    ensures checks[i].waitedMs == BudgetWait(h[..i], checks[i].evictedAt, checks[i].decidedAt)
    ensures checks[i].waitedMs > 0.0 <==> WindowFull(h[..i], checks[i].decidedAt)
    ensures checks[i].waitedMs > 0.0 ==> checks[i].decidedAt < Expiry(h[..i]) <= h[i]
    ensures checks[i].waitedMs <= 60000.0
  {
    var last := |h| - 1;
    if i < last {
      PacedByMeans(delays, socket, start, h[..last], checks[..last], h[last], i);
      assert h[..last][..i] == h[..i];
    } else {
      if i > 0 {
        PacedByLast(delays, socket, start, h[..i], checks[..i]);
        PacedByMeans(delays, socket, start, h[..i], checks[..i], h[i], i - 1);
      }
      TimedMeans(delays, socket, h[..i], h[i], checks[i], h[i]);
    }
  }

  /** Whether the loop goes on after this answer. */
  predicate GoesOn(answer: Answer) {
    answer.RateLimited? || (answer.View? && !Final(answer.status))
  }

  /** What holds of the checks themselves, whatever the last one was answered. */
  ghost predicate Trace(delays: seq<real>, initial: Status, socket: bool, checks: seq<Check>)
    requires delays != []
  {
    checks != [] ==>
      var last := |checks| - 1;
      && Trace(delays, initial, socket, checks[..last])
      && !Final(initial)
      && (last > 0 ==> GoesOn(checks[last - 1].answer))
      && checks[last].delayMs == Delay(delays, last)
      && (!socket ==> checks[last].waitedMs == 0.0)
  }

  /**
   * What the loop knows after `checks`: every check but the last was answered by
   * something to go on after, `status` is what the last one found, and `coarse`
   * says whether any was slowed down.
   */
  ghost predicate Log(
    delays: seq<real>, initial: Status, socket: bool, checks: seq<Check>, status: Status, coarse: bool)
    requires delays != []
  {
    && Trace(delays, initial, socket, checks)
    && (if checks == [] then status == initial
        else if Final(status) then checks[|checks| - 1].answer == View(status)
        else GoesOn(checks[|checks| - 1].answer))
    && coarse == AnySlowed(delays, checks)
  }

  /** Every check but the last is answered by something to go on after, and only a socket can fill the budget. */
  lemma {:induction false} TraceMeans(delays: seq<real>, initial: Status, socket: bool, checks: seq<Check>)
    requires delays != []
    ensures Trace(delays, initial, socket, checks) <==>
              && (initial != Unfinished ==> checks == [])
              && (forall i :: 0 <= i < |checks| - 1 ==>
                    checks[i].answer.RateLimited? || checks[i].answer == View(Unfinished))
              && (forall i :: 0 <= i < |checks| ==> checks[i].delayMs == Delay(delays, i))
              && (!socket ==> forall i :: 0 <= i < |checks| ==> checks[i].waitedMs == 0.0)
  {
    if checks != [] {
      var last := |checks| - 1;
      TraceMeans(delays, initial, socket, checks[..last]);
      assert forall i :: 0 <= i < last ==> checks[..last][i] == checks[i];
    }
  }

  lemma LogStep(
    delays: seq<real>, initial: Status, socket: bool, checks: seq<Check>, status: Status, coarse: bool, check: Check)
    requires delays != []
    requires Log(delays, initial, socket, checks, status, coarse) && !Final(status)
    requires check.delayMs == Delay(delays, |checks|) && (!socket ==> check.waitedMs == 0.0)
    ensures Trace(delays, initial, socket, checks + [check])
    ensures match check.answer
            case View(next) =>
              Log(delays, initial, socket, checks + [check], next, coarse || Slowed(delays, |checks|, check))
            case RateLimited(_) => Log(delays, initial, socket, checks + [check], status, true)
            case Failure => true
  {
  }

  /** What one check waits for, in order: its delay, the budget, its request, and the pause of a 429. */
  ghost function Awaited(h: seq<real>, check: Check): seq<Await> {
    [Timer(check.begunAt, check.delayMs)]
    + BudgetTimers(h, check.evictedAt, check.decidedAt)
    + [Request(check.requestedAt)]
    + (match check.answer
       case RateLimited(retryAfterMs) => [Timer(check.answeredAt, retryAfterMs)]
       case _ => [])
  }

  /** What all the checks wait for, one after the other. */
  ghost function AwaitedByAll(h: seq<real>, checks: seq<Check>): seq<Await>
    requires |h| == |checks|
  {
    if h == [] then []
    else
      var last := |h| - 1;
      AwaitedByAll(h[..last], checks[..last]) + Awaited(h[..last], checks[last])
  }

  /** The request that completes the upload and then the checks are all that was waited for. */
  ghost predicate Logged(
    before: seq<Await>, start: real, h: seq<real>, checks: seq<Check>, log: seq<Await>)
  {
    |h| == |checks| && log == before + [Request(start)] + AwaitedByAll(h, checks)
  }

  lemma LoggedStep(
    before: seq<Await>, start: real, h: seq<real>, checks: seq<Check>, log: seq<Await>, stamp: real, check: Check)
    requires Logged(before, start, h, checks, log)
    ensures Logged(before, start, h + [stamp], checks + [check], log + Awaited(h, check))
  {
    assert (h + [stamp])[..|h|] == h && (checks + [check])[..|h|] == checks;
  }

  /** One delay. With a socket, a push may end it at any moment. */
  method Wait(clock: Clock, delayMs: real, socket: bool)
    modifies clock
    ensures old(clock.now) <= clock.now
    ensures !socket ==> old(clock.now) + delayMs <= clock.now
    ensures clock.log == old(clock.log) + [Timer(old(clock.now), delayMs)]
  {
    if socket {
      clock.SleepUntilPushed(delayMs);
    } else {
      clock.Sleep(delayMs);
    }
  }

  /** After its delay, a check without a socket comes when the window is not full. */
  lemma DelayedIsPaced(delays: seq<real>, h: seq<real>, asOf: real, now: real, ready: real)
    requires delays != [] && History(h, asOf) && CoarselyPaced(h) && asOf <= now
    requires now + LeastDelay(delays, false, |h|) <= ready
    ensures |h| >= FINE_STATUS_CHECKS ==> h[|h| - 1] + COARSE_POLL_INTERVAL_MS <= ready
    ensures !WindowFull(h, ready)
  {
    PacedNeverFull(h, asOf, ready);
  }

  lemma PacedSince(h: seq<real>, ready: real, stamp: real)
    requires CoarselyPaced(h) && ready <= stamp
    requires |h| >= FINE_STATUS_CHECKS ==> h[|h| - 1] + COARSE_POLL_INTERVAL_MS <= ready
    ensures CoarselyPaced(h + [stamp])
  {
    CoarseStep(h, stamp);
  }

  /**
   * The delay before one status check, and the check's own wait for the budget.
   */
  method AwaitCheck(clock: Clock, budget: StatusCheckBudget, delays: seq<real>, socket: bool, attempt: nat)
    returns (delayMs: real, waitedMs: real, slowed: bool, ghost evictedAt: real, ghost decidedAt: real)
    requires delays != []
    requires budget.Valid() && budget.clock == clock && budget.asOf <= clock.now && |budget.history| == attempt
    requires !socket ==> CoarselyPaced(budget.history)
    modifies clock, budget
    ensures budget.Valid() && budget.asOf == clock.now
    ensures budget.history == old(budget.history) + [clock.now] && old(clock.now) <= clock.now
    ensures !socket ==> CoarselyPaced(budget.history) && waitedMs == 0.0
    ensures Budgeted(old(budget.history), old(clock.now) + LeastDelay(delays, socket, attempt),
                     evictedAt, decidedAt, waitedMs, clock.now)
    ensures clock.log ==
            old(clock.log) + [Timer(old(clock.now), delayMs)] + BudgetTimers(old(budget.history), evictedAt, decidedAt)
    ensures slowed <==> Coarsened(delays, attempt) || waitedMs > 0.0
    ensures delayMs == Delay(delays, attempt)
  {
    delayMs, slowed := Scheduled(delays, attempt), false;
    if attempt >= FINE_STATUS_CHECKS && delayMs < COARSE_POLL_INTERVAL_MS {
      delayMs := COARSE_POLL_INTERVAL_MS;
      slowed := true;
    }
    Wait(clock, delayMs, socket);
    ghost var before, ready := budget.history, clock.now;
    if !socket {
      DelayedIsPaced(delays, before, budget.asOf, old(clock.now), ready);
    }
    waitedMs, evictedAt, decidedAt := budget.Take();
    BudgetedEarlier(
      before, old(clock.now) + LeastDelay(delays, socket, attempt), ready, evictedAt, decidedAt, waitedMs, clock.now);
    if !socket {
      PacedSince(before, ready, clock.now);
    }
    if waitedMs > 0.0 {
      slowed := true;
    }
  }

  /** One more check, and what it leaves of the history. */
  ghost predicate CheckMade(delays: seq<real>, socket: bool, h: seq<real>, check: Check, stamp: real)
    requires delays != []
  {
    && History(h + [stamp], stamp) && (!socket ==> CoarselyPaced(h + [stamp]))
    && Timed(delays, socket, h, check, stamp)
    && check.delayMs == Delay(delays, |h|) && (!socket ==> check.waitedMs == 0.0)
  }

  /** Everything the loop knows after `checks`. */
  ghost predicate Progress(
    delays: seq<real>, initial: Status, socket: bool, start: real, h: seq<real>, checks: seq<Check>,
    asOf: real, status: Status, coarse: bool)
    requires delays != []
  {
    && Stamped(h, start, asOf, socket)
    && PacedBy(delays, socket, start, h, checks)
    && Log(delays, initial, socket, checks, status, coarse)
  }

  /** Before the deadline there is room for one more check. */
  lemma ProgressBounds(
    delays: seq<real>, initial: Status, socket: bool, start: real, h: seq<real>, checks: seq<Check>,
    asOf: real, status: Status, coarse: bool)
    requires delays != [] && asOf <= start + DEADLINE_MS
    requires Progress(delays, initial, socket, start, h, checks, asOf, status, coarse)
    ensures |h| + 1 <= 166 && (!socket ==> |h| + 1 <= 71)
  {
    StampedBounds(h, start, asOf, socket);
  }

  /** After an answer to go on after, or that the item is finished. */
  lemma ProgressStep(
    delays: seq<real>, initial: Status, socket: bool, start: real, h: seq<real>, checks: seq<Check>,
    asOf: real, status: Status, coarse: bool, stamp: real, check: Check)
    requires delays != [] && !Final(status) && !check.answer.Failure?
    requires Progress(delays, initial, socket, start, h, checks, asOf, status, coarse)
    requires asOf <= check.begunAt && start <= check.begunAt && Begun(start, checks, check)
    requires CheckMade(delays, socket, h, check, stamp)
    ensures Progress(delays, initial, socket, start, h + [stamp], checks + [check], stamp,
                     if check.answer.View? then check.answer.status else status,
                     coarse || Slowed(delays, |checks|, check))
  {
    StampedStep(h, start, asOf, socket, stamp);
    PacedStep(delays, socket, start, h, checks, stamp, check);
    LogStep(delays, initial, socket, checks, status, coarse, check);
  }

  /**
   * One turn of the loop before its deadline: the delay, the budget, the
   * request, and the pause a 429 asks for. The server's answer is arbitrary.
   */
  method CheckOnce(
    clock: Clock, budget: StatusCheckBudget, delays: seq<real>, socket: bool, attempt: nat,
    status: Status, coarse: bool)
    returns (failed: bool, next: Status, nextCoarse: bool, ghost check: Check, ghost stamp: real)
    requires delays != []
    requires budget.Valid() && budget.clock == clock && budget.asOf <= clock.now && |budget.history| == attempt
    requires !socket ==> CoarselyPaced(budget.history)
    modifies clock, budget
    ensures budget.Valid() && budget.asOf == stamp
    ensures budget.history == old(budget.history) + [stamp]
    ensures CheckMade(delays, socket, old(budget.history), check, stamp)
    ensures check.begunAt == old(clock.now) && check.answeredAt + Pause(check) <= clock.now
    ensures clock.log == old(clock.log) + Awaited(old(budget.history), check)
    ensures failed <==> check.answer.Failure?
    ensures next == (if check.answer.View? then check.answer.status else status)
    ensures nextCoarse == (coarse || Slowed(delays, attempt, check))
  {
    ghost var begunAt, before := clock.now, budget.history;
    var delayMs, waitedMs, slowed, evictedAt, decidedAt :=
      AwaitCheck(clock, budget, delays, socket, attempt);
    stamp := clock.now;
    failed, next, nextCoarse := false, status, coarse || slowed;
    var _ := clock.Read(); // for the `x-media-upload-timing` header
    ghost var requestedAt := clock.now;
    clock.Send();
    var answer: Answer := *;
    check := Check(begunAt, delayMs, evictedAt, decidedAt, waitedMs, requestedAt, clock.now, answer);
    match answer {
      case View(found) =>
        next := found;
      case RateLimited(retryAfterMs) =>
        nextCoarse := true;
        clock.Sleep(retryAfterMs);
      case Failure =>
        failed := true;
    }
  }

  /** What the loop leaves behind, by its outcome. */
  ghost predicate Concluded(
    delays: seq<real>, initial: Status, socket: bool, start: real, h: seq<real>, checks: seq<Check>,
    now: real, outcome: Outcome)
    requires delays != []
  {
    && Stamped(h, start, now, socket)
    && PacedBy(delays, socket, start, h, checks)
    && ReadyFrom(start, checks) <= now
    && Trace(delays, initial, socket, checks)
    && match outcome
       case Finished(status, coarse, waitMs) =>
         && status != Unfinished && start + waitMs == now
         && (if checks == [] then status == initial else checks[|checks| - 1].answer == View(status))
         && coarse == AnySlowed(delays, checks)
       case TimedOut =>
         && now - start > 120000.0 && initial == Unfinished
         && (checks != [] ==>
               checks[|checks| - 1].answer.RateLimited? || checks[|checks| - 1].answer == View(Unfinished))
       case Failed => checks != [] && checks[|checks| - 1].answer == Failure
  }

  /**
   * The checks made at `h` when each turn begins as soon as the one before is over,
   * every request is answered at once, and none finds the item finished.
   */
  function IdleChecks(delays: seq<real>, start: real, h: seq<real>): seq<Check>
    requires delays != []
  {
    seq(|h|, i requires 0 <= i < |h| =>
      Check(if i == 0 then start else h[i - 1], Delay(delays, i), h[i], h[i], 0.0, h[i], h[i], View(Unfinished)))
  }

  /** A check comes after its delay from the one before, or from the start, and that is within the deadline. */
  ghost predicate DelayedFrom(delays: seq<real>, socket: bool, start: real, h: seq<real>, i: nat)
    requires delays != [] && i < |h|
  {
    var begunAt := if i == 0 then start else h[i - 1];
    begunAt + LeastDelay(delays, socket, i) <= h[i] && begunAt <= start + DEADLINE_MS
  }

  /** A check of a history was made when the window before it was not full. */
  lemma NotFullWhenMade(h: seq<real>, asOf: real)
    requires h != [] && History(h, asOf)
    ensures !WindowFull(h[..|h| - 1], h[|h| - 1])
  {
  }

  lemma IdleStep(delays: seq<real>, socket: bool, start: real, h: seq<real>, asOf: real)
    requires delays != [] && h != [] && History(h, asOf) && DelayedFrom(delays, socket, start, h, |h| - 1)
    requires PacedBy(delays, socket, start, h[..|h| - 1], IdleChecks(delays, start, h[..|h| - 1]))
    requires Trace(delays, Unfinished, socket, IdleChecks(delays, start, h[..|h| - 1]))
    ensures PacedBy(delays, socket, start, h, IdleChecks(delays, start, h))
    ensures Trace(delays, Unfinished, socket, IdleChecks(delays, start, h))
  {
    var last := |h| - 1;
    var checks := IdleChecks(delays, start, h);
    NotFullWhenMade(h, asOf);
    assert checks[..last] == IdleChecks(delays, start, h[..last]);
    assert Begun(start, checks[..last], checks[last]);
    assert Timed(delays, socket, h[..last], checks[last], h[last]);
  }

  lemma {:induction false} IdleRun(delays: seq<real>, socket: bool, start: real, h: seq<real>, asOf: real)
    requires delays != [] && History(h, asOf)
    requires forall i :: 0 <= i < |h| ==> DelayedFrom(delays, socket, start, h, i)
    ensures PacedBy(delays, socket, start, h, IdleChecks(delays, start, h))
    ensures Trace(delays, Unfinished, socket, IdleChecks(delays, start, h))
  {
    if h != [] {
      var last := |h| - 1;
      forall i | 0 <= i < last
        ensures DelayedFrom(delays, socket, start, h[..last], i)
      {
        assert DelayedFrom(delays, socket, start, h, i);
      }
      IdleRun(delays, socket, start, h[..last], h[last]);
      IdleStep(delays, socket, start, h, asOf);
    }
  }

  /** With a socket the loop can make 166 checks and time out, so that bound is exact. */
  lemma BudgetedBoundIsExact(start: real) returns (h: seq<real>, checks: seq<Check>)
    ensures |checks| == 166
    ensures Concluded([0.0], Unfinished, true, start, h, checks, start + 180000.0, TimedOut)
  {
    h := seq(166, i requires 0 <= i < 166 =>
      start + (if i < 55 then 0.0 else if i < 110 then 60000.0 else if i < 165 then 120000.0 else 180000.0));
    HistoryMeans(h, start + 180000.0);
    checks := IdleChecks([0.0], start, h);
    IdleRun([0.0], true, start, h, start + 180000.0);
  }

  function PacedStamp(start: real, i: nat): real {
    start + COARSE_POLL_INTERVAL_MS * (if i < FINE_STATUS_CHECKS then 0 else i - 39) as real
  }

  lemma {:induction false} PacedStampsArePaced(h: seq<real>, start: real)
    requires forall i :: 0 <= i < |h| ==> h[i] == PacedStamp(start, i)
    ensures CoarselyPaced(h)
  {
    if h != [] {
      PacedStampsArePaced(h[..|h| - 1], start);
    }
  }

  /** Without a socket the loop can make 71 checks and time out, so that bound is exact too. */
  lemma PacedBoundIsExact(start: real) returns (h: seq<real>, checks: seq<Check>)
    ensures |checks| == 71
    ensures Concluded([0.0], Unfinished, false, start, h, checks, start + 124000.0, TimedOut)
  {
    h := seq(71, i requires 0 <= i < 71 => PacedStamp(start, i));
    HistoryMeans(h, start + 124000.0);
    PacedStampsArePaced(h, start);
    checks := IdleChecks([0.0], start, h);
    IdleRun([0.0], false, start, h, start + 124000.0);
  }

  /** Leaving the loop between checks: finished, or past the deadline. */
  lemma ConcludeBetween(
    delays: seq<real>, initial: Status, socket: bool, start: real, h: seq<real>, checks: seq<Check>,
    asOf: real, now: real, status: Status, coarse: bool)
    requires delays != [] && asOf <= now && ReadyFrom(start, checks) <= now
    requires Progress(delays, initial, socket, start, h, checks, asOf, status, coarse)
    requires Final(status) || now - start > DEADLINE_MS
    ensures Concluded(delays, initial, socket, start, h, checks, now,
                      if Final(status) then Finished(status, coarse, now - start) else TimedOut)
  {
    StampedLater(h, start, asOf, now, socket);
  }

  /** Leaving the loop after a request that failed. */
  lemma ConcludeFailed(
    delays: seq<real>, initial: Status, socket: bool, start: real, h: seq<real>, checks: seq<Check>,
    asOf: real, status: Status, coarse: bool, stamp: real, check: Check, now: real)
    requires delays != [] && !Final(status) && check.answer == Failure
    requires Progress(delays, initial, socket, start, h, checks, asOf, status, coarse)
    requires asOf <= check.begunAt && start <= check.begunAt && Begun(start, checks, check)
    requires CheckMade(delays, socket, h, check, stamp) && check.answeredAt <= now
    ensures Concluded(delays, initial, socket, start, h + [stamp], checks + [check], now, Failed)
  {
    StampedStep(h, start, asOf, socket, stamp);
    StampedLater(h + [stamp], start, stamp, now, socket);
    PacedStep(delays, socket, start, h, checks, stamp, check);
    LogStep(delays, initial, socket, checks, status, coarse, check);
  }

  /** One turn of the loop within its deadline, whatever it was answered. */
  lemma TurnMade(
    delays: seq<real>, initial: Status, socket: bool, start: real, h: seq<real>, checks: seq<Check>,
    asOf: real, status: Status, coarse: bool, stamp: real, check: Check, now: real)
    requires delays != [] && !Final(status)
    requires Progress(delays, initial, socket, start, h, checks, asOf, status, coarse)
    requires asOf <= check.begunAt && start <= check.begunAt && Begun(start, checks, check)
    requires CheckMade(delays, socket, h, check, stamp) && check.answeredAt + Pause(check) <= now
    ensures |h| + 1 <= 166 && (!socket ==> |h| + 1 <= 71)
    ensures if check.answer.Failure? then
              Concluded(delays, initial, socket, start, h + [stamp], checks + [check], now, Failed)
            else
              Progress(delays, initial, socket, start, h + [stamp], checks + [check], stamp,
                       if check.answer.View? then check.answer.status else status,
                       coarse || Slowed(delays, |checks|, check))
  {
    ProgressBounds(delays, initial, socket, start, h, checks, asOf, status, coarse);
    if check.answer.Failure? {
      ConcludeFailed(delays, initial, socket, start, h, checks, asOf, status, coarse, stamp, check, now);
    } else {
      ProgressStep(delays, initial, socket, start, h, checks, asOf, status, coarse, stamp, check);
    }
  }

  /**
   * Waits until the item is finished, from its status `initial` on. The loop
   * ends whatever the server answers and the socket pushes: within 166 checks,
   * and within 71 when there is no socket.
   */
  method PollUntilFinished(clock: Clock, initial: Status, delays: seq<real>, socket: bool)
    returns (outcome: Outcome, ghost start: real, ghost stamps: seq<real>, ghost checks: seq<Check>)
    requires delays != []
    modifies clock
    ensures |checks| <= 166
    ensures !socket ==> |checks| <= 71
    ensures old(clock.now) <= start <= clock.now
    ensures Logged(old(clock.log), start, stamps, checks, clock.log)
    ensures Concluded(delays, initial, socket, start, stamps, checks, clock.now, outcome)
  {
    var waitStartedAt := clock.Read();
    start := waitStartedAt;
    clock.Send(); // `POST /media/{id}/complete`
    var status, coarse, attempt := initial, false, 0;
    var budget := new StatusCheckBudget(clock);
    checks := [];
    while !Final(status)
      invariant fresh(budget) && budget.clock == clock && budget.Valid() && budget.asOf <= clock.now
      invariant |budget.history| == |checks| == attempt
      invariant attempt <= 166 && (!socket ==> attempt <= 71)
      invariant old(clock.now) <= start == waitStartedAt <= clock.now && ReadyFrom(start, checks) <= clock.now
      invariant Logged(old(clock.log), start, budget.history, checks, clock.log)
      invariant Progress(delays, initial, socket, start, budget.history, checks, budget.asOf, status, coarse)
      decreases 166 - attempt
    {
      ghost var h, asOf, log := budget.history, budget.asOf, clock.log;
      var at := clock.Read();
      if at - waitStartedAt > DEADLINE_MS {
        ConcludeBetween(delays, initial, socket, start, h, checks, asOf, at, status, coarse);
        return TimedOut, start, h, checks;
      }
      var failed, next, nextCoarse, check, stamp := CheckOnce(clock, budget, delays, socket, attempt, status, coarse);
      LoggedStep(old(clock.log), start, h, checks, log, stamp, check);
      TurnMade(delays, initial, socket, start, h, checks, asOf, status, coarse, stamp, check, clock.now);
      if failed {
        return Failed, start, h + [stamp], checks + [check];
      }
      checks := checks + [check];
      attempt, status, coarse := attempt + 1, next, nextCoarse;
    }
    stamps := budget.history;
    var finishedAt := clock.Read();
    ConcludeBetween(delays, initial, socket, start, stamps, checks, budget.asOf, finishedAt, status, coarse);
    outcome := Finished(status, coarse, finishedAt - waitStartedAt);
  }
}
