/**
 * The sliding-window budget of status checks: `StatusCheckBudget` of the media
 * latency benchmark, over a clock that never goes back.
 */
module StatusBudget {
  import opened Counting

  const STATUS_CHECK_BUDGET: nat := 55
  const STATUS_CHECK_WINDOW_MS: real := 60000.0

  /** What the process can wait for from some time on: a timer, or the answer to a request. */
  datatype Await = Timer(from: real, ms: real) | Request(from: real)

  /** The process clock. Reading it, like waiting, may let any time pass. */
  class Clock {
    var now: real
    /** Everything waited for so far. */
    ghost var log: seq<Await>

    constructor ()
      ensures log == []
    {
      now := 0.0;
      log := [];
    }

    method Read() returns (t: real)
      modifies this
      ensures old(now) <= now == t && log == old(log)
    {
      var elapsed: real :| elapsed >= 0.0;
      now := now + elapsed;
      t := now;
    }

    /** A timer never fires early; a negative delay is no delay. */
    method Sleep(ms: real)
      modifies this
      ensures old(now) <= now && old(now) + ms <= now
      ensures log == old(log) + [Timer(old(now), ms)]
    {
      log := log + [Timer(now, ms)];
      var late: real :| late >= 0.0;
      now := now + late + (if ms > 0.0 then ms else 0.0);
    }

    /** A race of a timer with a push, which may come at any moment or never. */
    method SleepUntilPushed(ms: real)
      modifies this
      ensures old(now) <= now
      ensures log == old(log) + [Timer(old(now), ms)]
    {
      log := log + [Timer(now, ms)];
      var elapsed: real :| elapsed >= 0.0;
      now := now + elapsed;
    }

    method Send()
      modifies this
      ensures old(now) <= now
      ensures log == old(log) + [Request(old(now))]
    {
      log := log + [Request(now)];
      var elapsed: real :| elapsed >= 0.0;
      now := now + elapsed;
    }
  }

  /** Stamps `k` places apart are at least `span` apart. */
  ghost predicate Spaced(h: seq<real>, k: nat, span: real) {
    forall i, j :: 0 <= i && j == i + k && j < |h| ==> h[i] + span <= h[j]
  }

  /** The checks stamped in the half-open window of `span` ms that starts at `from`. */
  ghost function ChecksFrom(h: seq<real>, from: real, span: real): set<nat> {
    set i: nat | i < |h| && from <= h[i] < from + span
  }

  /** The checks stamped in the half-open window of 60 s that ends at `at`. */
  ghost function ChecksUpTo(h: seq<real>, at: real): set<nat> {
    set i: nat | i < |h| && at - STATUS_CHECK_WINDOW_MS < h[i] <= at
  }

  /** Two checks closer than `span` are fewer than `k` places apart. */
  lemma CloseChecks(h: seq<real>, k: nat, span: real, i: nat, j: nat)
    requires Sorted(h) && Spaced(h, k, span)
    requires i <= j < |h| && h[j] < h[i] + span
    ensures j < i + k
  {
    if i + k < |h| {
      assert h[i] + span <= h[i + k];
    }
  }

  /** Spacing bounds every half-open window, wherever it starts. */
  lemma WindowHoldsAtMost(h: seq<real>, k: nat, span: real, from: real)
    requires Sorted(h) && Spaced(h, k, span)
    ensures |ChecksFrom(h, from, span)| <= k
  {
    var s := ChecksFrom(h, from, span);
    if s != {} {
      var lo := LeastMember(s);
      forall i | i in s
        ensures i in Interval(lo, lo + k)
      {
        CloseChecks(h, k, span, lo, i);
      }
      SubsetSize(s, Interval(lo, lo + k));
    }
  }

  /**
   * A history of checks, none of them in the future: each was made once the one 55
   * places before it had left the window.
   */
  ghost predicate History(h: seq<real>, now: real) {
    h != [] ==>
      var last := |h| - 1;
      && h[last] <= now
      && History(h[..last], h[last])
      && (last >= STATUS_CHECK_BUDGET ==> h[last - STATUS_CHECK_BUDGET] + STATUS_CHECK_WINDOW_MS <= h[last])
  }

  /** In other words: the checks are in order, and any 56 in a row span at least the window. */
  lemma {:induction false} HistoryMeans(h: seq<real>, now: real)
    ensures History(h, now) <==>
              && Sorted(h)
              && Spaced(h, STATUS_CHECK_BUDGET, STATUS_CHECK_WINDOW_MS)
              && (forall i :: 0 <= i < |h| ==> h[i] <= now)
  {
    if h != [] {
      var before := h[..|h| - 1];
      HistoryMeans(before, h[|h| - 1]);
      assert h == before + [h[|h| - 1]];
    }
  }

  /** When the oldest of the latest 55 checks leaves the window. */
  ghost function Expiry(h: seq<real>): real
    requires |h| >= STATUS_CHECK_BUDGET
  {
    h[|h| - STATUS_CHECK_BUDGET] + STATUS_CHECK_WINDOW_MS
  }

  lemma ExpiresWithinWindow(h: seq<real>, now: real)
    requires History(h, now) && |h| >= STATUS_CHECK_BUDGET
    ensures Expiry(h) - now <= STATUS_CHECK_WINDOW_MS
  {
    HistoryMeans(h, now);
  }

  /** Whether one more check at `now` would be the 56th in 60 s. */
  ghost predicate WindowFull(h: seq<real>, now: real) {
    |h| >= STATUS_CHECK_BUDGET && now < Expiry(h)
  }

  /**
   * The wait asked for after a history: none when the window was not full at the
   * last reading of the eviction, else what the next reading leaves until the
   * oldest check expires.
   */
  ghost function BudgetWait(h: seq<real>, evictedAt: real, decidedAt: real): real {
    if WindowFull(h, evictedAt) then Expiry(h) - decidedAt else 0.0
  }

  /** In other words: positive exactly while the window is full, negative exactly when it emptied in between. */
  lemma BudgetWaitMeans(h: seq<real>, evictedAt: real, decidedAt: real)
    requires History(h, evictedAt) && evictedAt <= decidedAt
    ensures BudgetWait(h, evictedAt, decidedAt) > 0.0 <==> WindowFull(h, decidedAt)
    ensures BudgetWait(h, evictedAt, decidedAt) < 0.0 <==> WindowFull(h, evictedAt) && Expiry(h) < decidedAt
    ensures WindowFull(h, decidedAt) ==> BudgetWait(h, evictedAt, decidedAt) == Expiry(h) - decidedAt
    ensures BudgetWait(h, evictedAt, decidedAt) <= STATUS_CHECK_WINDOW_MS
  {
    if |h| >= STATUS_CHECK_BUDGET {
      ExpiresWithinWindow(h, evictedAt);
    }
  }

  /** The timer the budget asks for, at its last reading, exactly when the window was full after eviction. */
  ghost function BudgetTimers(h: seq<real>, evictedAt: real, decidedAt: real): seq<Await> {
    if WindowFull(h, evictedAt) then [Timer(decidedAt, Expiry(h) - decidedAt)] else []
  }

  /** What is known of the readings and the wait of a check begun at `from` and stamped `stamp`. */
  ghost predicate Budgeted(
    h: seq<real>, from: real, evictedAt: real, decidedAt: real, waitedMs: real, stamp: real)
  {
    && from <= evictedAt <= decidedAt <= stamp
    && waitedMs == BudgetWait(h, evictedAt, decidedAt)
    && decidedAt + waitedMs <= stamp
  }

  lemma BudgetedEarlier(
    h: seq<real>, earlier: real, from: real, evictedAt: real, decidedAt: real, waitedMs: real, stamp: real)
    requires Budgeted(h, from, evictedAt, decidedAt, waitedMs, stamp) && earlier <= from
    ensures Budgeted(h, earlier, evictedAt, decidedAt, waitedMs, stamp)
  {
  }

  /** Such a negative wait does occur: 55 checks at once, evicted just before they expire and read again just after. */
  lemma NegativeWaitOccurs() returns (h: seq<real>, evictedAt: real, decidedAt: real)
    ensures History(h, evictedAt) && evictedAt <= decidedAt
    ensures BudgetWait(h, evictedAt, decidedAt) < 0.0
  {
    h, evictedAt, decidedAt := seq(STATUS_CHECK_BUDGET, _ => 0.0), 59999.0, 60001.0;
    HistoryMeans(h, evictedAt);
  }

  /** The 60 s before `at` are full exactly while the 55th latest check lies in them. */
  lemma WindowFullIff(h: seq<real>, at: real)
    requires History(h, at)
    ensures |ChecksUpTo(h, at)| == STATUS_CHECK_BUDGET <==> WindowFull(h, at)
  {
    HistoryMeans(h, at);
    var s := ChecksUpTo(h, at);
    var n := |h|;
    if n < STATUS_CHECK_BUDGET {
      SubsetSize(s, Interval(0, n));
    } else if at < Expiry(h) {
      var lo := n - STATUS_CHECK_BUDGET;
      forall i: nat | i < n
        ensures i in s <==> lo <= i
      {
        if i < lo {
          assert h[i] <= h[lo - 1];
          assert h[lo - 1] + STATUS_CHECK_WINDOW_MS <= h[n - 1];
        }
      }
      assert s == Interval(lo, n);
    } else {
      var lo := n - STATUS_CHECK_BUDGET + 1;
      assert forall i :: i in s ==> i in Interval(lo, n);
      SubsetSize(s, Interval(lo, n));
    }
  }

  /** The first `dropped` checks have all left the window, and at most 55 others remain. */
  ghost predicate DroppedOnlyOld(h: seq<real>, dropped: nat, now: real) {
    && |h| - STATUS_CHECK_BUDGET <= dropped <= |h|
    && (dropped > 0 ==> h[dropped - 1] + STATUS_CHECK_WINDOW_MS <= now)
  }

  lemma RecordKeepsHistory(h: seq<real>, dropped: nat, now: real)
    requires History(h, now) && DroppedOnlyOld(h, dropped, now)
    requires |h| - dropped < STATUS_CHECK_BUDGET
    ensures History(h + [now], now) && DroppedOnlyOld(h + [now], dropped, now)
  {
    HistoryMeans(h, now);
    assert (h + [now])[..|h|] == h;
  }

  /**
   * When nothing remaining has left the window, 55 remain exactly when the
   * window is full.
   */
  lemma ListFullIff(h: seq<real>, dropped: nat, now: real)
    requires History(h, now) && DroppedOnlyOld(h, dropped, now)
    requires dropped < |h| ==> now < h[dropped] + STATUS_CHECK_WINDOW_MS
    ensures |h| - dropped == STATUS_CHECK_BUDGET <==> WindowFull(h, now)
  {
    HistoryMeans(h, now);
    if |h| >= STATUS_CHECK_BUDGET && |h| - STATUS_CHECK_BUDGET < dropped {
      assert h[|h| - STATUS_CHECK_BUDGET] <= h[dropped - 1];
    }
  }

  class StatusCheckBudget {
    const clock: Clock
    var checkedAt: seq<real>
    /** Every check ever recorded, and how many of them are no longer listed. */
    ghost var history: seq<real>
    ghost var dropped: nat
    /** A time by which all of this held; the clock has not gone back since. */
    ghost var asOf: real

    ghost predicate Valid()
      reads this
    {
      && History(history, asOf)
      && DroppedOnlyOld(history, dropped, asOf)
      && checkedAt == history[dropped..]
    }

    constructor (clock: Clock)
      ensures Valid() && this.clock == clock && history == [] && asOf == clock.now
    {
      this.clock := clock;
      checkedAt := [];
      history, dropped, asOf := [], 0, clock.now;
    }

    /** Drops every check that left the window by the last reading, `at`. */
    method Evict() returns (at: real)
      requires Valid() && asOf <= clock.now
      modifies this, clock
      ensures Valid() && asOf == at == clock.now
      ensures history == old(history) && old(clock.now) <= at && clock.log == old(clock.log)
      ensures dropped < |history| ==> at < history[dropped] + STATUS_CHECK_WINDOW_MS
    {
      at := clock.Read();
      asOf := at;
      while checkedAt != [] && checkedAt[0] <= at - STATUS_CHECK_WINDOW_MS
        invariant Valid() && history == old(history) && old(clock.now) <= at == asOf == clock.now
        invariant clock.log == old(clock.log)
        decreases |checkedAt|
      {
        checkedAt, dropped := checkedAt[1..], dropped + 1;
        at := clock.Read();
        asOf := at;
      }
    }

    /** Appends the check made now. */
    method Record()
      requires Valid() && asOf <= clock.now && |checkedAt| < STATUS_CHECK_BUDGET
      modifies this, clock
      ensures Valid() && asOf == clock.now
      ensures old(clock.now) <= clock.now && history == old(history) + [clock.now]
      ensures clock.log == old(clock.log)
    {
      var at := clock.Read();
      RecordKeepsHistory(history, dropped, at);
      checkedAt, history, asOf := checkedAt + [at], history + [at], at;
    }

    /**
     * Makes one more check. `evictedAt` is the last reading of the clock before
     * the length of the list decides whether to wait, and `decidedAt` the one the
     * wait is computed from.
     */
    method Take() returns (waitedMs: real, ghost evictedAt: real, ghost decidedAt: real)
      requires Valid() && asOf <= clock.now
      modifies this, clock
      ensures Valid() && asOf == clock.now
      ensures history == old(history) + [clock.now]
      ensures clock.log == old(clock.log) + BudgetTimers(old(history), evictedAt, decidedAt)
      ensures Budgeted(old(history), old(clock.now), evictedAt, decidedAt, waitedMs, clock.now)
      ensures old(clock.now) <= clock.now && waitedMs <= STATUS_CHECK_WINDOW_MS
      ensures waitedMs > 0.0 <==> WindowFull(old(history), decidedAt)
      ensures waitedMs < 0.0 <==> WindowFull(old(history), evictedAt) && Expiry(old(history)) < decidedAt
      ensures !WindowFull(old(history), old(clock.now)) ==> waitedMs == 0.0
    {
      waitedMs := 0.0;
      var at := Evict();
      evictedAt, decidedAt := at, at;
      ListFullIff(history, dropped, at);
      if |checkedAt| >= STATUS_CHECK_BUDGET {
        at := clock.Read();
        decidedAt := at;
        waitedMs := checkedAt[0] - (at - STATUS_CHECK_WINDOW_MS);
        clock.Sleep(waitedMs);
        BudgetWaitMeans(history, evictedAt, decidedAt);
        checkedAt, dropped, asOf := checkedAt[1..], dropped + 1, clock.now;
      }
      Record();
    }
  }
}
