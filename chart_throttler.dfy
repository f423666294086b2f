/**
 * The chart throttler: `Invoke` marks a request pending and runs the action
 * at once when a full interval has passed since the last run; a timer tick
 * runs a pending request under the same condition. The clock is a
 * parameter, in `DateTime` ticks of 100 ns.
 */
module Throttling {
  const TicksPerMillisecond := 10000

  /** `TimeSpan.FromTicks(now - last).TotalMilliseconds >= intervalMs`. */
  predicate IntervalElapsed(now: int, last: int, intervalMs: int)
  {
    now - last >= intervalMs * TicksPerMillisecond
  }

  /** How long after the previous run (or after `start`, for the first) run `k` came. */
  function Gap(start: int, runs: seq<int>, k: int): int
    requires 0 <= k < |runs|
  {
    runs[k] - (if k == 0 then start else runs[k - 1])
  }

  /** Each run is at least `gap` after the one before it, the first after `start`. */
  ghost predicate Spaced(start: int, runs: seq<int>, gap: int)
  {
    forall k :: 0 <= k < |runs| ==> Gap(start, runs, k) >= gap
  }

  /** A run a full gap after the previous one keeps the runs spaced. */
  lemma SpacedSnoc(start: int, runs: seq<int>, gap: int, t: int)
    requires Spaced(start, runs, gap)
    requires t - (if |runs| == 0 then start else runs[|runs| - 1]) >= gap
    ensures Spaced(start, runs + [t], gap)
  {
    var extended := runs + [t];
    forall k | 0 <= k < |extended|
      ensures Gap(start, extended, k) >= gap
    {
      if k < |runs| {
        assert Gap(start, extended, k) == Gap(start, runs, k);
      }
    }
  }

  /** With a non-negative gap, runs `i < j` are at least a gap apart. */
  lemma {:induction false} SpacedBetween(start: int, runs: seq<int>, gap: int, i: int, j: int)
    requires Spaced(start, runs, gap) && gap >= 0
    requires 0 <= i < j < |runs|
    ensures runs[j] - runs[i] >= gap
    decreases j - i
  {
    assert Gap(start, runs, j) >= gap;
    if j > i + 1 {
      SpacedBetween(start, runs, gap, i, j - 1);
    }
  }

  /** With a non-negative gap, every run is at least a gap after `start`. */
  lemma {:induction false} SpacedAfterStart(start: int, runs: seq<int>, gap: int, j: int)
    requires Spaced(start, runs, gap) && gap >= 0
    requires 0 <= j < |runs|
    ensures runs[j] - start >= gap
  {
    assert Gap(start, runs, j) >= gap;
    if j > 0 {
      SpacedAfterStart(start, runs, gap, j - 1);
    }
  }

  /** With a non-negative gap, consecutive spacing makes any two runs that far apart. */
  lemma SpacedPairwise(start: int, runs: seq<int>, gap: int)
    requires Spaced(start, runs, gap) && gap >= 0
    ensures forall i, j :: 0 <= i < j < |runs| ==> runs[j] - runs[i] >= gap
    ensures forall j :: 0 <= j < |runs| ==> runs[j] - start >= gap
  {
    forall i, j | 0 <= i < j < |runs|
      ensures runs[j] - runs[i] >= gap
    {
      SpacedBetween(start, runs, gap, i, j);
    }
    forall j | 0 <= j < |runs|
      ensures runs[j] - start >= gap
    {
      SpacedAfterStart(start, runs, gap, j);
    }
  }

  class ChartThrottler {
    const intervalMs: int
    /** `_pendingInvocation == 1`. */
    var pending: bool
    var lastExecutionTicks: int
    /** The clock when the throttler was built. */
    ghost const createdTicks: int
    /** The clock at each run of the action, in order. */
    ghost var runs: seq<int>

    /** The last run (or the construction) is remembered, and the runs keep the interval. */
    ghost predicate Valid()
      reads this
    {
      lastExecutionTicks == (if |runs| == 0 then createdTicks else runs[|runs| - 1]) &&
      Spaced(createdTicks, runs, intervalMs * TicksPerMillisecond)
    }

    constructor (intervalMs: int, now: int)
      ensures Valid()
      ensures this.intervalMs == intervalMs && createdTicks == now
      ensures !pending && lastExecutionTicks == now && runs == []
    {
      this.intervalMs := intervalMs;
      pending := false;
      lastExecutionTicks := now;
      createdTicks := now;
      runs := [];
    }

    /**
     * `Invoke` reads the clock (`now`) and, when it goes on to `TryExecute`,
     * that method reads it again (`executeNow`).
     */
    method Invoke(now: int, executeNow: int) returns (ran: bool)
      requires Valid()
      modifies this`pending, this`lastExecutionTicks, this`runs
      ensures Valid()
      ensures ran <==> IntervalElapsed(now, old(lastExecutionTicks), intervalMs) &&
                       IntervalElapsed(executeNow, old(lastExecutionTicks), intervalMs)
      ensures ran ==> runs == old(runs) + [executeNow] && lastExecutionTicks == executeNow && !pending
      ensures !ran ==> runs == old(runs) && lastExecutionTicks == old(lastExecutionTicks) && pending
    {
      pending := true;
      ran := false;
      if IntervalElapsed(now, lastExecutionTicks, intervalMs) {
        ran := TryExecute(executeNow);
      }
    }

    /** The timer callback. */
    method OnTimerTick(now: int) returns (ran: bool)
      requires Valid()
      modifies this`pending, this`lastExecutionTicks, this`runs
      ensures Valid()
      ensures ran <==> old(pending) && IntervalElapsed(now, old(lastExecutionTicks), intervalMs)
      ensures ran ==> runs == old(runs) + [now] && lastExecutionTicks == now && !pending
      ensures !ran ==> runs == old(runs) && lastExecutionTicks == old(lastExecutionTicks) && pending == old(pending)
    {
      ran := TryExecute(now);
    }

    /**
     * Takes the pending flag; runs the action when the interval has passed,
     * and otherwise puts the flag back.
     */
    method TryExecute(now: int) returns (ran: bool)
      requires Valid()
      modifies this`pending, this`lastExecutionTicks, this`runs
      ensures Valid()
      ensures ran <==> old(pending) && IntervalElapsed(now, old(lastExecutionTicks), intervalMs)
      ensures ran ==> runs == old(runs) + [now] && lastExecutionTicks == now && !pending
      ensures !ran ==> runs == old(runs) && lastExecutionTicks == old(lastExecutionTicks) && pending == old(pending)
    {
      ran := false;
      if pending {
        pending := false;
        if IntervalElapsed(now, lastExecutionTicks, intervalMs) {
          SpacedSnoc(createdTicks, runs, intervalMs * TicksPerMillisecond, now);
          lastExecutionTicks := now;
          runs := runs + [now];
          ran := true;
        } else {
          pending := true;
        }
      }
    }
  }

  /** Any two runs, and the first run and the construction, are an interval apart. */
  lemma RunsApart(t: ChartThrottler)
    requires t.Valid() && t.intervalMs >= 0
    ensures forall i, j :: 0 <= i < j < |t.runs| ==> t.runs[j] - t.runs[i] >= t.intervalMs * TicksPerMillisecond
    ensures forall j :: 0 <= j < |t.runs| ==> t.runs[j] - t.createdTicks >= t.intervalMs * TicksPerMillisecond
  {
    SpacedPairwise(t.createdTicks, t.runs, t.intervalMs * TicksPerMillisecond);
  }
}
