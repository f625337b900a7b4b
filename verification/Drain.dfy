/** The two polling loops of the supervisor against a clock: waiting for an adopted
    process to disappear, and searching for the successor of a handover.  Each loop is
    followed for `polls` iterations; iteration i sleeps `naps(i)`. */
module Drain {
  import opened Clock
  import opened Wrappers

  const ADOPTED_LIVENESS_INTERVAL: nat := 200 * MILLISECOND
  const SUCCESSOR_POLL_INTERVAL: nat := 200 * MILLISECOND

  datatype Wait = Gone(at: int) | GaveUp(at: int) | Polling

  datatype Search = Found(at: int) | Missed(at: int) | Searching

  predicate Past(moment: Option<int>, now: int) { moment.Some? && moment.value <= now }

  /** Sleeping never ends early and overshoots by at most `jitter`. */
  ghost predicate Sleeps(naps: nat -> int, interval: int, jitter: nat) {
    forall i :: interval <= naps(i) <= interval + jitter
  }

  function Later(a: int, b: int): int { if a < b then b else a }

  /** Polls until the process is gone, which is noticed within one poll interval.  After
      cancellation a live process is given up no earlier than the whole drain, and the wait is
      over no later than two poll intervals after it. */
  method WaitUntilGone(start: int, goneAt: Option<int>, cancelAt: Option<int>, drain: int,
                       naps: nat -> int, jitter: nat, polls: nat)
    returns (outcome: Wait)
    requires Sleeps(naps, ADOPTED_LIVENESS_INTERVAL, jitter)
    ensures outcome.Gone? ==>
      Past(goneAt, outcome.at) && outcome.at <= Later(start, goneAt.value) + ADOPTED_LIVENESS_INTERVAL + jitter
    ensures outcome.Gone? && cancelAt.Some? && 0 <= drain ==>
      outcome.at <= Later(start, cancelAt.value) + drain + 2 * (ADOPTED_LIVENESS_INTERVAL + jitter)
    ensures outcome.GaveUp? ==> !Past(goneAt, outcome.at) && cancelAt.Some?
    ensures outcome.GaveUp? ==> cancelAt.value + drain < outcome.at
    ensures outcome.GaveUp? && 0 <= drain ==>
      outcome.at <= Later(start, cancelAt.value) + drain + 2 * (ADOPTED_LIVENESS_INTERVAL + jitter)
    ensures outcome.Polling? && cancelAt.Some? && 0 <= drain ==>
      start + polls * ADOPTED_LIVENESS_INTERVAL
        <= Later(start, cancelAt.value) + drain + 2 * (ADOPTED_LIVENESS_INTERVAL + jitter)
    ensures outcome.Polling? && goneAt.Some? ==>
      start + polls * ADOPTED_LIVENESS_INTERVAL <= Later(start, goneAt.value) + ADOPTED_LIVENESS_INTERVAL + jitter
  {
    var now := start;
    var giveUp: Option<int> := None;
    var i := 0;
    while i < polls
      invariant 0 <= i <= polls && start + i * ADOPTED_LIVENESS_INTERVAL <= now
      invariant giveUp.Some? ==> Past(cancelAt, now) && cancelAt.value + drain <= giveUp.value
      invariant giveUp.Some? ==>
        giveUp.value <= Later(start, cancelAt.value) + drain + ADOPTED_LIVENESS_INTERVAL + jitter
      invariant giveUp.Some? && 0 <= drain ==> now <= giveUp.value + ADOPTED_LIVENESS_INTERVAL + jitter
      invariant giveUp.None? && cancelAt.Some? ==> now <= Later(start, cancelAt.value + ADOPTED_LIVENESS_INTERVAL + jitter)
      invariant goneAt.Some? ==> now <= Later(start, goneAt.value + ADOPTED_LIVENESS_INTERVAL + jitter)
    {
      if Past(goneAt, now) {
        return Gone(now);
      }
      if giveUp.None? && Past(cancelAt, now) {
        giveUp := Some(now + drain);
      }
      if giveUp.Some? && giveUp.value < now {
        return GaveUp(now);
      }
      now := now + naps(i);
      i := i + 1;
    }
    outcome := Polling;
  }

  /** Searches for a successor that is visible from `visibleAt` on.  The scan precedes the
      deadline check, so a successor visible by the deadline is always found; without
      cancellation the search ends at most one interval after the deadline. */
  method SearchSuccessor(start: int, visibleAt: Option<int>, cancelAt: Option<int>, timeout: nat,
                        naps: nat -> int, jitter: nat, polls: nat)
    returns (search: Search)
    requires Sleeps(naps, SUCCESSOR_POLL_INTERVAL, jitter)
    ensures search.Found? ==> Past(visibleAt, search.at)
    ensures search.Missed? ==> !Past(visibleAt, search.at)
    ensures search.Missed? && !Past(cancelAt, search.at) ==> start + timeout < search.at && !Past(visibleAt, start + timeout)
    ensures search.Found? || search.Missed? ==>
      start <= search.at <= start + timeout + SUCCESSOR_POLL_INTERVAL + jitter
    ensures search.Searching? ==>
      polls * SUCCESSOR_POLL_INTERVAL <= timeout + SUCCESSOR_POLL_INTERVAL + jitter
  {
    var now := start;
    var deadline := now + timeout;
    var i := 0;
    while i < polls
      invariant 0 <= i <= polls && start + i * SUCCESSOR_POLL_INTERVAL <= now
      invariant now <= deadline + SUCCESSOR_POLL_INTERVAL + jitter
    {
      if Past(visibleAt, now) {
        return Found(now);
      }
      if deadline < now {
        return Missed(now);
      }
      if Past(cancelAt, now) {
        return Missed(now);
      }
      now := now + naps(i);
      i := i + 1;
    }
    search := Searching;
  }
}
