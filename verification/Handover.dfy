/** What the process-table scan and the reading of the timeout mean for a handover. */
module Handover {
  import opened Wrappers
  import opened Clock
  import opened Supervisor
  import opened Scan
  import opened Duration

  /** What KillStrays returns for a snapshot. */
  ghost predicate Killed(entries: seq<Entry>, binary: string, self: nat, killable: set<nat>, killed: seq<nat>) {
    forall pid :: pid in killed <==>
      pid in killable && exists e :: e in entries && Stray(e, pid, binary, 0, self)
  }

  ghost predicate ShowsAll(entries: seq<Entry>, live: set<nat>, binary: string) {
    forall pid | pid in live :: exists e :: e in entries && ShowsPooler(e, pid, binary)
  }

  /** The sweep over a snapshot that shows every live pooler, each within reach of the signal,
      is timely: it leaves nothing behind. */
  lemma SweepOfSnapshotIsTimely(s: Sys, entries: seq<Entry>, binary: string, self: nat, killable: set<nat>, killed: seq<nat>)
    requires s.loop.pc.Sweeping? && Killed(entries, binary, self, killable, killed)
    requires ShowsAll(entries, s.os.live.Keys, binary)
    requires s.os.live.Keys <= killable && self !in s.os.live && 0 !in s.os.live
    ensures var swept := set pid | pid in killed && pid in s.os.live;
      Enabled(s, Sweep(swept)) && Timely(s, Sweep(swept)) && Apply(s, Sweep(swept)).os.live == map[]
  {
    AllKilled(entries, s.os.live.Keys, binary, self, killable, killed);
    SweepOfAllIsTimely(s, killed);
  }

  lemma SweepOfAllIsTimely(s: Sys, killed: seq<nat>)
    requires s.loop.pc.Sweeping? && forall pid | pid in s.os.live :: pid in killed
    ensures var swept := set pid | pid in killed && pid in s.os.live;
      Enabled(s, Sweep(swept)) && Timely(s, Sweep(swept)) && Apply(s, Sweep(swept)).os.live == map[]
  {
    assert (set pid | pid in killed && pid in s.os.live) == s.os.live.Keys;
  }

  lemma AllKilled(entries: seq<Entry>, live: set<nat>, binary: string, self: nat, killable: set<nat>, killed: seq<nat>)
    requires Killed(entries, binary, self, killable, killed) && ShowsAll(entries, live, binary)
    requires live <= killable && self !in live && 0 !in live
    ensures forall pid | pid in live :: pid in killed
  {
    SnapshotReachesEveryPooler(entries, live, binary, 0, self);
  }

  /** The timeouts under which the window covers the drain: those Go reads whose window, ten
      seconds longer, fits 64 bits, and those no longer than the default window of 20 seconds. */
  predicate Covered(value: string) {
    || (Plain(value) && Denoted(value) + 10 * SECOND < TWO_63)
    || Denoted(value) <= 20 * SECOND
  }

  lemma WindowCoversDrain(value: string, dotted: string -> Option<int>)
    requires value != "" && ValidDuration(value)
    ensures Denoted(value) <= Window(WaitDelay(Some(value), dotted)) <==> Covered(value)
  {
    ReadersCompared(value, dotted);
    ZeroDenotesZero();
  }

  /** Every handover whose old process keeps within the drain it is granted is recognised when
      its exit is consumed. */
  ghost predicate DrainsRecognised(value: string, dotted: string -> Option<int>) {
    forall s, elapsed: nat | HandedOver(s, elapsed) && elapsed <= Denoted(value) ::
      Timely(s, Consume(WaitDelay(Some(value), dotted)))
  }

  /** Main result: for every accepted timeout, handovers within the drain are recognised exactly
      when the window covers the drain. */
  lemma DrainsRecognisedExactly(value: string, dotted: string -> Option<int>)
    requires value != "" && ValidDuration(value)
    ensures DrainsRecognised(value, dotted) <==> Covered(value)
  {
    WindowCoversDrain(value, dotted);
    if !Covered(value) {
      var run := HandoverFromInit(0, {}, Denoted(value));
      var s := Exec(Init(0, {}), run);
      assert HandedOver(s, Denoted(value)) && !Timely(s, Consume(WaitDelay(Some(value), dotted)));
    }
  }

  /** And where it does not, a run from the beginning ends beside a second pooler although the
      old process kept within its drain. */
  lemma UncoveredTimeoutLosesHandover(now: nat, used: set<Pid>, value: string, dotted: string -> Option<int>)
    returns (run: seq<Action>)
    requires value != "" && ValidDuration(value) && !Covered(value)
    ensures IsRun(Init(now, used), run) && !StartsAlone(Init(now, used), run)
  {
    WindowCoversDrain(value, dotted);
    var waitDelay := WaitDelay(Some(value), dotted);
    var before := HandoverFromInit(now, used, Denoted(value));
    ExecSnoc(Init(now, used), before, Consume(waitDelay));
    run := TwoPoolersFromInit(now, used, before, Consume(waitDelay));
  }

  /** One day is accepted, means a day to pg_doorman, and is not covered. */
  lemma OneDayIsUncovered(value: string)
    requires value == "1d"
    ensures ValidDuration(value) && Denoted(value) == DAY && !Covered(value)
  {
    DigitPrefixIs(value, 1);
    assert |value[1..]| == 1 && value[1..][0] == 'd' && value[..1] == "1";
    PatternIsTrimmed(value);
    assert Number(0, value[..1]) == Number(1, value[..1][1..]);
  }

  lemma OneDayLosesHandover(now: nat, used: set<Pid>, value: string, dotted: string -> Option<int>)
    returns (run: seq<Action>)
    requires value == "1d"
    ensures IsRun(Init(now, used), run) && !StartsAlone(Init(now, used), run)
  {
    OneDayIsUncovered(value);
    run := UncoveredTimeoutLosesHandover(now, used, value, dotted);
  }

  /** At the top of the range the window wraps: the wait itself may still be what it denotes,
      but no request is ever fresh and no exit is ever searched for a successor. */
  lemma WrappedWindowNeverSearches(value: string, dotted: string -> Option<int>, p: Proc, now: nat)
    requires Plain(value) && Denoted(value) < TWO_63
    requires TWO_63 <= Denoted(value) + SHUTDOWN_WAIT_MARGIN + SUCCESSOR_SEARCH_TIMEOUT
    requires p.upgradeRequestedAt <= now
    ensures ValidDuration(value) && !Fresh(p, now, WaitDelay(Some(value), dotted))
    ensures Denoted(value) + SHUTDOWN_WAIT_MARGIN < TWO_63 ==>
      WaitDelay(Some(value), dotted) == Denoted(value) + SHUTDOWN_WAIT_MARGIN
  {
    PatternIsTrimmed(value);
    ReadersCompared(value, dotted);
    ZeroDenotesZero();
  }

  /** A value in that band: the wait is positive and exact, the window is not. */
  lemma ExactWaitMayStillWrap(value: string, dotted: string -> Option<int>, p: Proc, now: nat)
    requires value == "9223372030s" && p.upgradeRequestedAt <= now
    ensures WaitDelay(Some(value), dotted) == Denoted(value) + SHUTDOWN_WAIT_MARGIN
    ensures !Fresh(p, now, WaitDelay(Some(value), dotted))
  {
    TopSecondsDenote(value, '0');
    WrappedWindowNeverSearches(value, dotted, p, now);
  }
}
