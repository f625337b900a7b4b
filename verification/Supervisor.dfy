/** The sidecar supervisor as a labelled transition system.

    One state holds the operating system (live poolers, clock, cancellation), the
    fields of the source's `Process` and the locals of `RunWithRestart`.  Every step
    that the source takes between two acquisitions of its mutex is one action; the
    operating system and the watchers move freely in between.  A run is any finite
    sequence of enabled actions, so a theorem about runs speaks about every
    interleaving and every prefix of it. */
module Supervisor {
  import opened Clock

  /** A process id; 0 stands for "no process". */
  type Pid = nat

  /** Durations and clock readings are nanoseconds. */
  const INITIAL_BACKOFF: nat := SECOND
  const MAX_BACKOFF: nat := 30 * SECOND
  const BACKOFF_RESET_UPTIME: nat := 60 * SECOND
  const SUCCESSOR_SEARCH_TIMEOUT: nat := 5 * SECOND

  /** A live pooler: whether it received SIGUSR2 and may still hand over, and the
      last successor it spawned. */
  datatype Pooler = Pooler(usr2: bool, successor: Pid)

  datatype Os = Os(now: nat, live: map<Pid, Pooler>, used: set<Pid>, cancelled: bool)

  datatype Cmd = NoCmd | FailedCmd | Child(pid: Pid)

  /** The mutable fields of the source's `Process`; `locked` is true while a watcher is
      inside `Upgrade`, between sending the signal and raising the flag. */
  datatype Proc = Proc(cmd: Cmd, adoptedPid: Pid, upgradeRequested: bool, upgradeRequestedAt: nat, locked: bool)

  datatype Pc =
    | LoopTop
    | Starting
    | Retrying(until: nat)
    | Waiting
    | Exited
    | Searching(deadline: nat)
    | Adopting(found: Pid)
    | Sweeping
    | Accounting
    | BackingOff(until: nat)
    | Done

  datatype Loop = Loop(pc: Pc, pid: Pid, startedAt: nat, backoff: nat)

  /** Metrics and history: observed exits, adoptions, restart and upgrade counters,
      accepted Upgrade calls, finished start attempts and those since the last backoff
      reset, the time the loop began, and whether the last exit of the supervised
      pooler happened under a SIGUSR2. */
  datatype Tally = Tally(
    exits: nat, adoptions: nat, restarts: nat, successes: nat, failures: nat, upgrades: nat,
    rounds: nat, sinceReset: nat, begun: nat, exitedUnderUsr2: bool)

  datatype Sys = Sys(os: Os, p: Proc, loop: Loop, tally: Tally)

  datatype Action =
    // the operating system and pg_doorman
    | Tick(elapsed: nat)
    | Cancel
    | Spawn(parent: Pid, child: Pid)
    | Abort(parent: Pid)
    | Die(pid: Pid)
    // Upgrade, called by the binary watcher
    | UpgradeSignal
    | UpgradeFlag
    // RunWithRestart
    | EnterLoop
    | StartOk(pid: Pid)
    | StartFail
    | RetryElapsed
    | WaitReturn
    | Consume(waitDelay: int)
    | ScanFound(pid: Pid)
    | Adopt
    | SearchFail
    | Sweep(killed: set<Pid>)
    | Account
    | BackoffElapsed
    | Stop

  function PidOf(p: Proc): Pid {
    if p.adoptedPid != 0 then p.adoptedPid
    else if p.cmd.Child? then p.cmd.pid
    else 0
  }

  /** The handover window: the drain plus the successor search, a 64-bit sum. */
  function Window(waitDelay: int): int { Int64(waitDelay + SUCCESSOR_SEARCH_TIMEOUT) }

  /** Whether a pending upgrade request still explains an exit. */
  predicate Fresh(p: Proc, now: nat, waitDelay: int) {
    p.upgradeRequested && now - p.upgradeRequestedAt <= Window(waitDelay)
  }

  function Doubled(backoff: nat): nat {
    if 2 * backoff < MAX_BACKOFF then 2 * backoff else MAX_BACKOFF
  }

  function BackoffAfterExit(current: nat, uptime: int): nat {
    if uptime >= BACKOFF_RESET_UPTIME then INITIAL_BACKOFF else Doubled(current)
  }

  /** kill(2) reaches a live process, and a direct child that died but is not reaped
      yet: the supervisor reaps when its wait returns. */
  predicate Signalable(s: Sys) {
    var pid := PidOf(s.p);
    pid != 0 && (pid in s.os.live || (s.loop.pc.Waiting? && s.p.adoptedPid == 0))
  }

  predicate Enabled(s: Sys, a: Action) {
    match a
    case Tick(_) => true
    case Cancel => true
    case Spawn(parent, child) =>
      && parent in s.os.live && s.os.live[parent].usr2 && s.os.live[parent].successor !in s.os.live
      && child != 0 && child !in s.os.used
    case Abort(parent) => parent in s.os.live && s.os.live[parent].usr2
    case Die(pid) => pid in s.os.live
    case UpgradeSignal => !s.p.locked && Signalable(s)
    case UpgradeFlag => s.p.locked
    case EnterLoop => s.loop.pc.LoopTop?
    case StartOk(pid) => s.loop.pc.Starting? && !s.p.locked && pid != 0 && pid !in s.os.used
    case StartFail => s.loop.pc.Starting? && !s.p.locked
    case RetryElapsed => s.loop.pc.Retrying? && s.loop.pc.until <= s.os.now
    case WaitReturn =>
      && s.loop.pc.Waiting?
      && (PidOf(s.p) !in s.os.live || s.os.cancelled)
      && (s.p.adoptedPid != 0 ==> !s.p.locked)
    case Consume(_) => s.loop.pc.Exited? && !s.p.locked
    case ScanFound(pid) => s.loop.pc.Searching? && pid in s.os.live && pid != s.loop.pid
    case Adopt => s.loop.pc.Adopting? && !s.p.locked
    case SearchFail => s.loop.pc.Searching? && (s.loop.pc.deadline < s.os.now || s.os.cancelled)
    case Sweep(killed) => s.loop.pc.Sweeping? && killed <= s.os.live.Keys
    case Account => s.loop.pc.Accounting?
    case BackoffElapsed => s.loop.pc.BackingOff? && s.loop.pc.until <= s.os.now
    case Stop => s.os.cancelled && (s.loop.pc.Retrying? || s.loop.pc.BackingOff?)
  }

  function Apply(s: Sys, a: Action): Sys {
    match a
    case Tick(elapsed) => s.(os := s.os.(now := s.os.now + elapsed))
    case Cancel => s.(os := s.os.(cancelled := true))
    case Spawn(parent, child) =>
      if parent !in s.os.live then s else
      s.(os := s.os.(
        live := s.os.live[parent := s.os.live[parent].(successor := child)][child := Pooler(false, 0)],
        used := s.os.used + {child}))
    case Abort(parent) =>
      if parent !in s.os.live then s else
      var successor := s.os.live[parent].successor;
      s.(os := s.os.(live := (s.os.live - {successor})[parent := Pooler(false, 0)]))
    case Die(pid) =>
      s.(os := s.os.(live := s.os.live - {pid}),
         tally := if pid == s.loop.pid && pid in s.os.live
                  then s.tally.(exitedUnderUsr2 := s.os.live[pid].usr2) else s.tally)
    case UpgradeSignal =>
      var pid := PidOf(s.p);
      s.(p := s.p.(locked := true),
         os := if pid in s.os.live
               then s.os.(live := s.os.live[pid := s.os.live[pid].(usr2 := true)]) else s.os)
    case UpgradeFlag =>
      s.(p := s.p.(upgradeRequested := true, upgradeRequestedAt := s.os.now, locked := false),
         tally := s.tally.(upgrades := s.tally.upgrades + 1))
    case EnterLoop => s.(loop := s.loop.(pc := Starting, startedAt := s.os.now))
    case StartOk(pid) =>
      s.(os := s.os.(live := s.os.live[pid := Pooler(false, 0)], used := s.os.used + {pid}),
         p := s.p.(cmd := Child(pid), adoptedPid := 0),
         loop := s.loop.(pc := Waiting, pid := pid),
         tally := s.tally.(exitedUnderUsr2 := false))
    case StartFail =>
      s.(p := s.p.(cmd := FailedCmd, adoptedPid := 0),
         loop := s.loop.(pc := if s.os.cancelled then Done else Retrying(s.os.now + s.loop.backoff)))
    case RetryElapsed =>
      s.(loop := s.loop.(pc := LoopTop, backoff := Doubled(s.loop.backoff)),
         tally := s.tally.(rounds := s.tally.rounds + 1, sinceReset := s.tally.sinceReset + 1))
    case WaitReturn =>
      s.(p := s.p.(adoptedPid := 0),
         loop := s.loop.(pc := if s.os.cancelled then Done else Exited),
         tally := if s.os.cancelled then s.tally else s.tally.(exits := s.tally.exits + 1))
    case Consume(waitDelay) =>
      s.(p := s.p.(upgradeRequested := false),
         loop := s.loop.(pc := if Fresh(s.p, s.os.now, waitDelay)
                               then Searching(s.os.now + SUCCESSOR_SEARCH_TIMEOUT) else Accounting))
    case ScanFound(pid) => s.(loop := s.loop.(pc := Adopting(pid)))
    case Adopt =>
      if !s.loop.pc.Adopting? then s else
      s.(p := s.p.(cmd := NoCmd, adoptedPid := s.loop.pc.found),
         loop := s.loop.(pc := Waiting, pid := s.loop.pc.found, startedAt := s.os.now),
         tally := s.tally.(adoptions := s.tally.adoptions + 1, successes := s.tally.successes + 1,
                           exitedUnderUsr2 := false))
    case SearchFail =>
      s.(loop := s.loop.(pc := Sweeping), tally := s.tally.(failures := s.tally.failures + 1))
    case Sweep(killed) =>
      s.(os := s.os.(live := s.os.live - killed), loop := s.loop.(pc := Accounting))
    case Account =>
      var uptime := s.os.now - s.loop.startedAt;
      var backoff := BackoffAfterExit(s.loop.backoff, uptime);
      s.(loop := s.loop.(pc := BackingOff(s.os.now + backoff), backoff := backoff),
         tally := s.tally.(restarts := s.tally.restarts + 1, rounds := s.tally.rounds + 1,
                           sinceReset := if uptime >= BACKOFF_RESET_UPTIME then 0 else s.tally.sinceReset + 1))
    case BackoffElapsed => s.(loop := s.loop.(pc := LoopTop))
    case Stop => s.(loop := s.loop.(pc := Done))
  }

  /** The wrapper at the moment it calls `RunWithRestart`. */
  function Init(now: nat, used: set<Pid>): Sys {
    Sys(Os(now, map[], used + {0}, false),
        Proc(NoCmd, 0, false, 0, false),
        Loop(LoopTop, 0, now, INITIAL_BACKOFF),
        Tally(0, 0, 0, 0, 0, 0, 0, 0, now, false))
  }

  function Exec(s: Sys, run: seq<Action>): Sys {
    if run == [] then s else Apply(Exec(s, run[..|run| - 1]), run[|run| - 1])
  }

  ghost predicate IsRun(s: Sys, run: seq<Action>) {
    run != [] ==>
      IsRun(s, run[..|run| - 1]) && Enabled(Exec(s, run[..|run| - 1]), run[|run| - 1])
  }

  lemma ExecSnoc(s: Sys, run: seq<Action>, a: Action)
    ensures Exec(s, run + [a]) == Apply(Exec(s, run), a)
    ensures IsRun(s, run + [a]) <==> IsRun(s, run) && Enabled(Exec(s, run), a)
  {
    assert (run + [a])[..|run|] == run;
  }

  // ---------------------------------------------------------------- one pooler

  /** What a handover needs from outside the supervisor: when an exit is consumed while
      a successor lives, the request is still fresh; and a sweep sees every survivor. */
  ghost predicate Timely(s: Sys, a: Action) {
    match a
    case Consume(waitDelay) => s.os.live != map[] ==> Fresh(s.p, s.os.now, waitDelay)
    case Sweep(killed) => killed == s.os.live.Keys
    case _ => true
  }

  ghost predicate AllTimely(s: Sys, run: seq<Action>) {
    forall i | 0 <= i < |run| :: Timely(Exec(s, run[..i]), run[i])
  }

  /** What holds in every run, timely or not: the fields point at the process the loop
      supervises, and a SIGUSR2 the supervised pooler got is covered by the flag, which
      is up or about to be raised inside the same critical section. */
  ghost predicate Wired(s: Sys) {
    var live, pc, pid := s.os.live, s.loop.pc, s.loop.pid;
    var flagged := s.p.upgradeRequested || s.p.locked;
    && 0 in s.os.used && 0 !in live && live.Keys <= s.os.used
    && (!pc.Done? ==>
      && (pc.Waiting? ==> pid != 0 && PidOf(s.p) == pid)
      && (!pc.Waiting? ==> pid !in live && s.p.adoptedPid == 0 && (PidOf(s.p) == pid || PidOf(s.p) == 0))
      && (s.p.adoptedPid != 0 ==> s.p.cmd == NoCmd)
      && (s.p.locked ==> pc.Waiting? || pc.Exited?)
      && (pc.Adopting? ==> pc.found != 0)
      && (forall q | q in live && live[q].usr2 :: q == pid && pc.Waiting? && flagged)
      && (s.tally.exitedUnderUsr2 && (pc.Waiting? || pc.Exited?) ==> flagged))
  }

  /** While the supervisor waits, only the supervised pooler and its one successor live;
      once it is gone nothing but that successor lives, and the upgrade flag says so. */
  ghost predicate Tidy(s: Sys) {
    var live, pc, pid := s.os.live, s.loop.pc, s.loop.pid;
    var flagged := s.p.upgradeRequested || s.p.locked;
    && Wired(s)
    && (!pc.Done? ==>
      && (forall q | q in live && q != pid :: live[q].successor == 0)
      && (pid in live ==> live.Keys <= {pid, live[pid].successor})
      && (pid in live && live[pid].successor in live ==> live[pid].usr2)
      && (pid !in live ==> forall q, r | q in live && r in live :: q == r)
      && (pid !in live && live != map[] && (pc.Waiting? || pc.Exited?) ==> flagged)
      && (flagged ==> pc.Waiting? || pc.Exited?)
      && (pc.Adopting? ==> live.Keys <= {pc.found})
      && (pc.LoopTop? || pc.Starting? || pc.Retrying? || pc.Accounting? || pc.BackingOff? ==> live == map[]))
  }

  /** The moves of the operating system and of pg_doorman. */
  predicate IsOsStep(a: Action) { a.Tick? || a.Cancel? || a.Spawn? || a.Abort? || a.Die? }

  /** The steps of the loop from one supervised process to the decision about its exit. */
  predicate IsExitStep(a: Action) {
    a.WaitReturn? || a.Consume? || a.ScanFound? || a.Adopt? || a.SearchFail? || a.Sweep?
  }

  lemma StepKeepsWired(s: Sys, a: Action)
    requires Wired(s) && Enabled(s, a)
    ensures Wired(Apply(s, a))
  {
    if IsOsStep(a) {
      OsStepKeepsWired(s, a);
    } else if IsExitStep(a) {
      ExitStepKeepsWired(s, a);
    } else {
      OtherStepKeepsWired(s, a);
    }
  }

  lemma OsStepKeepsWired(s: Sys, a: Action)
    requires Wired(s) && Enabled(s, a) && IsOsStep(a)
    ensures Wired(Apply(s, a))
  {
  }

  lemma ExitStepKeepsWired(s: Sys, a: Action)
    requires Wired(s) && Enabled(s, a) && IsExitStep(a)
    ensures Wired(Apply(s, a))
  {
  }

  lemma OtherStepKeepsWired(s: Sys, a: Action)
    requires Wired(s) && Enabled(s, a) && !IsOsStep(a) && !IsExitStep(a)
    ensures Wired(Apply(s, a))
  {
  }

  lemma StepKeepsTidy(s: Sys, a: Action)
    requires Tidy(s) && Enabled(s, a) && Timely(s, a)
    ensures Tidy(Apply(s, a))
  {
    StepKeepsWired(s, a);
  }

  /** Every Start of the run finds no live pooler. */
  ghost predicate StartsAlone(s: Sys, run: seq<Action>) {
    forall i | 0 <= i < |run| && run[i].StartOk? :: Exec(s, run[..i]).os.live == map[]
  }

  /** At most two poolers live; two only while the supervisor waits for one of them. */
  ghost predicate AtMostOneUnsupervised(s: Sys) {
    && |s.os.live| <= 2
    && (|s.os.live| == 2 ==> s.loop.pc.Waiting? && PidOf(s.p) in s.os.live)
  }

  lemma SetWithin<T>(keys: set<T>, bound: set<T>)
    requires keys <= bound
    ensures |keys| <= |bound|
  {
    if x :| x in bound && x !in keys {
      SetWithin(keys, bound - {x});
    } else {
      assert keys == bound;
    }
  }

  lemma TidyMeansAtMostOneUnsupervised(s: Sys)
    requires Tidy(s) && !s.loop.pc.Done?
    ensures AtMostOneUnsupervised(s)
  {
    var live, pid := s.os.live, s.loop.pid;
    assert |live| == |live.Keys|;
    if pid in live {
      SetWithin(live.Keys, {pid, live[pid].successor});
    } else if live != map[] {
      var q :| q in live;
      SetWithin(live.Keys, {q});
    }
  }

  lemma StartIsAlone(s: Sys, a: Action)
    requires Tidy(s) && Enabled(s, a) && a.StartOk?
    ensures s.os.live == map[]
  {
  }

  /** Both properties of runs extend step by step. */
  lemma SnocProperties(s: Sys, run: seq<Action>, a: Action)
    ensures AllTimely(s, run + [a]) <==> AllTimely(s, run) && Timely(Exec(s, run), a)
    ensures StartsAlone(s, run + [a]) <==>
      StartsAlone(s, run) && (a.StartOk? ==> Exec(s, run).os.live == map[])
  {
    var longer := run + [a];
    assert longer[..|run|] == run && longer[|run|] == a;
    assert forall i | 0 <= i < |run| :: longer[..i] == run[..i] && longer[i] == run[i];
  }

  lemma {:induction false} RunStaysTidy(s: Sys, run: seq<Action>)
    requires Tidy(s) && IsRun(s, run) && AllTimely(s, run)
    ensures Tidy(Exec(s, run)) && StartsAlone(s, run)
    decreases |run|
  {
    if run != [] {
      var before, a := run[..|run| - 1], run[|run| - 1];
      assert run == before + [a];
      SnocProperties(s, before, a);
      RunStaysTidy(s, before);
      StepKeepsTidy(Exec(s, before), a);
      if a.StartOk? { StartIsAlone(Exec(s, before), a); }
    }
  }

  /** Main result: with timely handovers no run ever starts a pooler beside a live one,
      and until the loop ends at most one live pooler is unsupervised. */
  lemma SinglePooler(now: nat, used: set<Pid>, run: seq<Action>)
    requires IsRun(Init(now, used), run) && AllTimely(Init(now, used), run)
    ensures StartsAlone(Init(now, used), run)
    ensures !Exec(Init(now, used), run).loop.pc.Done? ==> AtMostOneUnsupervised(Exec(Init(now, used), run))
  {
    var s := Init(now, used);
    RunStaysTidy(s, run);
    if !Exec(s, run).loop.pc.Done? {
      TidyMeansAtMostOneUnsupervised(Exec(s, run));
    }
  }

  lemma TimelyRunsStartAlone(s: Sys, run: seq<Action>)
    requires (exists now, used :: s == Init(now, used)) && IsRun(s, run)
    ensures AllTimely(s, run) ==> StartsAlone(s, run)
  {
    var now, used :| s == Init(now, used);
    if AllTimely(s, run) { SinglePooler(now, used, run); }
  }

  lemma UnusedPid(used: set<Pid>) returns (pid: Pid)
    ensures forall q | q in used :: q < pid
  {
    if x: Pid :| x in used {
      var below := UnusedPid(used - {x});
      pid := if x < below then below else x + 1;
      assert forall q | q in used :: q == x || q in used - {x};
    } else {
      pid := 0;
    }
  }

  lemma Extend(s: Sys, run: seq<Action>, a: Action) returns (longer: seq<Action>)
    requires IsRun(s, run) && AllTimely(s, run)
    requires Enabled(Exec(s, run), a) && Timely(Exec(s, run), a)
    ensures longer == run + [a] && IsRun(s, longer) && AllTimely(s, longer)
    ensures Exec(s, longer) == Apply(Exec(s, run), a)
  {
    longer := run + [a];
    ExecSnoc(s, run, a);
    SnocProperties(s, run, a);
  }

  /** An untimely step always can end in two poolers: the supervisor accounts for the
      exit, waits out the backoff and starts a second one. */
  lemma UntimelyStepStartsSecondPooler(s: Sys, a: Action) returns (rest: seq<Action>)
    requires Tidy(s) && Enabled(s, a) && !Timely(s, a)
    ensures IsRun(Apply(s, a), rest) && AllTimely(Apply(s, a), rest)
    ensures !StartsAlone(Apply(s, a), rest)
  {
    assert Apply(s, a).loop.pc == Accounting && Apply(s, a).os.live != map[] && !s.p.locked;
    rest := AccountingStartsBeside(Apply(s, a));
  }

  lemma AccountingStartsBeside(s: Sys) returns (rest: seq<Action>)
    requires s.loop.pc == Accounting && s.os.live != map[] && !s.p.locked
    ensures IsRun(s, rest) && AllTimely(s, rest) && !StartsAlone(s, rest)
  {
    var pid := UnusedPid(s.os.used + {0});
    rest := Extend(s, [], Account);
    rest := Extend(s, rest, Tick(MAX_BACKOFF));
    rest := Extend(s, rest, BackoffElapsed);
    rest := Extend(s, rest, EnterLoop);
    SnocProperties(s, rest, StartOk(pid));
    rest := Extend(s, rest, StartOk(pid));
  }

  lemma {:induction false} ExecAppend(s: Sys, run: seq<Action>, rest: seq<Action>)
    ensures Exec(s, run + rest) == Exec(Exec(s, run), rest)
    ensures IsRun(s, run + rest) <==> IsRun(s, run) && IsRun(Exec(s, run), rest)
    decreases |rest|
  {
    if rest == [] {
      assert run + rest == run;
    } else {
      var n := |rest| - 1;
      ExecAppend(s, run, rest[..n]);
      assert run + rest == (run + rest[..n]) + [rest[n]];
      ExecSnoc(s, run + rest[..n], rest[n]);
      assert (run + rest)[..|run + rest| - 1] == run + rest[..n];
    }
  }

  /** A handover whose old process is still draining after `elapsed`: the successor lives
      and the exit has just been observed. */
  ghost predicate HandedOver(s: Sys, elapsed: nat) {
    && s.loop.pc.Exited? && !s.p.locked && !s.os.cancelled && s.os.live != map[]
    && s.p.upgradeRequested && s.os.now == s.p.upgradeRequestedAt + elapsed
  }

  /** From the very beginning: start, upgrade, successor, a drain of `elapsed`, exit. */
  lemma HandoverFromInit(now: nat, used: set<Pid>, elapsed: nat) returns (run: seq<Action>)
    ensures IsRun(Init(now, used), run) && AllTimely(Init(now, used), run)
    ensures HandedOver(Exec(Init(now, used), run), elapsed)
  {
    var s := Init(now, used);
    var first := UnusedPid(used + {0});
    run := Extend(s, [], EnterLoop);
    run := Extend(s, run, StartOk(first));
    run := Extend(s, run, UpgradeSignal);
    run := Extend(s, run, UpgradeFlag);
    var t := Exec(s, run);
    assert t.os.live == map[first := Pooler(true, 0)];
    run := DrainAndExit(s, run, first, first + 1, elapsed);
  }

  /** The signalled pooler spawns its successor, drains, and its exit is observed. */
  lemma DrainAndExit(s: Sys, before: seq<Action>, pid: Pid, child: Pid, elapsed: nat) returns (run: seq<Action>)
    requires IsRun(s, before) && AllTimely(s, before)
    requires var t := Exec(s, before);
      && t.loop.pc.Waiting? && PidOf(t.p) == pid && t.p.adoptedPid == 0 && !t.p.locked && !t.os.cancelled
      && t.os.live == map[pid := Pooler(true, 0)] && child != pid && child != 0 && child !in t.os.used && pid != 0
      && t.p.upgradeRequested && t.os.now == t.p.upgradeRequestedAt
    ensures IsRun(s, run) && AllTimely(s, run) && HandedOver(Exec(s, run), elapsed)
  {
    DrainSteps(Exec(s, before), pid, child, elapsed);
    run := Extend(s, before, Spawn(pid, child));
    run := Extend(s, run, Tick(elapsed));
    run := Extend(s, run, Die(pid));
    run := Extend(s, run, WaitReturn);
  }

  /** The same steps one state after the other. */
  lemma DrainSteps(t: Sys, pid: Pid, child: Pid, elapsed: nat)
    requires t.loop.pc.Waiting? && PidOf(t.p) == pid && t.p.adoptedPid == 0 && !t.p.locked && !t.os.cancelled
    requires t.os.live == map[pid := Pooler(true, 0)] && child != pid && child != 0 && child !in t.os.used && pid != 0
    requires t.p.upgradeRequested && t.os.now == t.p.upgradeRequestedAt
    ensures var spawned := Apply(t, Spawn(pid, child));
      var drained := Apply(spawned, Tick(elapsed));
      var died := Apply(drained, Die(pid));
      && Enabled(t, Spawn(pid, child)) && Enabled(spawned, Tick(elapsed)) && Enabled(drained, Die(pid))
      && Enabled(died, WaitReturn) && HandedOver(Apply(died, WaitReturn), elapsed)
  {
    var drained := Apply(Apply(t, Spawn(pid, child)), Tick(elapsed));
    assert drained.os.live[child] == Pooler(false, 0);
    var ended := Apply(Apply(drained, Die(pid)), WaitReturn);
    assert child in ended.os.live;
  }

  /** The failure is real: for every wait delay there is a run from the beginning, timely up
      to its last step, in which the drain outlasts the window by one tick and the exit is
      taken for a crash while the successor lives. */
  lemma LateHandoverFromInit(now: nat, used: set<Pid>, waitDelay: int) returns (run: seq<Action>)
    ensures IsRun(Init(now, used), run + [Consume(waitDelay)]) && AllTimely(Init(now, used), run)
    ensures !Timely(Exec(Init(now, used), run), Consume(waitDelay))
  {
    run := HandoverFromInit(now, used, if Window(waitDelay) < 0 then 0 else Window(waitDelay) + 1);
    ExecSnoc(Init(now, used), run, Consume(waitDelay));
  }

  /** So is a sweep that misses the successor of a handover whose search failed; with a
      negative window there is no search and hence no sweep. */
  lemma BlindSweepFromInit(now: nat, used: set<Pid>, waitDelay: int) returns (run: seq<Action>)
    requires 0 <= Window(waitDelay)
    ensures IsRun(Init(now, used), run + [Sweep({})]) && AllTimely(Init(now, used), run)
    ensures !Timely(Exec(Init(now, used), run), Sweep({}))
  {
    var s := Init(now, used);
    run := HandoverFromInit(now, used, 0);
    run := Extend(s, run, Consume(waitDelay));
    run := Extend(s, run, Tick(SUCCESSOR_SEARCH_TIMEOUT + 1));
    run := Extend(s, run, SearchFail);
    ExecSnoc(s, run, Sweep({}));
  }

  /** Either run goes on to a Start beside the live successor. */
  lemma TwoPoolersFromInit(now: nat, used: set<Pid>, before: seq<Action>, a: Action) returns (run: seq<Action>)
    requires IsRun(Init(now, used), before + [a]) && AllTimely(Init(now, used), before)
    requires !Timely(Exec(Init(now, used), before), a)
    ensures before + [a] <= run && IsRun(Init(now, used), run) && !StartsAlone(Init(now, used), run)
  {
    var s := Init(now, used);
    ExecSnoc(s, before, a);
    RunStaysTidy(s, before);
    var rest := UntimelyStepStartsSecondPooler(Exec(s, before), a);
    run := before + [a] + rest;
    ExecAppend(s, before + [a], rest);
    var i :| 0 <= i < |rest| && rest[i].StartOk? && Exec(Exec(s, before + [a]), rest[..i]).os.live != map[];
    ExecAppend(s, before + [a], rest[..i]);
    var k := |before| + 1 + i;
    assert run[..k] == before + [a] + rest[..i] && run[k] == rest[i];
  }

  /** Exactly when a step is safe: timeliness is not only sufficient but necessary. */
  lemma TimelyExactlyWhenSafe(s: Sys, a: Action)
    requires Tidy(s) && Enabled(s, a)
    ensures Timely(s, a) <==>
      forall rest :: IsRun(Apply(s, a), rest) && AllTimely(Apply(s, a), rest) ==> StartsAlone(Apply(s, a), rest)
  {
    var s1 := Apply(s, a);
    if Timely(s, a) {
      StepKeepsTidy(s, a);
      forall rest | IsRun(s1, rest) && AllTimely(s1, rest) ensures StartsAlone(s1, rest) {
        RunStaysTidy(s1, rest);
      }
    } else {
      var rest := UntimelyStepStartsSecondPooler(s, a);
    }
  }

  // ------------------------------------------------------------ exit accounting

  function Count(b: bool): nat { if b then 1 else 0 }

  ghost predicate Balanced(s: Sys) {
    var t, pc := s.tally, s.loop.pc;
    && t.exits == t.adoptions + t.restarts
         + Count(pc.Exited? || pc.Searching? || pc.Adopting? || pc.Sweeping? || pc.Accounting?)
    && t.successes == t.adoptions
    && t.successes + t.failures + Count(s.p.upgradeRequested) + Count(pc.Searching? || pc.Adopting?) <= t.upgrades
  }

  lemma StepKeepsBalanced(s: Sys, a: Action)
    requires Balanced(s) && Enabled(s, a)
    ensures Balanced(Apply(s, a))
  {
  }

  lemma {:induction false} EveryRunIsWiredAndBalanced(now: nat, used: set<Pid>, run: seq<Action>)
    requires IsRun(Init(now, used), run)
    ensures Wired(Exec(Init(now, used), run)) && Balanced(Exec(Init(now, used), run))
    decreases |run|
  {
    if run != [] {
      var before := run[..|run| - 1];
      EveryRunIsWiredAndBalanced(now, used, before);
      StepKeepsWired(Exec(Init(now, used), before), run[|run| - 1]);
      StepKeepsBalanced(Exec(Init(now, used), before), run[|run| - 1]);
    }
  }

  /** Main result, without premises: whenever the loop is about to start or waits for a
      pooler, every observed exit was an adoption or a counted restart, and finished
      upgrades never outnumber the accepted Upgrade calls. */
  lemma ExitAccounting(now: nat, used: set<Pid>, run: seq<Action>)
    requires IsRun(Init(now, used), run)
    ensures var s := Exec(Init(now, used), run);
      && (s.loop.pc.LoopTop? || s.loop.pc.Starting? || s.loop.pc.Waiting? ==>
            s.tally.exits == s.tally.adoptions + s.tally.restarts)
      && s.tally.successes == s.tally.adoptions
      && s.tally.successes + s.tally.failures <= s.tally.upgrades
  {
    EveryRunIsWiredAndBalanced(now, used, run);
  }

  /** Main result, without premises: an exit under a SIGUSR2 is searched for a successor
      exactly when the last accepted Upgrade is at most one handover window old.  No such
      exit is consumed while the flag is still to be raised. */
  lemma NoSkippedSearch(now: nat, used: set<Pid>, run: seq<Action>, waitDelay: int)
    requires IsRun(Init(now, used), run + [Consume(waitDelay)])
    ensures var s := Exec(Init(now, used), run);
      s.tally.exitedUnderUsr2 ==>
        (Exec(Init(now, used), run + [Consume(waitDelay)]).loop.pc.Searching? <==>
          s.os.now - s.p.upgradeRequestedAt <= Window(waitDelay))
  {
    ExecSnoc(Init(now, used), run, Consume(waitDelay));
    EveryRunIsWiredAndBalanced(now, used, run);
  }

  // ---------------------------------------------------- what stays between two steps

  /** The steps that put another process, or none, under supervision. */
  predicate Replaces(a: Action) { a.StartOk? || a.StartFail? || a.Adopt? }

  /** A direct child keeps its pid for every reader, dead or alive, until the supervisor
      starts or adopts something else. */
  lemma {:induction false} ChildKeepsItsPid(s: Sys, run: seq<Action>)
    requires IsRun(s, run) && s.p.adoptedPid == 0 && s.p.cmd.Child?
    requires forall i | 0 <= i < |run| :: !Replaces(run[i])
    ensures Exec(s, run).p.adoptedPid == 0 && Exec(s, run).p.cmd == s.p.cmd
    ensures PidOf(Exec(s, run).p) == s.p.cmd.pid
    decreases |run|
  {
    if run != [] {
      assert forall i | 0 <= i < |run| - 1 :: run[..|run| - 1][i] == run[i];
      ChildKeepsItsPid(s, run[..|run| - 1]);
      StepKeepsChild(Exec(s, run[..|run| - 1]), run[|run| - 1]);
    }
  }

  lemma StepKeepsChild(s: Sys, a: Action)
    requires Enabled(s, a) && !Replaces(a) && s.p.adoptedPid == 0
    ensures Apply(s, a).p.adoptedPid == 0 && Apply(s, a).p.cmd == s.p.cmd
  {
  }

  /** A request that no longer explains an exit never will again, for this or any shorter
      window, until another upgrade is signalled; so it defers no delivery for good. */
  lemma {:induction false} StaleRequestStaysStale(s: Sys, run: seq<Action>, waitDelay: int, shorter: int)
    requires IsRun(s, run) && !Fresh(s.p, s.os.now, waitDelay) && Window(shorter) <= Window(waitDelay)
    requires forall i | 0 <= i < |run| :: run[i] != UpgradeFlag
    ensures !Fresh(Exec(s, run).p, Exec(s, run).os.now, shorter)
    ensures s.os.now <= Exec(s, run).os.now
    ensures Exec(s, run).p.upgradeRequested ==>
      s.p.upgradeRequested && Exec(s, run).p.upgradeRequestedAt == s.p.upgradeRequestedAt
    decreases |run|
  {
    if run != [] {
      assert forall i | 0 <= i < |run| - 1 :: run[..|run| - 1][i] == run[i];
      StaleRequestStaysStale(s, run[..|run| - 1], waitDelay, shorter);
    }
  }

  // ------------------------------------------------------------- restart pacing

  function Pow2(k: nat): nat { if k == 0 then 1 else 2 * Pow2(k - 1) }

  function CappedBackoff(k: nat): nat {
    if Pow2(k) * SECOND < MAX_BACKOFF then Pow2(k) * SECOND else MAX_BACKOFF
  }

  /** How far a run that ends with this backoff may be ahead of one attempt per fifteen
      seconds.  A potential function: early attempts are cheap, later ones pay back. */
  function Credit(backoff: nat): nat {
    if backoff == SECOND then 0
    else if backoff == 2 * SECOND then 14 * SECOND
    else if backoff == 4 * SECOND then 27 * SECOND
    else if backoff == 8 * SECOND then 38 * SECOND
    else if backoff == 16 * SECOND then 45 * SECOND
    else 44 * SECOND
  }

  predicate IsBackoff(b: nat) {
    b == SECOND || b == 2 * SECOND || b == 4 * SECOND || b == 8 * SECOND || b == 16 * SECOND || b == 30 * SECOND
  }

  ghost predicate Paced(s: Sys) {
    var t, pc, backoff := s.tally, s.loop.pc, s.loop.backoff;
    var owed: int := 15 * SECOND * t.rounds - Credit(backoff);
    && IsBackoff(backoff) && backoff == CappedBackoff(t.sinceReset)
    && s.loop.startedAt <= s.os.now
    && match pc
       case LoopTop => s.os.now - t.begun >= owed
       case Retrying(until) => until - t.begun >= 15 * SECOND * (t.rounds + 1) - Credit(Doubled(backoff))
       case BackingOff(until) => until - t.begun >= owed
       case Done => true
       case _ => s.loop.startedAt - t.begun >= owed
  }

  lemma StepKeepsPaced(s: Sys, a: Action)
    requires Paced(s) && Enabled(s, a)
    ensures Paced(Apply(s, a))
  {
    if a.Account? || a.StartFail? {
      BackoffKeepsPaced(s, a);
    } else if a.RetryElapsed? || a.BackoffElapsed? {
      ElapsedKeepsPaced(s, a);
    } else {
      OtherStepKeepsPaced(s, a);
    }
  }

  lemma BackoffKeepsPaced(s: Sys, a: Action)
    requires Paced(s) && Enabled(s, a) && (a.Account? || a.StartFail?)
    ensures Paced(Apply(s, a))
  {
  }

  lemma ElapsedKeepsPaced(s: Sys, a: Action)
    requires Paced(s) && Enabled(s, a) && (a.RetryElapsed? || a.BackoffElapsed?)
    ensures Paced(Apply(s, a))
  {
  }

  lemma OtherStepKeepsPaced(s: Sys, a: Action)
    requires Paced(s) && Enabled(s, a)
    requires !a.Account? && !a.StartFail? && !a.RetryElapsed? && !a.BackoffElapsed?
    ensures Paced(Apply(s, a))
  {
  }

  lemma {:induction false} EveryRunIsPaced(now: nat, used: set<Pid>, run: seq<Action>)
    requires IsRun(Init(now, used), run)
    ensures Paced(Exec(Init(now, used), run))
    decreases |run|
  {
    if run != [] {
      var before := run[..|run| - 1];
      EveryRunIsPaced(now, used, before);
      StepKeepsPaced(Exec(Init(now, used), before), run[|run| - 1]);
    }
  }

  /** Main result, without premises: however failed starts, crashes, long uptimes and
      handovers mix, N finished attempts take at least 15 N - 45 seconds. */
  lemma AmortisedRestartBound(now: nat, used: set<Pid>, run: seq<Action>)
    requires IsRun(Init(now, used), run)
    ensures var s := Exec(Init(now, used), run);
      && (s.loop.pc.LoopTop? ==> s.os.now - now >= 15 * SECOND * s.tally.rounds - 45 * SECOND)
      && s.loop.backoff == CappedBackoff(s.tally.sinceReset)
  {
    EveryRunIsPaced(now, used, run);
    BegunIsFixed(now, used, run);
  }

  lemma {:induction false} BegunIsFixed(now: nat, used: set<Pid>, run: seq<Action>)
    ensures Exec(Init(now, used), run).tally.begun == now
    decreases |run|
  {
    if run != [] {
      BegunIsFixed(now, used, run[..|run| - 1]);
    }
  }

  ghost predicate AfterFailures(s: Sys, run: seq<Action>, now: nat, k: nat) {
    IsRun(s, run) &&
    var e := Exec(s, run);
    && e.loop.pc.LoopTop? && e.tally.rounds == k && !e.os.cancelled && !e.p.locked
    && e.loop.backoff == Pow2(k) * SECOND && e.os.now == now + (Pow2(k) - 1) * SECOND
  }

  lemma OneMoreFailure(s: Sys, before: seq<Action>, now: nat, k: nat) returns (run: seq<Action>)
    requires AfterFailures(s, before, now, k) && k < 4
    ensures AfterFailures(s, run, now, k + 1)
  {
    assert Pow2(1) == 2 && Pow2(2) == 4 && Pow2(3) == 8;
    ExecSnoc(s, before, EnterLoop);
    run := before + [EnterLoop];
    ExecSnoc(s, run, StartFail);
    run := run + [StartFail];
    ExecSnoc(s, run, Tick(Pow2(k) * SECOND));
    run := run + [Tick(Pow2(k) * SECOND)];
    ExecSnoc(s, run, RetryElapsed);
    run := run + [RetryElapsed];
  }

  /** The delay after the k-th exit or failed start in a row: 1, 2, 4, 8, 16, and then always
      30 seconds; an exit after a minute or more counts as the first. */
  lemma {:induction false} DelaySchedule(k: nat, uptime: int)
    ensures CappedBackoff(k) == SECOND *
      if k == 0 then 1 else if k == 1 then 2 else if k == 2 then 4 else if k == 3 then 8 else if k == 4 then 16 else 30
    ensures Doubled(CappedBackoff(k)) == CappedBackoff(k + 1)
    ensures BackoffAfterExit(CappedBackoff(k), uptime) == if 60 * SECOND <= uptime then 1 * SECOND else CappedBackoff(k + 1)
  {
    assert Pow2(1) == 2 && Pow2(2) == 4 && Pow2(3) == 8 && Pow2(4) == 16 && Pow2(5) == 32;
    if 4 < k { Pow2IsLarge(k); }
    Pow2IsLarge(k + 1);
  }

  lemma {:induction false} Pow2IsLarge(k: nat)
    ensures 4 < k ==> 32 <= Pow2(k)
  {
    assert Pow2(1) == 2 && Pow2(2) == 4 && Pow2(3) == 8 && Pow2(4) == 16 && Pow2(5) == 32;
    if 5 < k { Pow2IsLarge(k - 1); }
  }

  /** The bound is attained: four failed starts are over after exactly fifteen seconds. */
  lemma BoundIsTight(now: nat, used: set<Pid>) returns (run: seq<Action>)
    ensures IsRun(Init(now, used), run)
    ensures var s := Exec(Init(now, used), run);
      s.loop.pc.LoopTop? && s.tally.rounds == 4 && s.os.now - now == 15 * SECOND * s.tally.rounds - 45 * SECOND
  {
    run := [];
    for k := 0 to 4
      invariant AfterFailures(Init(now, used), run, now, k)
    {
      run := OneMoreFailure(Init(now, used), run, now, k);
    }
  }
}
