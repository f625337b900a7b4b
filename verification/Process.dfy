/** The source's `Process` as a class, and `RunWithRestart` as a method whose every
    execution is proved to be a run of the transition system in `Supervisor`. */
module ProcessModel {
  import opened Clock
  import opened Wrappers
  import opened Supervisor
  import opened Progress
  import Duration

  datatype Signal = SIGTERM | SIGKILL | SIGHUP | SIGUSR2

  /** What one scan of the process table showed, and when. */
  datatype Snapshot = Snapshot(at: nat, shown: set<Pid>)

  /** The operating system seen by the wrapper.  `unreaped` is the direct child that has
      not been waited for; `timeout` is the shutdown_timeout in the runtime config, None when
      it cannot be read; `horizon` bounds how many turns of the others are followed, so every
      result is about all finite prefixes; `sent` logs the delivered signals.  The ghost
      fields record the run taken so far and the scans. */
  class World {
    const dotted: string -> Option<int>
    var now: nat
    var live: map<Pid, Pooler>
    var used: set<Pid>
    var cancelled: bool
    var unreaped: Pid
    var timeout: Option<string>
    var horizon: nat
    var sent: seq<(Pid, Signal)>
    ghost const span: nat
    ghost var past: History
    ghost var scans: seq<Snapshot>

    ghost predicate Consistent()
      reads this
    {
      && Kept(past) && |past.turns| + horizon == span
      && past.s.os == Os(now, live, used, cancelled)
      && (unreaped != 0 ==> past.s.loop.pc.Waiting? && past.s.p.adoptedPid == 0 && past.s.p.cmd == Child(unreaped))
    }

    constructor (now: nat, used: set<Pid>, horizon: nat, timeout: Option<string>, dotted: string -> Option<int>)
      ensures Consistent() && past == Begun(Init(now, used))
      ensures this.horizon == horizon && unreaped == 0
    {
      this.now, this.live, this.used, this.cancelled := now, map[], used + {0}, false;
      this.unreaped, this.horizon, this.sent, this.timeout, this.dotted := 0, horizon, [], timeout, dotted;
      this.span, this.past, this.scans := horizon, Begun(Init(now, used)), [];
      KeptFromStart(Init(now, used));
    }

    /** Appends one step to the recorded run. */
    ghost method Record(a: Action)
      requires Kept(past) && Enabled(past.s, a)
      modifies `past
      ensures past == old(past).Step(a) && Kept(past)
    {
      KeptByStep(past, a);
      past := past.Step(a);
    }

    /** The others get a turn: only when the loop waits, or has just moved. */
    method BeginTurn()
      requires Consistent() && horizon > 0 && (LoopCanMove(past.s) ==> past.moved)
      modifies `horizon, `past
      ensures Consistent() && past == old(past).Turn() && horizon == old(horizon) - 1
    {
      KeptByTurn(past);
      horizon := horizon - 1;
      past := past.Turn();
    }

    /** Reads the process table; a scan may miss processes that live. */
    method Scan() returns (shown: set<Pid>)
      modifies `scans
      ensures shown <= live.Keys && scans == old(scans) + [Snapshot(now, shown)]
    {
      shown := *;
      shown := shown * live.Keys;
      scans := scans + [Snapshot(now, shown)];
    }

    /** A pooler under SIGUSR2 starts its successor. */
    method SpawnSuccessor(parent: Pid, child: Pid)
      requires Consistent() && parent in live && live[parent].usr2 && live[parent].successor !in live
      requires child != 0 && child !in used
      modifies `live, `used, `past
      ensures Consistent() && Beside(old(past), past)
      ensures past.s.p == old(past.s.p) && past.s.tally.upgrades == old(past.s.tally.upgrades)
    {
      live := live[parent := live[parent].(successor := child)][child := Pooler(false, 0)];
      used := used + {child};
      Record(Spawn(parent, child));
    }

    /** A pooler gives up its handover and the successor with it. */
    method AbortHandover(parent: Pid)
      requires Consistent() && parent in live && live[parent].usr2
      modifies `live, `past
      ensures Consistent() && Beside(old(past), past)
      ensures past.s.p == old(past.s.p) && past.s.tally.upgrades == old(past.s.tally.upgrades)
    {
      live := (live - {live[parent].successor})[parent := Pooler(false, 0)];
      Record(Abort(parent));
    }

    /** A pooler exits or is killed. */
    method PoolerDies(pid: Pid)
      requires Consistent() && pid in live
      modifies `live, `past
      ensures Consistent() && Beside(old(past), past)
      ensures past.s.p == old(past.s.p) && past.s.tally.upgrades == old(past.s.tally.upgrades)
    {
      live := live - {pid};
      Record(Die(pid));
    }

    /** Time passes, or the run is cancelled. */
    method TimePasses(elapsed: nat, cancel: bool)
      requires Consistent()
      modifies `now, `cancelled, `past
      ensures Consistent() && Beside(old(past), past)
      ensures old(now) <= now == old(now) + elapsed
      ensures cancelled == (old(cancelled) || cancel)
      ensures past.s.p == old(past.s.p) && past.s.tally.upgrades == old(past.s.tally.upgrades)
    {
      now := now + elapsed;
      Record(Tick(elapsed));
      if cancel {
        cancelled := true;
        Record(Cancel);
      }
    }

    /** One arbitrary move of the operating system or of pg_doorman. */
    method OsMoves()
      requires Consistent()
      modifies `now, `live, `used, `cancelled, `timeout, `past
      ensures Consistent() && Beside(old(past), past)
      ensures past.s.p == old(past.s.p) && past.s.tally.upgrades == old(past.s.tally.upgrades)
      ensures old(now) <= now && (old(cancelled) ==> cancelled)
    {
      var move: nat := *;
      var pid: Pid := *;
      if move == 0 && pid in live {
        PoolerDies(pid);
      } else if move == 1 && pid in live && live[pid].usr2 && live[pid].successor !in live {
        var child: Pid := *;
        if child != 0 && child !in used {
          SpawnSuccessor(pid, child);
        }
      } else if move == 2 && pid in live && live[pid].usr2 {
        AbortHandover(pid);
      } else if move == 3 {
        timeout := *;
      } else {
        var elapsed: nat := *;
        var cancel: bool := *;
        TimePasses(elapsed, cancel);
      }
    }

    /** Any number of such moves. */
    method OsMovesOn()
      requires Consistent()
      modifies `now, `live, `used, `cancelled, `timeout, `past
      ensures Consistent() && Beside(old(past), past)
      ensures past.s.p == old(past.s.p) && past.s.tally.upgrades == old(past.s.tally.upgrades)
      ensures old(now) <= now && (old(cancelled) ==> cancelled)
    {
      var moves: nat := *;
      while moves > 0
        invariant Consistent() && Beside(old(past), past)
        invariant past.s.p == old(past.s.p) && past.s.tally.upgrades == old(past.s.tally.upgrades)
        invariant old(now) <= now && (old(cancelled) ==> cancelled)
      {
        OsMoves();
        moves := moves - 1;
      }
    }
  }

  /** How one wait ended: the loop is over, a successor was adopted, or the pooler is lost. */
  datatype Ending = Ended | Adopted | Lost

  class Process {
    const world: World
    var cmd: Cmd
    var adoptedPid: Pid
    var upgradeRequested: bool
    var upgradeRequestedAt: nat

    ghost function View(): Proc
      reads this
    {
      Proc(cmd, adoptedPid, upgradeRequested, upgradeRequestedAt, false)
    }

    /** The recorded run ends in exactly this process and world, with the mutex free. */
    ghost predicate Valid()
      reads this, world
    {
      world.Consistent() && world.past.s.p == View()
    }

    constructor (world: World)
      requires world.Consistent() && world.past.s.p == Proc(NoCmd, 0, false, 0, false)
      ensures Valid() && this.world == world
    {
      this.world := world;
      this.cmd, this.adoptedPid, this.upgradeRequested, this.upgradeRequestedAt := NoCmd, 0, false, 0;
    }

    method Pid() returns (pid: Pid)
      ensures pid == PidOf(View())
    {
      if adoptedPid != 0 {
        return adoptedPid;
      }
      if cmd.Child? {
        return cmd.pid;
      }
      return 0;
    }

    /** There is a supervised process that kill(2) finds: alive, or dead and not yet reaped. */
    ghost predicate Reachable()
      reads this, world
    {
      PidOf(View()) != 0 && (PidOf(View()) in world.live || PidOf(View()) == world.unreaped)
    }

    /** kill(2) on the supervised pid, except that SIGUSR2 is sent by Upgrade.  Sending to
        a dead child fails once it is reaped. */
    method SignalSupervised(signal: Signal) returns (ok: bool)
      requires Valid()
      modifies world`sent
      ensures Valid()
      ensures ok <==> Reachable()
      ensures world.sent == old(world.sent) + (if ok then [(PidOf(View()), signal)] else [])
    {
      var pid := Pid();
      ok := pid != 0 && (pid in world.live || pid == world.unreaped);
      if ok {
        world.sent := world.sent + [(pid, signal)];
      }
    }

    method Restart() returns (ok: bool)
      requires Valid()
      modifies world`sent
      ensures Valid() && (ok <==> Reachable())
      ensures world.sent == old(world.sent) + (if ok then [(PidOf(View()), SIGTERM)] else [])
    {
      ok := SignalSupervised(SIGTERM);
    }

    method Reload() returns (ok: bool)
      requires Valid()
      modifies world`sent
      ensures Valid() && (ok <==> Reachable())
      ensures world.sent == old(world.sent) + (if ok then [(PidOf(View()), SIGHUP)] else [])
    {
      ok := SignalSupervised(SIGHUP);
    }

    /** Sends a signal meant for an adopted process: dropped when another one took its place.
        The check and the kill are two steps, and the process may die between them. */
    method KillAdopted(pid: Pid, signal: Signal)
      requires Valid()
      modifies world`now, world`live, world`used, world`cancelled, world`timeout, world`past, world`sent
      ensures Valid() && Beside(old(world.past), world.past)
      ensures old(world.now) <= world.now && (old(world.cancelled) ==> world.cancelled)
      ensures world.sent == old(world.sent) +
        (if adoptedPid == pid && pid in world.live then [(pid, signal)] else [])
    {
      if adoptedPid != pid {
        return;
      }
      world.OsMovesOn();
      if pid in world.live {
        world.sent := world.sent + [(pid, signal)];
      }
    }

    /** On cancellation the adopted pooler gets SIGTERM; the returned pid is the one the
        delayed SIGKILL is armed for. */
    method TerminateIfAdopted() returns (armed: Pid)
      requires Valid()
      modifies world`now, world`live, world`used, world`cancelled, world`timeout, world`past, world`sent
      ensures Valid() && Beside(old(world.past), world.past)
      ensures armed == adoptedPid
      ensures old(world.now) <= world.now && (old(world.cancelled) ==> world.cancelled)
      ensures world.sent == old(world.sent) +
        (if adoptedPid != 0 && adoptedPid in world.live then [(adoptedPid, SIGTERM)] else [])
    {
      armed := adoptedPid;
      if armed == 0 {
        return;
      }
      KillAdopted(armed, SIGTERM);
    }

    /** The delayed SIGKILL: it reaches the process it was armed for only while that is still
        the supervised one, and never any other. */
    method DrainExpires(armed: Pid)
      requires Valid() && armed != 0
      modifies world`now, world`live, world`used, world`cancelled, world`timeout, world`past, world`sent
      ensures Valid() && Beside(old(world.past), world.past)
      ensures old(world.now) <= world.now && (old(world.cancelled) ==> world.cancelled)
      ensures world.sent == old(world.sent) +
        (if adoptedPid == armed && armed in world.live then [(armed, SIGKILL)] else [])
    {
      KillAdopted(armed, SIGKILL);
    }

    /** The first half of Upgrade: delivers SIGUSR2 to a live pooler, or to a dead child
        nobody reaped yet. */
    method SendUpgradeSignal() returns (ok: bool)
      requires Valid()
      modifies world`live, world`past, world`sent
      ensures world.Consistent() && world.past.s.loop == old(world.past.s.loop) && world.past.s.tally == old(world.past.s.tally)
      ensures ok <==> old(Reachable())
      ensures world.sent == old(world.sent) + (if ok then [(PidOf(View()), SIGUSR2)] else [])
      ensures world.past.s.p == View().(locked := ok)
      ensures old(world.past.run) <= world.past.run && world.past.turns == old(world.past.turns)
      ensures world.past.moved == old(world.past.moved) && world.past.origin == old(world.past.origin)
      ensures !old(world.past.s.loop.pc.LoopTop?) ==> world.past.orderly == old(world.past.orderly)
      ensures !ok ==> world.past.run == old(world.past.run) && world.live == old(world.live)
    {
      var pid := Pid();
      ok := pid != 0 && (pid in world.live || pid == world.unreaped);
      if ok {
        world.sent := world.sent + [(pid, SIGUSR2)];
        if pid in world.live {
          world.live := world.live[pid := world.live[pid].(usr2 := true)];
        }
        world.Record(UpgradeSignal);
      }
    }

    /** Sends SIGUSR2 and raises the flag inside one critical section; fails, and changes
        nothing, exactly when there is no process to reach.  The operating system moves on in
        between: the signalled pooler may already be gone. */
    method Upgrade() returns (ok: bool)
      requires Valid()
      modifies `upgradeRequested, `upgradeRequestedAt
      modifies world`now, world`live, world`used, world`cancelled, world`timeout, world`past, world`sent
      ensures Valid() && Beside(old(world.past), world.past)
      ensures old(world.now) <= world.now && (old(world.cancelled) ==> world.cancelled)
      ensures ok <==> old(Reachable())
      ensures ok ==> View() == old(View()).(upgradeRequested := true, upgradeRequestedAt := world.now)
      ensures world.sent == old(world.sent) + (if ok then [(PidOf(View()), SIGUSR2)] else [])
      ensures world.past.s.tally.upgrades == old(world.past.s.tally.upgrades) + Count(ok)
      ensures !ok ==> View() == old(View()) && world.past.run == old(world.past.run) && world.live == old(world.live)
    {
      ok := SendUpgradeSignal();
      if !ok {
        return;
      }
      world.OsMovesOn();
      upgradeRequested, upgradeRequestedAt := true, world.now;
      world.Record(UpgradeFlag);
    }

    /** The binary watcher's way to an upgrade, the only one: none while a handover is still
        expected; downloading and testing take their time in between.  Otherwise it fails only
        when there is no process to reach. */
    method UpgradeUnlessInFlight() returns (ok: bool)
      requires Valid()
      modifies `upgradeRequested, `upgradeRequestedAt
      modifies world`now, world`live, world`used, world`cancelled, world`timeout, world`past, world`sent
      ensures Valid() && Beside(old(world.past), world.past)
      ensures old(world.now) <= world.now && (old(world.cancelled) ==> world.cancelled)
      ensures ok ==> View() == old(View()).(upgradeRequested := true, upgradeRequestedAt := world.now)
      ensures !ok ==> View() == old(View())
      ensures old(Fresh(View(), world.now, Granted())) ==> !ok
      ensures !ok ==> old(Fresh(View(), world.now, Granted())) || !Reachable()
      ensures world.sent == old(world.sent) + (if ok then [(PidOf(View()), SIGUSR2)] else [])
      ensures world.past.s.tally.upgrades == old(world.past.s.tally.upgrades) + Count(ok)
    {
      var inFlight := UpgradeInFlight();
      if inFlight {
        return false;
      }
      world.OsMovesOn();
      ok := Upgrade();
    }

    /** Anything the operating system and the watchers do while the loop is blocked or
        between two of its steps.  They get a turn only when the loop waits or just moved. */
    method OthersRun()
      requires Valid() && world.horizon > 0 && (LoopCanMove(world.past.s) ==> world.past.moved)
      modifies `upgradeRequested, `upgradeRequestedAt
      modifies world`now, world`live, world`used, world`cancelled, world`timeout, world`past, world`sent, world`horizon
      ensures Valid() && Beside(old(world.past).Turn(), world.past)
      ensures world.past.s.p.cmd == old(world.past.s.p.cmd) && world.past.s.p.adoptedPid == old(world.past.s.p.adoptedPid)
      ensures world.horizon == old(world.horizon) - 1
      ensures old(world.now) <= world.now && (old(world.cancelled) ==> world.cancelled)
      ensures old(world.sent) <= world.sent
    {
      world.BeginTurn();
      var calls: nat := *;
      while calls > 0
        invariant Valid() && Beside(old(world.past).Turn(), world.past)
        invariant world.past.s.p.cmd == old(world.past.s.p.cmd) && world.past.s.p.adoptedPid == old(world.past.s.p.adoptedPid)
        invariant world.horizon == old(world.horizon) - 1
        invariant old(world.now) <= world.now && (old(world.cancelled) ==> world.cancelled)
        invariant old(world.sent) <= world.sent
      {
        world.OsMovesOn();
        var _ := UpgradeUnlessInFlight();
        calls := calls - 1;
      }
      world.OsMovesOn();
    }

    /** Forks and executes pg_doorman; `forked` is the pid the kernel gives, 0 when the fork or
        the exec fails, which leaves no process behind. */
    method Start(forked: Pid) returns (ok: bool)
      requires Valid() && world.past.s.loop.pc.Starting? && world.unreaped == 0 && (forked == 0 || forked !in world.used)
      modifies `cmd, `adoptedPid, world`live, world`used, world`unreaped, world`past
      ensures Valid() && (ok <==> forked != 0)
      ensures world.past == old(world.past).Step(if ok then StartOk(forked) else StartFail)
      ensures ok ==> world.past.s.loop == old(world.past.s.loop).(pc := Waiting, pid := forked) && PidOf(View()) == forked
      ensures ok ==> world.live == old(world.live)[forked := Pooler(false, 0)]
      ensures !ok ==> world.past.s.loop == old(world.past.s.loop).(
          pc := if world.cancelled then Done else Retrying(world.now + old(world.past.s.loop.backoff)))
      ensures !ok ==> world.unreaped == 0 && PidOf(View()) == 0 && world.live == old(world.live)
    {
      adoptedPid := 0;
      ok := forked != 0;
      if !ok {
        cmd := FailedCmd;
        world.Record(StartFail);
        return;
      }
      cmd := Child(forked);
      world.live := world.live[forked := Pooler(false, 0)];
      world.used := world.used + {forked};
      world.unreaped := forked;
      world.Record(StartOk(forked));
    }

    /** Waits until the process is gone or the run is cancelled; false when the run is no longer
        followed. */
    method WaitPid(pid: Pid) returns (over: bool)
      requires Valid() && world.past.s.loop.pc.Waiting? && pid == PidOf(View())
      modifies `upgradeRequested, `upgradeRequestedAt
      modifies world`now, world`live, world`used, world`cancelled, world`timeout, world`past, world`sent, world`horizon
      ensures Valid() && world.horizon <= old(world.horizon) && old(world.sent) <= world.sent
      ensures Along(old(world.past), world.past) && world.past.s.loop == old(world.past.s.loop)
      ensures over <==> pid !in world.live || world.cancelled
      ensures !over ==> world.horizon == 0
    {
      while pid in world.live && !world.cancelled && world.horizon > 0
        invariant Valid() && world.past.s.loop == old(world.past.s.loop) && PidOf(View()) == pid
        invariant world.horizon <= old(world.horizon) && old(world.sent) <= world.sent
        invariant Along(old(world.past), world.past)
        decreases world.horizon
      {
        OthersRun();
      }
      over := pid !in world.live || world.cancelled;
    }

    /** Waits until the supervised process is gone, then forgets an adopted pid.  An adopted
        pooler gets SIGTERM when the run is cancelled.  Returns false when the run is no longer
        followed. */
    method WaitCtx() returns (returned: bool)
      requires Valid() && world.past.s.loop.pc.Waiting?
      modifies `adoptedPid, `upgradeRequested, `upgradeRequestedAt
      modifies world`now, world`live, world`used, world`cancelled, world`timeout, world`past, world`unreaped
      modifies world`sent, world`horizon
      ensures Valid() && world.horizon <= old(world.horizon) && Along(old(world.past), world.past)
      ensures returned ==>
        && world.unreaped == 0 && adoptedPid == 0 && world.past.moved
        && (world.cancelled || PidOf(old(View())) !in world.live)
        && world.past.s.loop == old(world.past.s.loop).(pc := if world.cancelled then Done else Exited)
      ensures returned && world.cancelled && old(adoptedPid) != 0 && old(adoptedPid) in world.live ==>
        |old(world.sent)| < |world.sent| && world.sent[|world.sent| - 1] == (old(adoptedPid), SIGTERM)
      ensures !returned ==> world.horizon == 0
    {
      var pid := Pid();
      returned := WaitPid(pid);
      if !returned {
        return;
      }
      if world.cancelled {
        var _ := TerminateIfAdopted();
      }
      adoptedPid := 0;
      world.unreaped := 0;
      world.Record(WaitReturn);
    }

    /** The wait pg_doorman is granted, read from the runtime config at every call. */
    function Granted(): int
      reads world
    {
      Duration.WaitDelay(world.timeout, world.dotted)
    }

    method ConsumeUpgradeRequest() returns (explains: bool)
      requires Valid() && world.past.s.loop.pc.Exited?
      modifies `upgradeRequested, world`past
      ensures Valid() && !upgradeRequested
      ensures world.past == old(world.past).Step(Consume(Granted()))
      ensures explains == Fresh(old(View()), world.now, Granted())
      ensures world.past.s.loop == old(world.past.s.loop).(
          pc := if explains then Searching(world.now + SUCCESSOR_SEARCH_TIMEOUT) else Accounting)
    {
      var waitDelay := Granted();
      explains := upgradeRequested && world.now - upgradeRequestedAt <= Int64(waitDelay + SUCCESSOR_SEARCH_TIMEOUT);
      upgradeRequested := false;
      world.Record(Consume(waitDelay));
    }

    /** Whether a handover is still expected; it asks without consuming the request. */
    method UpgradeInFlight() returns (inFlight: bool)
      requires Valid()
      ensures inFlight == Fresh(View(), world.now, Granted())
    {
      inFlight := upgradeRequested && world.now - upgradeRequestedAt <= Int64(Granted() + SUCCESSOR_SEARCH_TIMEOUT);
    }

    /** A scan recorded from step `since` on found this process alive. */
    ghost predicate FoundSince(since: nat, pid: Pid)
      reads world
    {
      exists i :: since <= i < |world.past.run| && world.past.run[i] == ScanFound(pid)
    }

    /** The scans from this one on showed nothing but the old process. */
    ghost predicate NothingShown(from: nat, to: nat, oldPid: Pid)
      reads world
    {
      from <= to <= |world.scans| && forall i | from <= i < to :: world.scans[i].shown <= {oldPid}
    }

    /** Supervises the process a scan found; the scan itself holds no lock. */
    method TakeOver(pid: Pid)
      requires Valid() && world.past.s.loop.pc.Searching? && world.horizon > 0 && world.unreaped == 0
      requires pid in world.live && pid != world.past.s.loop.pid
      modifies `cmd, `adoptedPid, `upgradeRequested, `upgradeRequestedAt
      modifies world`now, world`live, world`used, world`cancelled, world`timeout, world`past, world`sent, world`horizon
      ensures Valid() && world.past.moved && world.unreaped == 0
      ensures world.horizon == old(world.horizon) - 1 && |world.past.turns| == |old(world.past.turns)| + 1
      ensures adoptedPid == pid && cmd == NoCmd && FoundSince(|old(world.past.run)|, pid)
      ensures Along(old(world.past), world.past)
      ensures world.past.s.loop == old(world.past.s.loop).(pc := Waiting, pid := pid, startedAt := world.now)
    {
      ghost var at := |world.past.run|;
      world.Record(ScanFound(pid));
      OthersRun();
      cmd, adoptedPid := NoCmd, pid;
      world.Record(Adopt);
      assert world.past.run[at] == ScanFound(pid);
    }

    /** Scans for the successor, once before every wait, until the deadline or cancellation; a
        scan may miss it.  What is adopted was found alive by a recorded scan, the first that
        showed anything but the old process; a search that fails has passed its deadline or was
        cancelled, and its last scan, at that very time, still showed nothing. */
    method AdoptSuccessor(oldPid: Pid) returns (adopted: bool)
      requires Valid() && oldPid == world.past.s.loop.pid && world.unreaped == 0 && world.past.moved
      requires world.past.s.loop.pc == Searching(world.now + SUCCESSOR_SEARCH_TIMEOUT)
      modifies `cmd, `adoptedPid, `upgradeRequested, `upgradeRequestedAt
      modifies world`now, world`live, world`used, world`cancelled, world`timeout, world`past, world`sent
      modifies world`horizon, world`scans
      ensures Valid() && world.horizon <= old(world.horizon) && world.unreaped == 0
      ensures Along(old(world.past), world.past)
      ensures old(world.scans) <= world.scans
      ensures adopted ==>
        && adoptedPid != oldPid && cmd == NoCmd && FoundSince(|old(world.past.run)|, adoptedPid) && world.past.moved
        && world.past.s.loop == old(world.past.s.loop).(pc := Waiting, pid := adoptedPid, startedAt := world.now)
      ensures adopted ==>
        && |old(world.scans)| < |world.scans| && adoptedPid in world.scans[|world.scans| - 1].shown
        && NothingShown(|old(world.scans)|, |world.scans| - 1, oldPid)
      ensures !adopted ==> world.horizon == 0 || world.past.s.loop == old(world.past.s.loop).(pc := Sweeping)
      ensures !adopted && world.horizon > 0 ==>
        && (world.cancelled || old(world.now) + SUCCESSOR_SEARCH_TIMEOUT < world.now) && world.past.moved
        && |world.scans| - |old(world.scans)| == |world.past.turns| - |old(world.past.turns)| + 1
        && NothingShown(|old(world.scans)|, |world.scans|, oldPid) && world.scans[|world.scans| - 1].at == world.now
    {
      var deadline := world.now + SUCCESSOR_SEARCH_TIMEOUT;
      while world.horizon > 0
        invariant Valid() && world.past.s.loop == old(world.past.s.loop) && world.unreaped == 0
        invariant world.horizon <= old(world.horizon)
        invariant Along(old(world.past), world.past)
        invariant old(world.scans) <= world.scans && NothingShown(|old(world.scans)|, |world.scans|, oldPid)
        invariant |world.scans| - |old(world.scans)| == |world.past.turns| - |old(world.past.turns)|
        decreases world.horizon
      {
        var shown := world.Scan();
        if pid :| pid in shown && pid != oldPid {
          TakeOver(pid);
          return true;
        }
        if world.now > deadline || world.cancelled {
          world.Record(SearchFail);
          return false;
        }
        OthersRun();
      }
      adopted := false;
    }

    /** Kills the poolers the scan shows; a scan that shows them all leaves none. */
    method SweepStrays()
      requires Valid() && world.past.s.loop.pc.Sweeping?
      modifies world`live, world`past, world`scans
      ensures Valid() && world.past.s.loop == old(world.past.s.loop).(pc := Accounting)
      ensures |world.scans| == |old(world.scans)| + 1 && old(world.scans) <= world.scans
      ensures world.past == old(world.past).Step(Sweep(world.scans[|world.scans| - 1].shown))
      ensures world.live == old(world.live) - world.scans[|world.scans| - 1].shown
      ensures old(world.live).Keys <= world.scans[|world.scans| - 1].shown ==> world.live == map[]
    {
      var shown := world.Scan();
      world.live := world.live - shown;
      world.Record(Sweep(shown));
    }

    /** Sleeps until `until`; false when cancelled first or no longer followed. */
    method SleepUntil(until: nat) returns (elapsed: bool)
      requires Valid() && world.past.moved
      requires world.past.s.loop.pc == Retrying(until) || world.past.s.loop.pc == BackingOff(until)
      modifies `upgradeRequested, `upgradeRequestedAt
      modifies world`now, world`live, world`used, world`cancelled, world`timeout, world`past, world`sent, world`horizon
      ensures Valid() && world.past.s.loop == old(world.past.s.loop)
      ensures Along(old(world.past), world.past)
      ensures world.horizon <= old(world.horizon)
      ensures elapsed ==> until <= world.now && world.horizon < old(world.horizon)
      ensures !elapsed ==> world.cancelled || world.horizon == 0
    {
      if world.horizon == 0 {
        return false;
      }
      OthersRun();
      while world.now < until && !world.cancelled && world.horizon > 0
        invariant Valid() && world.past.s.loop == old(world.past.s.loop) && world.horizon < old(world.horizon)
        invariant Along(old(world.past), world.past)
        decreases world.horizon
      {
        OthersRun();
      }
      elapsed := until <= world.now;
    }

    /** Runs pg_doorman and restarts it; stops on cancellation.  Every lap tries to start a
        pooler, a backoff that is over is followed by the next lap at once, and the loop never
        lets the others have two turns in a row while it could move. */
    method RunWithRestart()
      requires Valid() && world.unreaped == 0 && exists now, used :: world.past == Begun(Init(now, used))
      modifies `cmd, `adoptedPid, `upgradeRequested, `upgradeRequestedAt
      modifies world`now, world`live, world`used, world`cancelled, world`timeout, world`past, world`unreaped
      modifies world`sent, world`horizon, world`scans
      ensures Valid()
      ensures world.cancelled || world.horizon == 0
      ensures 0 < old(world.horizon) ==> world.past.run != []
      ensures LapsRecorded(world.past.run)
      ensures Prompt(world.past.origin, world.past.run, world.past.turns)
      ensures |world.past.turns| + world.horizon == old(world.horizon)
      ensures world.past.origin == old(world.past.origin) && IsRun(world.past.origin, world.past.run)
      ensures AllTimely(world.past.origin, world.past.run) ==> StartsAlone(world.past.origin, world.past.run)
    {
      var backoff := INITIAL_BACKOFF;
      while world.horizon > 0
        invariant Valid() && world.past.origin == old(world.past.origin) && world.past.orderly
        invariant world.horizon <= old(world.horizon) && (world.horizon < old(world.horizon) ==> world.past.run != [])
        invariant world.unreaped == 0 && world.past.s.loop.pc.LoopTop? && world.past.s.loop.backoff == backoff
        decreases world.horizon
      {
        var elapsed;
        backoff, elapsed := Lap(backoff);
        if !elapsed {
          break;
        }
      }
      Open(world.past);
      LapsAreRecorded(world.past.origin, world.past.run);
      TimelyRunsStartAlone(world.past.origin, world.past.run);
    }

    /** One lap of the loop: a start, and the wait for the next lap that its outcome earns. */
    method Lap(previous: nat) returns (backoff: nat, elapsed: bool)
      requires Valid() && world.unreaped == 0 && world.horizon > 0
      requires world.past.s.loop.pc.LoopTop? && world.past.s.loop.backoff == previous
      modifies `cmd, `adoptedPid, `upgradeRequested, `upgradeRequestedAt
      modifies world`now, world`live, world`used, world`cancelled, world`timeout, world`past, world`unreaped
      modifies world`sent, world`horizon, world`scans
      ensures Valid() && world.horizon < old(world.horizon) && world.past.run != []
      ensures Along(old(world.past), world.past)
      ensures elapsed ==> world.unreaped == 0 && world.past.s.loop.pc.LoopTop? && world.past.s.loop.backoff == backoff
      ensures !elapsed ==> world.cancelled || world.horizon == 0
    {
      var startedAt := world.now;
      world.Record(EnterLoop);
      OthersRun();
      var forked: Pid := *;
      if forked in world.used {
        forked := 0;
      }
      var ok := Start(forked);
      if ok {
        backoff, elapsed := Supervise(startedAt, previous);
      } else if world.cancelled {
        backoff, elapsed := previous, false;
      } else {
        backoff, elapsed := RetryLater(previous);
      }
    }

    /** After a failed start, waits out the backoff and only then doubles it. */
    method RetryLater(previous: nat) returns (backoff: nat, elapsed: bool)
      requires Valid() && world.unreaped == 0 && world.past.moved
      requires world.past.s.loop.pc == Retrying(world.now + previous) && world.past.s.loop.backoff == previous
      modifies `upgradeRequested, `upgradeRequestedAt
      modifies world`now, world`live, world`used, world`cancelled, world`timeout, world`past, world`sent, world`horizon
      ensures Valid() && Along(old(world.past), world.past)
      ensures world.horizon <= old(world.horizon) && (elapsed ==> world.horizon < old(world.horizon) && world.unreaped == 0)
      ensures elapsed ==> old(world.now) + previous <= world.now && backoff == Doubled(previous)
      ensures elapsed ==> world.past.s.loop.pc.LoopTop? && world.past.s.loop.backoff == backoff
      ensures !elapsed ==> world.cancelled || world.horizon == 0
    {
      backoff := previous;
      elapsed := SleepUntil(world.now + backoff);
      if elapsed {
        backoff := Doubled(backoff);
        world.Record(RetryElapsed);
      }
    }

    /** Tells a handover, whose successor it adopts and sends SIGHUP, from a real exit, after
        which only the restart is left. */
    method TellExit(pid: Pid) returns (ending: Ending)
      requires Valid() && world.past.s.loop.pc.Exited? && pid == world.past.s.loop.pid && world.unreaped == 0
      modifies `cmd, `adoptedPid, `upgradeRequested, `upgradeRequestedAt
      modifies world`now, world`live, world`used, world`cancelled, world`timeout, world`past, world`sent
      modifies world`horizon, world`scans
      ensures Valid() && world.horizon <= old(world.horizon) && world.unreaped == 0
      ensures Along(old(world.past), world.past) && (!ending.Ended? ==> world.past.moved)
      ensures ending.Ended? ==> world.horizon == 0
      ensures ending.Adopted? ==>
        world.past.s.loop == old(world.past.s.loop).(pc := Waiting, pid := PidOf(View()), startedAt := world.now)
      ensures ending.Adopted? && Reachable() ==>
        world.sent != [] && world.sent[|world.sent| - 1] == (adoptedPid, SIGHUP)
      ensures ending.Adopted? ==> adoptedPid != pid && FoundSince(|old(world.past.run)|, adoptedPid)
      ensures ending.Lost? ==> world.past.s.loop == old(world.past.s.loop).(pc := Accounting)
    {
      var handover := ConsumeUpgradeRequest();
      if !handover {
        return Lost;
      }
      var adopted := AdoptSuccessor(pid);
      if adopted {
        var _ := Reload();
        return Adopted;
      }
      if world.horizon == 0 {
        return Ended;
      }
      SweepStrays();
      return Lost;
    }

    /** Waits for the supervised exit and tells what it was. */
    method AwaitExit(pid: Pid) returns (ending: Ending)
      requires Valid() && world.past.s.loop.pc.Waiting? && pid == world.past.s.loop.pid && world.past.moved
      modifies `cmd, `adoptedPid, `upgradeRequested, `upgradeRequestedAt
      modifies world`now, world`live, world`used, world`cancelled, world`timeout, world`past, world`unreaped
      modifies world`sent, world`horizon, world`scans
      ensures Valid() && world.horizon <= old(world.horizon) && Along(old(world.past), world.past)
      ensures !ending.Ended? ==> world.horizon < old(world.horizon) && world.unreaped == 0 && world.past.moved
      ensures ending.Ended? ==> world.cancelled || world.horizon == 0
      ensures ending.Adopted? ==>
        world.past.s.loop == old(world.past.s.loop).(pc := Waiting, pid := PidOf(View()), startedAt := world.now)
      ensures ending.Adopted? && Reachable() ==>
        world.sent != [] && world.sent[|world.sent| - 1] == (adoptedPid, SIGHUP)
      ensures ending.Lost? ==> world.past.s.loop == old(world.past.s.loop).(pc := Accounting)
    {
      var returned := WaitCtx();
      if !returned || world.cancelled || world.horizon == 0 {
        return Ended;
      }
      OthersRun();
      ending := TellExit(pid);
    }

    /** Counts the restart and waits out the backoff it earned. */
    method BackOff(startedAt: nat, previous: nat) returns (backoff: nat, elapsed: bool)
      requires Valid() && world.unreaped == 0 && world.past.s.loop.pc.Accounting?
      requires world.past.s.loop.startedAt == startedAt && world.past.s.loop.backoff == previous
      modifies `upgradeRequested, `upgradeRequestedAt
      modifies world`now, world`live, world`used, world`cancelled, world`timeout, world`past, world`sent, world`horizon
      ensures Valid() && Along(old(world.past), world.past)
      ensures world.horizon <= old(world.horizon) && (elapsed ==> world.horizon < old(world.horizon) && world.unreaped == 0)
      ensures backoff == BackoffAfterExit(previous, old(world.now) - startedAt)
      ensures elapsed ==> old(world.now) + backoff <= world.now
      ensures elapsed ==> world.past.s.loop.pc.LoopTop? && world.past.s.loop.backoff == backoff
      ensures !elapsed ==> world.cancelled || world.horizon == 0
    {
      backoff := BackoffAfterExit(previous, world.now - startedAt);
      world.Record(Account);
      elapsed := SleepUntil(world.now + backoff);
      if elapsed {
        world.Record(BackoffElapsed);
      }
    }

    /** Follows a chain of handovers to its end and waits out the backoff that is due; false
        when the loop ends. */
    method Supervise(started: nat, previous: nat) returns (backoff: nat, again: bool)
      requires Valid() && world.past.s.loop == Loop(Waiting, PidOf(View()), started, previous) && world.past.moved
      modifies `cmd, `adoptedPid, `upgradeRequested, `upgradeRequestedAt
      modifies world`now, world`live, world`used, world`cancelled, world`timeout, world`past, world`unreaped
      modifies world`sent, world`horizon, world`scans
      ensures Valid() && Along(old(world.past), world.past)
      ensures world.horizon <= old(world.horizon)
      ensures again ==> world.unreaped == 0
      ensures again ==> world.past.s.loop.pc.LoopTop? && world.past.s.loop.backoff == backoff
      ensures !again ==> world.cancelled || world.horizon == 0
    {
      var startedAt := started;
      var pid := Pid();
      while true
        invariant Valid() && world.horizon <= old(world.horizon) && world.past.moved
        invariant Along(old(world.past), world.past)
        invariant world.past.s.loop == Loop(Waiting, pid, startedAt, previous) && pid == PidOf(View())
        decreases world.horizon
      {
        var ending := AwaitExit(pid);
        match ending {
          case Ended =>
            return previous, false;
          case Adopted =>
            startedAt := world.now;
            pid := Pid();
          case Lost =>
            backoff, again := BackOff(startedAt, previous);
            return;
        }
      }
    }
  }
}
