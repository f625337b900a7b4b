/** What it means that the supervisor's loop keeps going: it never idles while it could
    move, and every lap begins with an attempt to start a pooler. */
module Progress {
  import opened Supervisor

  /** A step of RunWithRestart itself. */
  predicate IsLoopStep(a: Action) { !IsOsStep(a) && !a.UpgradeSignal? && !a.UpgradeFlag? }

  /** The loop has something to do: it waits for nothing, or what it waits for has happened. */
  predicate LoopCanMove(s: Sys) {
    match s.loop.pc
    case Retrying(until) => until <= s.os.now || s.os.cancelled
    case BackingOff(until) => until <= s.os.now || s.os.cancelled
    case Waiting => PidOf(s.p) !in s.os.live || s.os.cancelled
    case Searching(deadline) => deadline < s.os.now || s.os.cancelled
    case Done => false
    case _ => true
  }

  ghost predicate SuccessorInSight(s: Sys) {
    s.loop.pc.Searching? && exists pid :: pid in s.os.live && pid != s.loop.pid
  }

  /** Outside of Upgrade's critical section a step of the loop is enabled exactly then, or when
      a search could find a successor. */
  lemma LoopCanMoveExactly(s: Sys)
    requires !s.p.locked
    ensures (exists a :: IsLoopStep(a) && Enabled(s, a)) <==> LoopCanMove(s) || SuccessorInSight(s)
  {
    if SuccessorInSight(s) {
      var pid :| pid in s.os.live && pid != s.loop.pid;
      assert IsLoopStep(ScanFound(pid)) && Enabled(s, ScanFound(pid));
    } else if LoopCanMove(s) {
      var a := match s.loop.pc
        case LoopTop => EnterLoop
        case Starting => StartFail
        case Retrying(_) => if s.os.cancelled then Stop else RetryElapsed
        case Waiting => WaitReturn
        case Exited => Consume(0)
        case Searching(_) => SearchFail
        case Adopting(_) => Adopt
        case Sweeping => Sweep({})
        case Accounting => Account
        case _ => if s.os.cancelled then Stop else BackoffElapsed;
      assert IsLoopStep(a) && Enabled(s, a);
    }
  }

  // -------------------------------------------------------------------- no idling

  ghost predicate Moved(run: seq<Action>, since: nat) {
    exists i | since <= i < |run| :: IsLoopStep(run[i])
  }

  function LastTurn(turns: seq<nat>): nat {
    if turns == [] then 0 else turns[|turns| - 1]
  }

  /** The others took their turns where `turns` says.  At every turn at which the loop could
      move, it had moved since the turn before. */
  ghost predicate Prompt(origin: Sys, run: seq<Action>, turns: seq<nat>)
    decreases |turns|
  {
    turns != [] ==>
      var before, at := turns[..|turns| - 1], turns[|turns| - 1];
      && at <= |run|
      && LastTurn(before) <= at
      && Prompt(origin, run[..at], before)
      && (LoopCanMove(Exec(origin, run[..at])) ==> Moved(run[..at], LastTurn(before)))
  }

  lemma PromptGrows(origin: Sys, run: seq<Action>, a: Action, turns: seq<nat>)
    requires Prompt(origin, run, turns)
    ensures Prompt(origin, run + [a], turns)
  {
    if turns != [] {
      assert (run + [a])[..turns[|turns| - 1]] == run[..turns[|turns| - 1]];
    }
  }

  lemma PromptTurn(origin: Sys, run: seq<Action>, turns: seq<nat>)
    requires Prompt(origin, run, turns) && LastTurn(turns) <= |run|
    requires LoopCanMove(Exec(origin, run)) ==> Moved(run, LastTurn(turns))
    ensures Prompt(origin, run, turns + [|run|])
  {
    assert (turns + [|run|])[..|turns|] == turns && run[..|run|] == run;
  }

  /** Read turn by turn: of two successive turns at the second of which the loop could move, a
      step of the loop lies between them. */
  lemma {:induction false} PromptAt(origin: Sys, run: seq<Action>, turns: seq<nat>, k: nat)
    requires Prompt(origin, run, turns) && k < |turns|
    ensures turns[k] <= |run| && (0 < k ==> turns[k - 1] <= turns[k])
    ensures LoopCanMove(Exec(origin, run[..turns[k]])) ==>
      exists i | (if k == 0 then 0 else turns[k - 1]) <= i < turns[k] :: IsLoopStep(run[i])
    decreases |turns|
  {
    var n := |turns| - 1;
    var at := turns[n];
    if k < n {
      PromptAt(origin, run[..at], turns[..n], k);
      assert run[..at][..turns[k]] == run[..turns[k]];
    }
  }

  // --------------------------------------------------------------- starting again

  predicate IsElapsed(a: Action) { a.RetryElapsed? || a.BackoffElapsed? }

  predicate IsStart(a: Action) { a.StartOk? || a.StartFail? }

  /** Nothing happens between the head of the loop and the lap that begins there. */
  ghost predicate HeadsLeft(origin: Sys, run: seq<Action>) {
    run != [] ==>
      var before := run[..|run| - 1];
      HeadsLeft(origin, before) && (Exec(origin, before).loop.pc.LoopTop? ==> run[|run| - 1].EnterLoop?)
  }

  ghost predicate StartFollows(run: seq<Action>, i: nat) {
    exists j | i < j < |run| :: IsStart(run[j]) && forall k | i < k < j :: !IsLoopStep(run[k])
  }

  /** The run begins with a lap, a backoff that is over is followed at once by the next lap, and
      every lap tries to start a pooler before it does anything else. */
  ghost predicate LapsRecorded(run: seq<Action>) {
    && (run != [] ==> run[0].EnterLoop?)
    && (forall i | 0 <= i && i + 1 < |run| && IsElapsed(run[i]) :: run[i + 1].EnterLoop?)
    && (forall i | 0 <= i < |run| && run[i].EnterLoop? :: StartFollows(run, i))
  }

  /** The last lap of this run has not tried to start a pooler yet. */
  ghost predicate StartPending(run: seq<Action>, i: nat) {
    i < |run| && run[i].EnterLoop? && forall k | i < k < |run| :: !IsLoopStep(run[k])
  }

  /** The same for a run that may still be in the middle of a lap. */
  ghost predicate LapsSoFar(pc: Pc, run: seq<Action>) {
    && (run == [] ==> pc.LoopTop?)
    && (run != [] ==> run[0].EnterLoop? && (IsElapsed(run[|run| - 1]) ==> pc.LoopTop?))
    && (forall i | 0 <= i && i + 1 < |run| && IsElapsed(run[i]) :: run[i + 1].EnterLoop?)
    && (forall i | 0 <= i < |run| && run[i].EnterLoop? :: StartFollows(run, i) || (StartPending(run, i) && pc.Starting?))
  }

  lemma LapsGrow(s: Sys, run: seq<Action>, a: Action)
    requires LapsSoFar(s.loop.pc, run) && Enabled(s, a) && (s.loop.pc.LoopTop? ==> a.EnterLoop?)
    ensures LapsSoFar(Apply(s, a).loop.pc, run + [a])
  {
    var more := run + [a];
    assert more[|run|] == a && forall i | 0 <= i < |run| :: more[i] == run[i];
    var pc := Apply(s, a).loop.pc;
    assert a.EnterLoop? ==> pc.Starting?;
    assert IsElapsed(a) ==> pc.LoopTop?;
    forall i | 0 <= i < |more| && more[i].EnterLoop?
      ensures StartFollows(more, i) || (StartPending(more, i) && pc.Starting?)
    {
      if i < |run| {
        StartGrows(s, run, a, i);
      }
    }
  }

  lemma StartGrows(s: Sys, run: seq<Action>, a: Action, i: nat)
    requires StartFollows(run, i) || (StartPending(run, i) && s.loop.pc.Starting?)
    requires Enabled(s, a)
    ensures StartFollows(run + [a], i) || (StartPending(run + [a], i) && Apply(s, a).loop.pc.Starting?)
  {
    var more := run + [a];
    assert more[|run|] == a && forall k | 0 <= k < |run| :: more[k] == run[k];
    if StartFollows(run, i) {
      var j :| i < j < |run| && IsStart(run[j]) && forall k | i < k < j :: !IsLoopStep(run[k]);
      assert IsStart(more[j]);
    }
  }

  lemma {:induction false} LapsOfRun(origin: Sys, run: seq<Action>)
    requires origin.loop.pc.LoopTop? && IsRun(origin, run) && HeadsLeft(origin, run)
    ensures LapsSoFar(Exec(origin, run).loop.pc, run)
  {
    if run != [] {
      var before := run[..|run| - 1];
      LapsOfRun(origin, before);
      LapsGrow(Exec(origin, before), before, run[|run| - 1]);
      assert before + [run[|run| - 1]] == run;
    }
  }

  lemma LapsAreRecorded(origin: Sys, run: seq<Action>)
    requires origin.loop.pc.LoopTop? && IsRun(origin, run) && HeadsLeft(origin, run)
    requires !Exec(origin, run).loop.pc.Starting?
    ensures LapsRecorded(run)
  {
    LapsOfRun(origin, run);
  }

  // ------------------------------------------------------------------ the history

  /** The run taken so far and the state it ends in, where the others took their turns, whether
      the loop moved since the last of them, and whether every head of the loop was left at
      once. */
  datatype History = History(origin: Sys, run: seq<Action>, s: Sys, turns: seq<nat>, moved: bool, orderly: bool)
  {
    function Step(a: Action): History {
      History(origin, run + [a], Apply(s, a), turns, moved || IsLoopStep(a),
              orderly && (s.loop.pc.LoopTop? ==> a.EnterLoop?))
    }

    function Turn(): History { this.(turns := turns + [|run|], moved := false) }

    ghost predicate Faithful() {
      && IsRun(origin, run) && s == Exec(origin, run)
      && Prompt(origin, run, turns) && LastTurn(turns) <= |run|
      && (moved ==> Moved(run, LastTurn(turns)))
      && (orderly ==> HeadsLeft(origin, run))
    }
  }

  /** Only the operating system and the watchers moved. */
  ghost predicate Beside(before: History, after: History) {
    && after.origin == before.origin && before.run <= after.run
    && after.s.loop == before.s.loop
    && after.turns == before.turns && after.moved == before.moved
    && (!before.s.loop.pc.LoopTop? ==> after.orderly == before.orderly)
  }

  /** The loop moved too, not back to its start, and left every head it came by at once. */
  ghost predicate Along(before: History, after: History) {
    && after.origin == before.origin && |before.run| <= |after.run|
    && (before.orderly ==> after.orderly)
    && !after.s.loop.pc.Starting?
  }

  predicate Opened(h: History) { true }

  /** A faithful history, closed: what it is made of is seen only where it is opened. */
  ghost predicate Kept(h: History) {
    forall g {:trigger Opened(g)} | g == h && Opened(g) :: g.Faithful()
  }

  lemma Open(h: History)
    requires Kept(h)
    ensures h.Faithful()
  {
    assert Opened(h);
  }

  /** The history of a run that has not begun. */
  function Begun(origin: Sys): History { History(origin, [], origin, [], false, true) }

  lemma KeptFromStart(origin: Sys)
    ensures Kept(Begun(origin))
  {
  }

  lemma KeptByStep(h: History, a: Action)
    requires Kept(h) && Enabled(h.s, a)
    ensures Kept(h.Step(a))
  {
    Open(h);
    StepIsFaithful(h, a);
  }

  lemma StepIsFaithful(h: History, a: Action)
    requires h.Faithful() && Enabled(h.s, a)
    ensures h.Step(a).Faithful()
  {
    ExecSnoc(h.origin, h.run, a);
    PromptGrows(h.origin, h.run, a, h.turns);
    assert (h.run + [a])[..|h.run|] == h.run && (h.run + [a])[|h.run|] == a;
    if h.moved {
      var i :| LastTurn(h.turns) <= i < |h.run| && IsLoopStep(h.run[i]);
      assert (h.run + [a])[i] == h.run[i];
    }
  }

  lemma KeptByTurn(h: History)
    requires Kept(h) && (LoopCanMove(h.s) ==> h.moved)
    ensures Kept(h.Turn())
  {
    Open(h);
    PromptTurn(h.origin, h.run, h.turns);
  }
}
