/** The pod as a labelled transition system: two pollers that share the runtime binary
    and the runtime config, and the pooler they steer.  Reading, writing a candidate,
    testing it, renaming it and signalling are separate steps, so the pollers and the
    pooler interleave anywhere.  The mounted files are whatever a read finds. */
module Pod {
  import opened Wrappers
  import opened Config

  type Bytes = string
  type Digest = string

  /** What the model does not look into: whether a binary's `--test-config` can accept a
      config, the file digest, the parser of binary specs, the outcome of validating config
      bytes, and the architecture. */
  datatype World = World(
    accepts: (Bytes, Bytes) -> bool,
    digest: Bytes -> Digest,
    parseSpec: Bytes -> Option<map<string, Digest>>,
    validate: Bytes -> Option<DoormanConfig>,
    arch: string)

  datatype Path = ImageBinary | RuntimeBinary | NextBinary | RuntimeConfig | NextConfig

  /** A live pooler: the config it started with and the one it holds after reloads, whether
      it was told to stop, whether a handover was requested, the config its successor
      started with, and whether the supervisor's signals reach it. */
  datatype Pooler = Pooler(
    started: Bytes, held: Bytes, stopping: bool, usr2: bool, successor: Option<Bytes>, supervised: bool)

  /** Where the config watcher is inside `check`. */
  datatype FilePc =
    | FIdle
    | FRead(data: Bytes, restart: bool)
    | FWritten(data: Bytes, restart: bool)
    | FTested(data: Bytes, restart: bool)
    | FRenamed(data: Bytes, restart: bool)

  /** Where the binary watcher is inside `check`. */
  datatype BinPc =
    | BIdle
    | BWanted(spec: Bytes, desired: Digest)
    | BFetched(spec: Bytes, desired: Digest)
    | BTested(spec: Bytes, desired: Digest)
    | BSwapped(spec: Bytes, desired: Digest)

  datatype State = State(
    files: map<Path, Bytes>,
    f: FilePc, lastApplied: Bytes, configStale: bool,
    b: BinPc, lastSpec: Bytes, binaryStale: bool,
    pooler: Option<Pooler>,
    demanded: set<Digest>)

  datatype Action =
    // FileWatcher.check
    | ReadConfig(data: Bytes)
    | WriteCandidate(ok: bool)
    | TestCandidate(ok: bool)
    | RenameConfig(ok: bool)
    | SignalConfig(ok: bool)
    // BinaryWatcher.check
    | ReadSpec(spec: Bytes, inFlight: bool, hashed: bool)  // whether the installed binary could be hashed
    | FetchBinary(content: Option<Bytes>)
    | TestBinary(ok: bool)
    | SwapBinary(ok: bool)
    | SignalBinary(ok: bool)
    // the supervisor, the role watcher and pg_doorman
    | StartPooler
    | ExitPooler
    | AdoptPooler
    | LosePooler
    | RestartPooler
    | SpawnSuccessor(reread: bool)
    | AbortHandover

  /** The digest a binary spec demands for this architecture. */
  function Desired(w: World, spec: Bytes): Option<Digest> {
    var digests := w.parseSpec(spec);
    if digests.None? || w.arch !in digests.value || digests.value[w.arch] == "" then None
    else Some(digests.value[w.arch])
  }

  function Fixed(w: World, data: Bytes): Option<FixedFields> {
    var cfg := w.validate(data);
    if cfg.None? then None else Some(FixedOf(cfg.value))
  }

  /** Whether applying `data` restarts the pooler; an unreadable last config never does. */
  predicate Restarts(w: World, lastApplied: Bytes, data: Bytes) {
    var before, after := w.validate(lastApplied), w.validate(data);
    before.Some? && after.Some? && NeedsProcessRestart(before.value, after.value)
  }

  /** A signal to a live supervised pooler succeeds; one sent while no supervised pooler
      lives may still reach an unreaped child. */
  predicate SignalOutcome(s: State, ok: bool) {
    s.pooler.Some? && s.pooler.value.supervised ==> ok
  }

  predicate Enabled(w: World, s: State, a: Action) {
    match a
    case ReadConfig(data) => s.f.FIdle? && data != s.lastApplied
    case WriteCandidate(_) => s.f.FRead?
    case TestCandidate(ok) =>
      && s.f.FWritten? && RuntimeBinary in s.files && NextConfig in s.files
      && (ok ==> w.accepts(s.files[RuntimeBinary], s.files[NextConfig]))
    case RenameConfig(_) => s.f.FTested? && NextConfig in s.files
    case SignalConfig(ok) => s.f.FRenamed? && SignalOutcome(s, ok)
    case ReadSpec(spec, _, _) => s.b.BIdle? && spec != s.lastSpec && RuntimeBinary in s.files
    case FetchBinary(content) => s.b.BWanted? && (content.Some? ==> w.digest(content.value) == s.b.desired)
    case TestBinary(ok) =>
      && s.b.BFetched? && NextBinary in s.files && RuntimeConfig in s.files
      && (ok ==> w.accepts(s.files[NextBinary], s.files[RuntimeConfig]))
    case SwapBinary(_) => s.b.BTested? && NextBinary in s.files
    case SignalBinary(ok) => s.b.BSwapped? && SignalOutcome(s, ok)
    case StartPooler => s.pooler.None? && RuntimeBinary in s.files && RuntimeConfig in s.files
    case ExitPooler => s.pooler.Some?
    case AdoptPooler => s.pooler.Some? && !s.pooler.value.supervised && RuntimeConfig in s.files
    case LosePooler => s.pooler.Some? && !s.pooler.value.supervised
    case RestartPooler => s.pooler.Some? && s.pooler.value.supervised
    case SpawnSuccessor(_) =>
      && s.pooler.Some? && s.pooler.value.supervised && s.pooler.value.usr2
      && !s.pooler.value.stopping && s.pooler.value.successor.None? && RuntimeConfig in s.files
    case AbortHandover => s.pooler.Some?
  }

  function Stop(pooler: Option<Pooler>): Option<Pooler> {
    if pooler.Some? && pooler.value.supervised then Some(pooler.value.(stopping := true)) else pooler
  }

  function Hold(pooler: Option<Pooler>, data: Bytes): Option<Pooler> {
    if pooler.Some? && pooler.value.supervised then Some(pooler.value.(held := data)) else pooler
  }

  function Request(pooler: Option<Pooler>): Option<Pooler> {
    if pooler.Some? && pooler.value.supervised then Some(pooler.value.(usr2 := true)) else pooler
  }

  function Apply(w: World, s: State, a: Action): State
    requires Enabled(w, s, a)
  {
    match a
    case ReadConfig(data) =>
      if w.validate(data).None? then s.(configStale := true)
      else s.(configStale := true, f := FRead(data, Restarts(w, s.lastApplied, data)))
    case WriteCandidate(ok) =>
      if ok then s.(files := s.files[NextConfig := s.f.data], f := FWritten(s.f.data, s.f.restart))
      else s.(f := FIdle)
    case TestCandidate(ok) =>
      if ok then s.(f := FTested(s.f.data, s.f.restart))
      else s.(files := s.files - {NextConfig}, f := FIdle)
    case RenameConfig(ok) =>
      if ok then
        s.(files := s.files[RuntimeConfig := s.files[NextConfig]] - {NextConfig},
           f := FRenamed(s.f.data, s.f.restart))
      else s.(f := FIdle)
    case SignalConfig(ok) =>
      if ok then
        s.(f := FIdle, lastApplied := s.f.data, configStale := false,
           pooler := if s.f.restart then Stop(s.pooler) else Hold(s.pooler, s.f.data))
      else s.(f := FIdle)
    case ReadSpec(spec, inFlight, hashed) =>
      var desired := Desired(w, spec);
      if w.parseSpec(spec).None? then s
      else if desired.None? then s.(lastSpec := spec)
      else
        var s' := s.(demanded := s.demanded + {desired.value});
        if hashed && w.digest(s.files[RuntimeBinary]) == desired.value then s'.(lastSpec := spec, binaryStale := false)
        else if inFlight then s'.(binaryStale := true)
        else s'.(binaryStale := true, b := BWanted(spec, desired.value))
    case FetchBinary(content) =>
      if content.Some?
      then s.(files := s.files[NextBinary := content.value], b := BFetched(s.b.spec, s.b.desired))
      else s.(b := BIdle)
    case TestBinary(ok) =>
      if ok then s.(b := BTested(s.b.spec, s.b.desired))
      else s.(files := s.files - {NextBinary}, b := BIdle)
    case SwapBinary(ok) =>
      if ok then
        s.(files := s.files[RuntimeBinary := s.files[NextBinary]] - {NextBinary},
           b := BSwapped(s.b.spec, s.b.desired))
      else s.(b := BIdle)
    case SignalBinary(ok) =>
      if ok then s.(b := BIdle, lastSpec := s.b.spec, binaryStale := false, pooler := Request(s.pooler))
      else s.(b := BIdle)
    case StartPooler =>
      var data := s.files[RuntimeConfig];
      s.(pooler := Some(Pooler(data, data, false, false, None, true)))
    case ExitPooler =>
      var successor := s.pooler.value.successor;
      s.(pooler := if successor.None? then None
                   else Some(Pooler(successor.value, successor.value, false, false, None, false)))
    case AdoptPooler => s.(pooler := Some(s.pooler.value.(supervised := true, held := s.files[RuntimeConfig])))
    case LosePooler => s.(pooler := None)
    case RestartPooler => s.(pooler := Stop(s.pooler))
    case SpawnSuccessor(reread) =>
      s.(pooler := Some(s.pooler.value.(successor := Some(if reread then s.files[RuntimeConfig] else s.pooler.value.held))))
    case AbortHandover => s.(pooler := Some(s.pooler.value.(usr2 := false, successor := None)))
  }

  /** The state sequence of a run, or None when some action is not possible. */
  function Exec(w: World, s: State, run: seq<Action>): Option<State> {
    if run == [] then Some(s)
    else
      var before := Exec(w, s, run[..|run| - 1]);
      var a := run[|run| - 1];
      if before.None? || !Enabled(w, before.value, a) then None else Some(Apply(w, before.value, a))
  }

  lemma ExecSnoc(w: World, s: State, run: seq<Action>, a: Action)
    ensures Exec(w, s, run + [a]) ==
      (var before := Exec(w, s, run);
       if before.None? || !Enabled(w, before.value, a) then None else Some(Apply(w, before.value, a)))
  {
    assert (run + [a])[..|run|] == run;
  }

  /** The states a run passes through, one more than its steps. */
  ghost predicate IsTrace(w: World, states: seq<State>, run: seq<Action>) {
    && |states| == |run| + 1
    && forall i {:trigger run[i]} | 0 <= i < |run| :: Enabled(w, states[i], run[i]) && states[i + 1] == Apply(w, states[i], run[i])
  }

  /** A trace is a run: it executes from its first state to its last. */
  lemma {:induction false} TraceExecutes(w: World, states: seq<State>, run: seq<Action>)
    requires IsTrace(w, states, run)
    ensures Exec(w, states[0], run) == Some(states[|run|])
    decreases |run|
  {
    if run != [] {
      var n := |run| - 1;
      assert forall i | 0 <= i < n :: run[..n][i] == run[i];
      TraceExecutes(w, states[..|run|], run[..n]);
      assert states[..|run|][n] == states[n];
    }
  }

  /** The state before step i of a run. */
  function At(w: World, s: State, run: seq<Action>, i: nat): Option<State>
    requires i <= |run|
  {
    Exec(w, s, run[..i])
  }

  lemma {:induction false} PrefixRuns(w: World, s: State, run: seq<Action>, i: nat)
    requires Exec(w, s, run).Some? && i <= |run|
    ensures At(w, s, run, i).Some?
    ensures i < |run| ==> Enabled(w, At(w, s, run, i).value, run[i])
    decreases |run|
  {
    if i == |run| {
      assert run[..i] == run;
    } else if i < |run| - 1 {
      PrefixRuns(w, s, run[..|run| - 1], i);
      assert run[..|run| - 1][..i] == run[..i];
    }
  }

  // ------------------------------------------------------------- joint acceptance

  /** The runtime pair was accepted by `--test-config` of that very binary. */
  ghost predicate Accepted(w: World, s: State) {
    RuntimeBinary in s.files && RuntimeConfig in s.files && w.accepts(s.files[RuntimeBinary], s.files[RuntimeConfig])
  }

  /** The config candidate and the stale gauge while the config watcher is busy. */
  ghost predicate StagedConfig(w: World, s: State) {
    && (s.f.FWritten? || s.f.FTested? ==> NextConfig in s.files && s.files[NextConfig] == s.f.data)
    && (!s.f.FIdle? ==> s.configStale && w.validate(s.f.data).Some?)
    && (s.f.FRenamed? ==> RuntimeConfig in s.files && s.files[RuntimeConfig] == s.f.data)
  }

  /** The binary candidate and the stale gauge while the binary watcher is busy. */
  ghost predicate StagedBinary(w: World, s: State) {
    && RuntimeBinary in s.files
    && (s.b.BFetched? || s.b.BTested? ==> NextBinary in s.files && w.digest(s.files[NextBinary]) == s.b.desired)
    && (!s.b.BIdle? ==> s.binaryStale && Desired(w, s.b.spec) == Some(s.b.desired) && s.b.desired in s.demanded)
    && (s.b.BSwapped? ==> w.digest(s.files[RuntimeBinary]) == s.b.desired)
  }

  ghost predicate Staged(w: World, s: State) { StagedConfig(w, s) && StagedBinary(w, s) }

  /** No test of one watcher falls between the test and the rename of the other. */
  ghost predicate Separate(s: State, a: Action) {
    && (a.TestCandidate? ==> !s.b.BTested?)
    && (a.TestBinary? ==> !s.f.FTested?)
  }

  ghost predicate JointlyTested(w: World, s: State) {
    && Staged(w, s) && Accepted(w, s)
    && !(s.f.FTested? && s.b.BTested?)
    && (s.f.FTested? ==> w.accepts(s.files[RuntimeBinary], s.f.data))
    && (s.b.BTested? ==> w.accepts(s.files[NextBinary], s.files[RuntimeConfig]))
  }

  lemma StepKeepsStaged(w: World, s: State, a: Action)
    requires Staged(w, s) && Enabled(w, s, a)
    ensures Staged(w, Apply(w, s, a))
  {
    StepKeepsStagedConfig(w, s, a);
    StepKeepsStagedBinary(w, s, a);
  }

  lemma StepKeepsStagedConfig(w: World, s: State, a: Action)
    requires StagedConfig(w, s) && Enabled(w, s, a)
    ensures StagedConfig(w, Apply(w, s, a))
  {
  }

  lemma StepKeepsStagedBinary(w: World, s: State, a: Action)
    requires StagedBinary(w, s) && Enabled(w, s, a)
    ensures StagedBinary(w, Apply(w, s, a))
  {
  }

  lemma StepKeepsJointlyTested(w: World, s: State, a: Action)
    requires JointlyTested(w, s) && Enabled(w, s, a) && Separate(s, a)
    ensures JointlyTested(w, Apply(w, s, a))
  {
    StepKeepsStaged(w, s, a);
  }

  ghost predicate AllSeparate(w: World, s: State, run: seq<Action>) {
    forall i | 0 <= i < |run| :: At(w, s, run, i).Some? ==> Separate(At(w, s, run, i).value, run[i])
  }

  /** With the stale gauge down, the installed binary is the one the applied spec asks for. */
  ghost predicate Agrees(w: World, s: State) {
    !s.binaryStale && Desired(w, s.lastSpec).Some? && RuntimeBinary in s.files ==>
      w.digest(s.files[RuntimeBinary]) == Desired(w, s.lastSpec).value
  }

  /** The installed binary is the image's, or one whose digest some spec demanded. */
  ghost predicate Provenance(w: World, s: State) {
    && RuntimeBinary in s.files && ImageBinary in s.files
    && (s.files[RuntimeBinary] == s.files[ImageBinary] || w.digest(s.files[RuntimeBinary]) in s.demanded)
  }

  /** What startup leaves behind: both watchers idle, an accepted pair, the config marked
      as applied, and the binary the seed asks for. */
  ghost predicate Booted(w: World, s: State) {
    && s.f.FIdle? && s.b.BIdle? && Accepted(w, s)
    && s.files[RuntimeConfig] == s.lastApplied && !s.configStale && s.pooler.None?
    && Agrees(w, s) && Provenance(w, s)
  }

  lemma {:induction false} RunStaysJointlyTested(w: World, s: State, run: seq<Action>)
    requires Booted(w, s) && Exec(w, s, run).Some? && AllSeparate(w, s, run)
    ensures JointlyTested(w, Exec(w, s, run).value)
    decreases |run|
  {
    if run != [] {
      var before := run[..|run| - 1];
      assert forall i | 0 <= i < |before| :: run[..i] == before[..i];
      RunStaysJointlyTested(w, s, before);
      assert At(w, s, run, |run| - 1) == Exec(w, s, before);
      StepKeepsJointlyTested(w, Exec(w, s, before).value, run[|run| - 1]);
    }
  }

  /** Main result: while test-to-rename windows do not overlap, every pooler is started
      on a pair its binary accepted. */
  lemma EveryStartIsAccepted(w: World, s: State, run: seq<Action>, i: nat)
    requires Booted(w, s) && Exec(w, s, run).Some? && AllSeparate(w, s, run)
    requires i < |run| && run[i].StartPooler?
    ensures At(w, s, run, i).Some? && Accepted(w, At(w, s, run, i).value)
  {
    PrefixRuns(w, s, run, i);
    assert forall j | 0 <= j < i :: run[..i][..j] == run[..j];
    RunStaysJointlyTested(w, s, run[..i]);
  }

  /** The steps of the config watcher. */
  predicate IsConfigStep(a: Action) {
    a.ReadConfig? || a.WriteCandidate? || a.TestCandidate? || a.RenameConfig? || a.SignalConfig?
  }

  // -------------------------------------------------------------- spawned successors

  /** While the config gauge is down, a supervised pooler that was not told to stop holds the
      installed config. */
  ghost predicate HoldsInstalled(s: State) {
    && RuntimeConfig in s.files
    && (s.f.FRenamed? ==> s.files[RuntimeConfig] == s.f.data)
    && (!s.configStale && s.pooler.Some? && s.pooler.value.supervised && !s.pooler.value.stopping ==>
          s.pooler.value.held == s.files[RuntimeConfig])
  }

  lemma StepKeepsHolding(w: World, s: State, a: Action)
    requires StagedConfig(w, s) && HoldsInstalled(s) && Enabled(w, s, a)
    ensures HoldsInstalled(Apply(w, s, a))
  {
    if IsConfigStep(a) { ConfigStepKeepsHolding(w, s, a); } else { OtherStepKeepsHolding(w, s, a); }
  }

  lemma ConfigStepKeepsHolding(w: World, s: State, a: Action)
    requires StagedConfig(w, s) && HoldsInstalled(s) && Enabled(w, s, a) && IsConfigStep(a)
    ensures HoldsInstalled(Apply(w, s, a))
  {
  }

  lemma OtherStepKeepsHolding(w: World, s: State, a: Action)
    requires HoldsInstalled(s) && Enabled(w, s, a) && !IsConfigStep(a)
    ensures HoldsInstalled(Apply(w, s, a))
  {
  }

  lemma {:induction false} RunKeepsHolding(w: World, s: State, run: seq<Action>)
    requires Booted(w, s) && Exec(w, s, run).Some?
    ensures HoldsInstalled(Exec(w, s, run).value)
    decreases |run|
  {
    if run != [] {
      var before := run[..|run| - 1];
      RunKeepsHolding(w, s, before);
      InstalledBinaryAgrees(w, s, before);
      StepKeepsHolding(w, Exec(w, s, before).value, run[|run| - 1]);
    }
  }

  /** The pair a successor starts with. */
  ghost predicate SpawnAccepted(w: World, s: State, reread: bool) {
    && RuntimeBinary in s.files && RuntimeConfig in s.files && s.pooler.Some?
    && w.accepts(s.files[RuntimeBinary], if reread then s.files[RuntimeConfig] else s.pooler.value.held)
  }

  /** With separate windows, a successor is spawned on an accepted pair whenever it reads the
      installed config itself, or the config gauge is down. */
  lemma SpawnIsAccepted(w: World, s: State, run: seq<Action>, i: nat)
    requires Booted(w, s) && Exec(w, s, run).Some? && AllSeparate(w, s, run)
    requires i < |run| && run[i].SpawnSuccessor? && At(w, s, run, i).Some?
    requires run[i].reread || !At(w, s, run, i).value.configStale
    ensures SpawnAccepted(w, At(w, s, run, i).value, run[i].reread)
  {
    PrefixRuns(w, s, run, i);
    assert forall j | 0 <= j < i :: run[..i][..j] == run[..j];
    RunStaysJointlyTested(w, s, run[..i]);
    RunKeepsHolding(w, s, run[..i]);
  }

  /** Acceptance is rectangular where it matters: if a deliverable binary and a renderable
      config are each accepted next to the current pair, they accept each other. */
  ghost predicate Rectangular(w: World) {
    forall bin, cfg, bin', cfg', spec |
      && w.accepts(bin, cfg) && w.accepts(bin, cfg') && w.accepts(bin', cfg)
      && w.validate(cfg').Some? && cfg' != cfg
      && Desired(w, spec) == Some(w.digest(bin'))
      :: w.accepts(bin', cfg')
  }

  ghost predicate OverlapTested(w: World, s: State) {
    && Staged(w, s) && Accepted(w, s)
    && (s.f.FTested? ==> w.accepts(s.files[RuntimeBinary], s.f.data))
    && (s.b.BTested? ==> w.accepts(s.files[NextBinary], s.files[RuntimeConfig]))
    && (s.f.FTested? && s.b.BTested? ==> w.accepts(s.files[NextBinary], s.f.data))
  }

  lemma CrossAccepted(w: World, bin: Bytes, cfg: Bytes, bin': Bytes, cfg': Bytes, spec: Bytes)
    requires Rectangular(w) && w.accepts(bin, cfg) && w.accepts(bin, cfg') && w.accepts(bin', cfg)
    requires w.validate(cfg').Some? && Desired(w, spec) == Some(w.digest(bin'))
    ensures w.accepts(bin', cfg')
  {
  }

  lemma StepKeepsOverlapTested(w: World, s: State, a: Action)
    requires Rectangular(w) && OverlapTested(w, s) && Enabled(w, s, a)
    ensures OverlapTested(w, Apply(w, s, a))
  {
    StepKeepsStaged(w, s, a);
    var s' := Apply(w, s, a);
    if s'.f.FTested? && s'.b.BTested? {
      CrossAccepted(w, s.files[RuntimeBinary], s.files[RuntimeConfig], s.files[NextBinary], s.f.data, s.b.spec);
    }
  }

  lemma {:induction false} RunStaysOverlapTested(w: World, s: State, run: seq<Action>)
    requires Rectangular(w) && Booted(w, s) && Exec(w, s, run).Some?
    ensures OverlapTested(w, Exec(w, s, run).value)
    decreases |run|
  {
    if run != [] {
      RunStaysOverlapTested(w, s, run[..|run| - 1]);
      StepKeepsOverlapTested(w, Exec(w, s, run[..|run| - 1]).value, run[|run| - 1]);
    }
  }

  /** Extends a run by one possible step. */
  lemma Follow(w: World, s: State, run: seq<Action>, a: Action) returns (longer: seq<Action>)
    requires Exec(w, s, run).Some? && Enabled(w, Exec(w, s, run).value, a)
    ensures longer == run + [a] && Exec(w, s, longer) == Some(Apply(w, Exec(w, s, run).value, a))
  {
    ExecSnoc(w, s, run, a);
    longer := run + [a];
  }

  /** An idle config watcher would take up this config and the installed binary accepts it. */
  ghost predicate ReadyFor(w: World, s: State, data: Bytes) {
    && s.f.FIdle? && data != s.lastApplied && w.validate(data).Some?
    && RuntimeBinary in s.files && w.accepts(s.files[RuntimeBinary], data)
  }

  /** The config watcher alone up to its passed test. */
  lemma TestWindow(w: World, s: State, run: seq<Action>, data: Bytes) returns (longer: seq<Action>)
    requires Exec(w, s, run).Some?
    requires ReadyFor(w, Exec(w, s, run).value, data)
    ensures var t := Exec(w, s, run).value; Exec(w, s, longer) == Some(t.(
      files := t.files[NextConfig := data], configStale := true, f := FTested(data, Restarts(w, t.lastApplied, data))))
  {
    longer := Follow(w, s, run, ReadConfig(data));
    longer := Follow(w, s, longer, WriteCandidate(true));
    longer := Follow(w, s, longer, TestCandidate(true));
  }

  /** The overlapping run: both tests pass against the old partner, then both renames. */
  lemma OverlapBreaks(w: World, bin: Bytes, cfg: Bytes, bin': Bytes, cfg': Bytes, spec: Bytes)
    returns (s: State, run: seq<Action>)
    requires w.accepts(bin, cfg) && w.accepts(bin, cfg') && w.accepts(bin', cfg) && !w.accepts(bin', cfg')
    requires w.validate(cfg').Some? && cfg' != cfg
    requires Desired(w, spec) == Some(w.digest(bin'))
    ensures Booted(w, s) && Exec(w, s, run).Some? && !Accepted(w, Exec(w, s, run).value)
  {
    s := State(map[ImageBinary := bin, RuntimeBinary := bin, RuntimeConfig := cfg],
               FIdle, cfg, false, BIdle, spec + "?", true, None, {});
    assert |spec + "?"| != |spec|;
    run := TestWindow(w, s, [], cfg');
    run := Follow(w, s, run, ReadSpec(spec, false, false));
    run := Follow(w, s, run, FetchBinary(Some(bin')));
    run := Follow(w, s, run, TestBinary(true));
    run := Follow(w, s, run, RenameConfig(true));
    run := Follow(w, s, run, SwapBinary(true));
  }

  /** Main result: overlapping windows are harmless for every run exactly when acceptance
      is rectangular. */
  lemma OverlapHarmlessExactlyWhenRectangular(w: World)
    ensures Rectangular(w) <==>
      forall s, run | Booted(w, s) && Exec(w, s, run).Some? :: Accepted(w, Exec(w, s, run).value)
  {
    if Rectangular(w) {
      forall s, run | Booted(w, s) && Exec(w, s, run).Some? ensures Accepted(w, Exec(w, s, run).value) {
        RunStaysOverlapTested(w, s, run);
      }
    } else {
      var bin, cfg, bin', cfg', spec :|
        && w.accepts(bin, cfg) && w.accepts(bin, cfg') && w.accepts(bin', cfg)
        && w.validate(cfg').Some? && cfg' != cfg
        && Desired(w, spec) == Some(w.digest(bin'))
        && !w.accepts(bin', cfg');
      var s, run := OverlapBreaks(w, bin, cfg, bin', cfg', spec);
    }
  }

  // --------------------------------------------------------------- installed binary

  lemma StepKeepsInstalled(w: World, s: State, a: Action)
    requires Staged(w, s) && Agrees(w, s) && Provenance(w, s) && Enabled(w, s, a)
    ensures Agrees(w, Apply(w, s, a)) && Provenance(w, Apply(w, s, a))
  {
  }

  /** Main result: in every reachable state, between any two file operations of any
      interleaving, the installed binary is the image's or one some spec demanded; and when
      the gauge says it is not stale it has the digest the applied spec asks for. */
  lemma {:induction false} InstalledBinaryAgrees(w: World, s: State, run: seq<Action>)
    requires Booted(w, s) && Exec(w, s, run).Some?
    ensures var t := Exec(w, s, run).value; Staged(w, t) && Agrees(w, t) && Provenance(w, t)
    decreases |run|
  {
    if run != [] {
      InstalledBinaryAgrees(w, s, run[..|run| - 1]);
      var before := Exec(w, s, run[..|run| - 1]).value;
      StepKeepsStaged(w, before, run[|run| - 1]);
      StepKeepsInstalled(w, before, run[|run| - 1]);
    }
  }

  // ------------------------------------------------------------ non-reloadable fields

  /** Everything a pooler that keeps running was started from has these fixed fields. */
  ghost predicate Carries(w: World, p: Pooler, fixed: Option<FixedFields>) {
    && (!p.stopping ==> Fixed(w, p.started) == fixed && Fixed(w, p.held) == fixed)
    && (p.successor.Some? ==> Fixed(w, p.successor.value) == fixed)
  }

  /** Whoever outlives a restart signal runs on these fixed fields: the successor of the
      pooler told to stop, or a pooler the signal does not reach. */
  ghost predicate Survivors(w: World, pooler: Option<Pooler>, fixed: Option<FixedFields>) {
    pooler.Some? ==>
      var p := pooler.value;
      if p.supervised then p.successor.Some? ==> Fixed(w, p.successor.value) == fixed
      else Fixed(w, p.started) == fixed
  }

  /** A safe step: a config that will merely be reloaded passes its test only while the
      installed config has its fixed fields, and a restart leaves no survivor with others. */
  ghost predicate Steady(w: World, s: State, a: Action) {
    match a
    case TestCandidate(ok) =>
      ok && s.f.FWritten? && !s.f.restart && RuntimeConfig in s.files ==>
        Fixed(w, s.files[RuntimeConfig]) == Fixed(w, s.f.data)
    case SignalConfig(ok) =>
      ok && s.f.FRenamed? && s.f.restart ==> Survivors(w, s.pooler, Fixed(w, s.f.data))
    case _ => true
  }

  /** A pooler that waits for its adoption is as its predecessor spawned it. */
  ghost predicate Unadopted(pooler: Option<Pooler>) {
    pooler.Some? && !pooler.value.supervised ==>
      pooler.value.successor.None? && pooler.value.held == pooler.value.started && !pooler.value.stopping
  }

  /** The pending decision of the config watcher matches the fixed fields it was made for. */
  ghost predicate Decided(w: World, f: FilePc, installed: Option<FixedFields>, applied: Option<FixedFields>) {
    !f.FIdle? ==>
      && (f.restart ==> applied.Some? && applied != Fixed(w, f.data))
      && (!f.restart && applied.Some? ==> applied == Fixed(w, f.data))
      && (!f.restart && (f.FTested? || f.FRenamed?) ==> installed == applied == Fixed(w, f.data))
  }

  ghost predicate Current(w: World, s: State) {
    && StagedConfig(w, s) && RuntimeConfig in s.files
    && var installed, applied := Fixed(w, s.files[RuntimeConfig]), Fixed(w, s.lastApplied);
    && (applied.None? ==> installed.None?)
    && (!s.configStale ==> s.files[RuntimeConfig] == s.lastApplied)
    && Decided(w, s.f, installed, applied)
    && Unadopted(s.pooler)
    && (installed == applied && s.pooler.Some? ==> Carries(w, s.pooler.value, applied))
  }

  lemma RestartsOnFixedFields(w: World, lastApplied: Bytes, data: Bytes)
    requires w.validate(lastApplied).Some? && w.validate(data).Some?
    ensures Restarts(w, lastApplied, data) <==> Fixed(w, lastApplied) != Fixed(w, data)
  {
    RestartExactlyOnFixedFields(w.validate(lastApplied).value, w.validate(data).value);
  }

  lemma StepKeepsCurrent(w: World, s: State, a: Action)
    requires Current(w, s) && Enabled(w, s, a) && Steady(w, s, a)
    ensures Current(w, Apply(w, s, a))
  {
    if IsConfigStep(a) {
      ConfigStepKeepsCurrent(w, s, a);
    } else if IsBinaryStep(a) {
      BinaryStepKeepsCurrent(w, s, a);
    } else {
      PoolerStepKeepsCurrent(w, s, a);
    }
  }

  lemma ConfigStepKeepsCurrent(w: World, s: State, a: Action)
    requires Current(w, s) && Enabled(w, s, a) && Steady(w, s, a) && IsConfigStep(a)
    ensures Current(w, Apply(w, s, a))
  {
    StepKeepsStagedConfig(w, s, a);
    if a.ReadConfig? && w.validate(a.data).Some? && w.validate(s.lastApplied).Some? {
      RestartsOnFixedFields(w, s.lastApplied, a.data);
    }
  }

  predicate IsBinaryStep(a: Action) {
    a.ReadSpec? || a.FetchBinary? || a.TestBinary? || a.SwapBinary? || a.SignalBinary?
  }

  /** The two states look the same to the config watcher. */
  ghost predicate SameForConfig(s: State, t: State) {
    && t.f == s.f && t.lastApplied == s.lastApplied && t.configStale == s.configStale
    && (forall p | p == RuntimeConfig || p == NextConfig ::
          (p in t.files <==> p in s.files) && (p in s.files ==> t.files[p] == s.files[p]))
    && (t.pooler == s.pooler || t.pooler == Request(s.pooler))
  }

  lemma SameIsCurrent(w: World, s: State, t: State)
    requires Current(w, s) && SameForConfig(s, t)
    ensures Current(w, t)
  {
  }

  lemma BinaryStepIsAside(w: World, s: State, a: Action)
    requires Enabled(w, s, a) && IsBinaryStep(a)
    ensures SameForConfig(s, Apply(w, s, a))
  {
  }

  lemma BinaryStepKeepsCurrent(w: World, s: State, a: Action)
    requires Current(w, s) && Enabled(w, s, a) && IsBinaryStep(a)
    ensures Current(w, Apply(w, s, a))
  {
    BinaryStepIsAside(w, s, a);
    SameIsCurrent(w, s, Apply(w, s, a));
  }

  lemma PoolerStepKeepsCurrent(w: World, s: State, a: Action)
    requires Current(w, s) && Enabled(w, s, a) && !IsConfigStep(a) && !IsBinaryStep(a)
    ensures Current(w, Apply(w, s, a))
  {
    StepKeepsStagedConfig(w, s, a);
  }

  ghost predicate AllSteady(w: World, s: State, run: seq<Action>) {
    forall i | 0 <= i < |run| :: At(w, s, run, i).Some? ==> Steady(w, At(w, s, run, i).value, run[i])
  }

  lemma SteadySnoc(w: World, s: State, run: seq<Action>, a: Action)
    ensures AllSteady(w, s, run + [a]) <==>
      AllSteady(w, s, run) && (Exec(w, s, run).Some? ==> Steady(w, Exec(w, s, run).value, a))
  {
    var longer := run + [a];
    assert longer[..|run|] == run && longer[|run|] == a;
    assert forall i | 0 <= i < |run| :: longer[..i] == run[..i] && longer[i] == run[i];
    assert At(w, s, longer, |run|) == Exec(w, s, run);
  }

  lemma {:induction false} RunStaysCurrent(w: World, s: State, run: seq<Action>)
    requires Current(w, s) && Exec(w, s, run).Some? && AllSteady(w, s, run)
    ensures Current(w, Exec(w, s, run).value)
    decreases |run|
  {
    if run != [] {
      var before, a := run[..|run| - 1], run[|run| - 1];
      assert run == before + [a];
      SteadySnoc(w, s, before, a);
      RunStaysCurrent(w, s, before);
      StepKeepsCurrent(w, Exec(w, s, before).value, a);
    }
  }

  /** The claim of the stale gauge: a pooler that keeps running started with the fixed
      fields of the applied config. */
  ghost predicate UpToDate(w: World, s: State) {
    !s.configStale && s.pooler.Some? && !s.pooler.value.stopping ==>
      Fixed(w, s.pooler.value.started) == Fixed(w, s.lastApplied)
  }

  lemma BootedIsCurrent(w: World, s: State)
    requires Booted(w, s)
    ensures Current(w, s)
  {
  }

  /** Main result: through every chain of reloads, restarts, crashes and handovers made of
      steady steps, the stale gauge tells the truth about the fixed fields. */
  lemma FixedFieldsUpToDate(w: World, s: State, run: seq<Action>)
    requires Booted(w, s) && Exec(w, s, run).Some? && AllSteady(w, s, run)
    ensures UpToDate(w, Exec(w, s, run).value)
  {
    BootedIsCurrent(w, s);
    RunStaysCurrent(w, s, run);
  }

  /** Extends a steady run by one possible steady step. */
  lemma FollowSteady(w: World, s: State, run: seq<Action>, a: Action) returns (longer: seq<Action>)
    requires Exec(w, s, run).Some? && AllSteady(w, s, run)
    requires Enabled(w, Exec(w, s, run).value, a) && Steady(w, Exec(w, s, run).value, a)
    ensures longer == run + [a] && AllSteady(w, s, longer)
    ensures Exec(w, s, longer) == Some(Apply(w, Exec(w, s, run).value, a))
  {
    longer := Follow(w, s, run, a);
    SteadySnoc(w, s, run, a);
  }

  /** A pooler can be replaced by one started from what is installed, without an unsteady
      step. */
  lemma FreshStart(w: World, s: State) returns (run: seq<Action>)
    requires RuntimeBinary in s.files && RuntimeConfig in s.files && Unadopted(s.pooler)
    ensures AllSteady(w, s, run)
    ensures var data := s.files[RuntimeConfig];
      Exec(w, s, run) == Some(s.(pooler := Some(Pooler(data, data, false, false, None, true))))
  {
    run := [];
    if s.pooler.Some? {
      run := FollowSteady(w, s, run, ExitPooler);
      if s.pooler.value.successor.Some? { run := FollowSteady(w, s, run, LosePooler); }
    }
    run := FollowSteady(w, s, run, StartPooler);
  }

  /** After an unsteady test: a pooler started from the installed config keeps its fixed
      fields through the mere reload, while another config becomes the applied one. */
  lemma UnsteadyTestMisleads(w: World, s: State) returns (rest: seq<Action>)
    requires s.f.FTested? && !s.f.restart && NextConfig in s.files
    requires RuntimeBinary in s.files && RuntimeConfig in s.files && Unadopted(s.pooler)
    requires Fixed(w, s.files[RuntimeConfig]) != Fixed(w, s.f.data)
    ensures Exec(w, s, rest).Some? && AllSteady(w, s, rest) && !UpToDate(w, Exec(w, s, rest).value)
  {
    rest := FreshStart(w, s);
    rest := FollowSteady(w, s, rest, RenameConfig(true));
    rest := FollowSteady(w, s, rest, SignalConfig(true));
  }

  /** After a restart signal with a survivor on other fixed fields: it is what runs next. */
  lemma UnsteadySignalMisleads(w: World, s: State) returns (rest: seq<Action>)
    requires !s.configStale && RuntimeConfig in s.files && Unadopted(s.pooler)
    requires !Survivors(w, s.pooler, Fixed(w, s.lastApplied))
    ensures Exec(w, s, rest).Some? && AllSteady(w, s, rest) && !UpToDate(w, Exec(w, s, rest).value)
  {
    rest := [];
    if s.pooler.value.supervised {
      rest := FollowSteady(w, s, rest, ExitPooler);
      rest := FollowSteady(w, s, rest, AdoptPooler);
    }
  }

  /** Main result: a step is steady exactly when the stale gauge tells the truth about the
      fixed fields after every steady continuation of it. */
  lemma SteadyExactlyWhenSafe(w: World, s: State, a: Action)
    requires Current(w, s) && RuntimeBinary in s.files && Enabled(w, s, a)
    ensures Steady(w, s, a) <==>
      forall rest | Exec(w, Apply(w, s, a), rest).Some? && AllSteady(w, Apply(w, s, a), rest) ::
        UpToDate(w, Exec(w, Apply(w, s, a), rest).value)
  {
    var t := Apply(w, s, a);
    if Steady(w, s, a) {
      StepKeepsCurrent(w, s, a);
      forall rest | Exec(w, t, rest).Some? && AllSteady(w, t, rest) ensures UpToDate(w, Exec(w, t, rest).value) {
        RunStaysCurrent(w, t, rest);
      }
    } else if a.TestCandidate? {
      var rest := UnsteadyTestMisleads(w, t);
    } else {
      var rest := UnsteadySignalMisleads(w, t);
    }
  }

  // ------------------------------------------- runs from startup that lose the fields

  /** Takes up a config, installs it and fails to signal, there being no pooler. */
  lemma InstallUnsignalled(w: World, s: State, data: Bytes) returns (run: seq<Action>)
    requires ReadyFor(w, s, data) && s.pooler.None?
    ensures Exec(w, s, run) == Some(s.(
      files := s.files[NextConfig := data][RuntimeConfig := data] - {NextConfig}, configStale := true))
  {
    run := TestWindow(w, s, [], data);
    run := Follow(w, s, run, RenameConfig(true));
    run := Follow(w, s, run, SignalConfig(false));
  }

  lemma ReadyAfter(w: World, s: State, run: seq<Action>, data: Bytes) returns (longer: seq<Action>)
    requires Exec(w, s, run).Some? && ReadyFor(w, Exec(w, s, run).value, data)
    ensures var t := Exec(w, s, run).value;
      var pooler := if Restarts(w, t.lastApplied, data) then Stop(t.pooler) else Hold(t.pooler, data);
      Exec(w, s, longer) == Some(t.(
        files := t.files[NextConfig := data][RuntimeConfig := data] - {NextConfig},
        configStale := false, lastApplied := data, pooler := pooler))
  {
    var t := Exec(w, s, run).value;
    longer := TestWindow(w, s, run, data);
    longer := Follow(w, s, longer, RenameConfig(true));
    longer := Follow(w, s, longer, SignalConfig(true));
    assert t.files[NextConfig := data][NextConfig] == data;
  }

  /** From startup: a config with other fixed fields is installed while no pooler can be
      signalled, a pooler starts on it, and a config with the applied fixed fields, itself
      possibly new, is then merely reloaded. */
  lemma ReturnWhilePendingBreaks(w: World, s: State, pending: Bytes, data: Bytes) returns (run: seq<Action>)
    requires Booted(w, s) && w.validate(s.lastApplied).Some?
    requires ReadyFor(w, s, pending) && Fixed(w, pending) != Fixed(w, s.lastApplied)
    requires ReadyFor(w, s, data) && Fixed(w, data) == Fixed(w, s.lastApplied)
    ensures Exec(w, s, run).Some? && !UpToDate(w, Exec(w, s, run).value)
  {
    RestartsOnFixedFields(w, s.lastApplied, data);
    run := InstallUnsignalled(w, s, pending);
    run := Follow(w, s, run, StartPooler);
    run := ReadyAfter(w, s, run, data);
  }

  /** From startup: an in-place upgrade is requested, its successor starts on the old config,
      and a config with other fixed fields then restarts the pooler that is handing over. */
  lemma RestartDuringHandoverBreaks(w: World, s: State, spec: Bytes, bin: Bytes, data: Bytes) returns (run: seq<Action>)
    requires Booted(w, s) && w.validate(s.lastApplied).Some?
    requires data != s.lastApplied && w.validate(data).Some? && Fixed(w, data) != Fixed(w, s.lastApplied)
    requires spec != s.lastSpec && Desired(w, spec) == Some(w.digest(bin))
    requires w.digest(s.files[RuntimeBinary]) != w.digest(bin)
    requires w.accepts(bin, s.lastApplied) && w.accepts(bin, data)
    ensures Exec(w, s, run).Some? && !UpToDate(w, Exec(w, s, run).value)
  {
    RestartsOnFixedFields(w, s.lastApplied, data);
    run := HandoverUnderWay(w, s, spec, bin);
    run := ReadyAfter(w, s, run, data);
    run := Follow(w, s, run, ExitPooler);
    run := Follow(w, s, run, AdoptPooler);
  }

  lemma HandoverUnderWay(w: World, s: State, spec: Bytes, bin: Bytes) returns (run: seq<Action>)
    requires Booted(w, s) && spec != s.lastSpec && Desired(w, spec) == Some(w.digest(bin))
    requires w.digest(s.files[RuntimeBinary]) != w.digest(bin) && w.accepts(bin, s.lastApplied)
    ensures Exec(w, s, run).Some?
    ensures var t := Exec(w, s, run).value;
      && t.f.FIdle? && t.lastApplied == s.lastApplied && !t.configStale
      && RuntimeConfig in t.files && t.files[RuntimeConfig] == s.lastApplied
      && RuntimeBinary in t.files && t.files[RuntimeBinary] == bin
      && t.pooler == Some(Pooler(s.lastApplied, s.lastApplied, false, true, Some(s.lastApplied), true))
  {
    run := Follow(w, s, [], StartPooler);
    run := BinaryUpgraded(w, s, run, spec, bin);
    run := Follow(w, s, run, SpawnSuccessor(false));
  }

  /** The binary watcher alone through a whole delivery. */
  lemma BinaryUpgraded(w: World, s: State, run: seq<Action>, spec: Bytes, bin: Bytes) returns (longer: seq<Action>)
    requires Exec(w, s, run).Some?
    requires DeliveryReady(w, Exec(w, s, run).value, spec, bin)
    ensures var t := Exec(w, s, run).value;
      Exec(w, s, longer) == Some(t.(
        files := t.files[NextBinary := bin][RuntimeBinary := bin] - {NextBinary}, binaryStale := false,
        demanded := t.demanded + {w.digest(bin)}, lastSpec := spec, pooler := Request(t.pooler)))
  {
    var t := Exec(w, s, run).value;
    longer := BinaryTested(w, s, run, spec, bin);
    longer := Follow(w, s, longer, SwapBinary(true));
    longer := Follow(w, s, longer, SignalBinary(true));
    assert t.files[NextBinary := bin][NextBinary] == bin;
  }

  /** An idle binary watcher would take up this spec, and this binary is what it demands. */
  ghost predicate DeliveryReady(w: World, t: State, spec: Bytes, bin: Bytes) {
    && t.b.BIdle? && spec != t.lastSpec && Desired(w, spec) == Some(w.digest(bin))
    && RuntimeBinary in t.files && w.digest(t.files[RuntimeBinary]) != w.digest(bin)
    && RuntimeConfig in t.files && w.accepts(bin, t.files[RuntimeConfig])
  }

  /** The binary watcher alone up to its passed test. */
  lemma BinaryTested(w: World, s: State, run: seq<Action>, spec: Bytes, bin: Bytes) returns (longer: seq<Action>)
    requires Exec(w, s, run).Some?
    requires DeliveryReady(w, Exec(w, s, run).value, spec, bin)
    ensures var t := Exec(w, s, run).value;
      Exec(w, s, longer) == Some(t.(
        files := t.files[NextBinary := bin], binaryStale := true, demanded := t.demanded + {w.digest(bin)},
        b := BTested(spec, w.digest(bin))))
  {
    longer := Follow(w, s, run, ReadSpec(spec, false, true));
    longer := Follow(w, s, longer, FetchBinary(Some(bin)));
    longer := Follow(w, s, longer, TestBinary(true));
  }

  /** With the gauge up it need not be: a config is renamed into place and not yet signalled,
      the upgrade is tested against that file, and the successor inherits the config the
      pooler still holds. */
  lemma UnsignalledConfigSpawnsUnaccepted(w: World, s: State, spec: Bytes, bin: Bytes, data: Bytes)
    returns (run: seq<Action>)
    requires Booted(w, s) && ReadyFor(w, s, data)
    requires spec != s.lastSpec && Desired(w, spec) == Some(w.digest(bin))
    requires w.digest(s.files[RuntimeBinary]) != w.digest(bin)
    requires w.accepts(bin, data) && !w.accepts(bin, s.lastApplied)
    ensures Exec(w, s, run).Some? && Enabled(w, Exec(w, s, run).value, SpawnSuccessor(false))
    ensures Accepted(w, Exec(w, s, run).value) && !SpawnAccepted(w, Exec(w, s, run).value, false)
  {
    run := Follow(w, s, [], StartPooler);
    run := TestWindow(w, s, run, data);
    run := Follow(w, s, run, RenameConfig(true));
    run := BinaryUpgraded(w, s, run, spec, bin);
  }

  /** From startup on a config that does not validate: every change away from it is a mere
      reload, so the pooler keeps whatever it started with. */
  lemma InvalidInitialConfigBreaks(w: World, s: State, data: Bytes) returns (run: seq<Action>)
    requires Booted(w, s) && w.validate(s.lastApplied).None? && ReadyFor(w, s, data)
    ensures Exec(w, s, run).Some? && !UpToDate(w, Exec(w, s, run).value)
  {
    run := Follow(w, s, [], StartPooler);
    run := ReadyAfter(w, s, run, data);
  }

  // ------------------------------------------------------------------- stale gauges

  /** A new config was read after the last one that was applied. */
  ghost predicate ReadSince(run: seq<Action>) {
    exists i | 0 <= i < |run| :: run[i].ReadConfig? && forall j | i < j < |run| :: run[j] != SignalConfig(true)
  }

  /** A config was installed and not applied after the last one that was applied. */
  ghost predicate RenamedSince(run: seq<Action>) {
    exists i | 0 <= i < |run| :: run[i] == RenameConfig(true) && forall j | i < j < |run| :: run[j] != SignalConfig(true)
  }

  lemma SinceSnoc(run: seq<Action>, a: Action)
    ensures ReadSince(run + [a]) <==> a.ReadConfig? || (ReadSince(run) && a != SignalConfig(true))
    ensures RenamedSince(run + [a]) <==> a == RenameConfig(true) || (RenamedSince(run) && a != SignalConfig(true))
  {
    var longer := run + [a];
    assert longer[|run|] == a && forall i | 0 <= i < |run| :: longer[i] == run[i];
    if ReadSince(run) && a != SignalConfig(true) {
      var i :| 0 <= i < |run| && run[i].ReadConfig? && forall j | i < j < |run| :: run[j] != SignalConfig(true);
      assert longer[i].ReadConfig?;
    }
    if RenamedSince(run) && a != SignalConfig(true) {
      var i :| 0 <= i < |run| && run[i] == RenameConfig(true) && forall j | i < j < |run| :: run[j] != SignalConfig(true);
      assert longer[i] == RenameConfig(true);
    }
  }

  ghost predicate ConfigGauge(w: World, s: State, read: bool, renamed: bool) {
    && StagedConfig(w, s) && RuntimeConfig in s.files
    && (!s.f.FIdle? ==> s.f.data != s.lastApplied)
    && (s.configStale <==> read) && (s.files[RuntimeConfig] == s.lastApplied <==> !renamed)
  }

  lemma StepMovesConfigGauge(w: World, s: State, a: Action, read: bool, renamed: bool)
    requires ConfigGauge(w, s, read, renamed) && Enabled(w, s, a)
    ensures ConfigGauge(w, Apply(w, s, a), a.ReadConfig? || (read && a != SignalConfig(true)),
                        a == RenameConfig(true) || (renamed && a != SignalConfig(true)))
  {
    StepKeepsStagedConfig(w, s, a);
  }

  /** Main result: in every reachable state the config gauge is up exactly when a config was
      read after the last applied one, and the applied config is the installed one exactly
      when none was renamed into place since.  So the gauge overstates, up with the applied
      config in place, exactly when configs were read since and none was installed. */
  lemma {:induction false} ConfigGaugeExactly(w: World, s: State, run: seq<Action>)
    requires Booted(w, s) && Exec(w, s, run).Some?
    ensures ConfigGauge(w, Exec(w, s, run).value, ReadSince(run), RenamedSince(run))
    decreases |run|
  {
    if run != [] {
      var before, a := run[..|run| - 1], run[|run| - 1];
      assert run == before + [a];
      ConfigGaugeExactly(w, s, before);
      SinceSnoc(before, a);
      StepMovesConfigGauge(w, Exec(w, s, before).value, a, ReadSince(before), RenamedSince(before));
    }
  }

  /** A spec is read that demands a binary the installed one was not found to be. */
  ghost predicate Raises(w: World, s: State, a: Action) {
    a.ReadSpec? && RuntimeBinary in s.files && Desired(w, a.spec).Some?
    && (!a.hashed || Desired(w, a.spec) != Some(w.digest(s.files[RuntimeBinary])))
  }

  /** An upgrade is signalled, or a spec is read that demands the installed binary. */
  ghost predicate Lowers(w: World, s: State, a: Action) {
    || a == SignalBinary(true)
    || (a.ReadSpec? && a.hashed && RuntimeBinary in s.files
        && Desired(w, a.spec) == Some(w.digest(s.files[RuntimeBinary])))
  }

  ghost predicate LowersAt(w: World, s: State, run: seq<Action>, i: nat)
    requires i < |run|
  {
    At(w, s, run, i).Some? && Lowers(w, At(w, s, run, i).value, run[i])
  }

  ghost predicate RaisesAt(w: World, s: State, run: seq<Action>, i: nat)
    requires i < |run|
  {
    At(w, s, run, i).Some? && Raises(w, At(w, s, run, i).value, run[i])
  }

  ghost predicate NotLoweredSince(w: World, s: State, run: seq<Action>, i: int)
    requires -1 <= i
  {
    forall j: nat | i < j < |run| :: !LowersAt(w, s, run, j)
  }

  ghost predicate RaisedSince(w: World, s: State, run: seq<Action>) {
    exists i: nat :: i < |run| && RaisesAt(w, s, run, i) && NotLoweredSince(w, s, run, i)
  }

  lemma PrefixEvents(w: World, s: State, run: seq<Action>, a: Action)
    ensures forall i: nat | i < |run| ::
      && (LowersAt(w, s, run + [a], i) <==> LowersAt(w, s, run, i))
      && (RaisesAt(w, s, run + [a], i) <==> RaisesAt(w, s, run, i))
    ensures (run + [a])[..|run|] == run
  {
    assert forall i | 0 <= i <= |run| :: (run + [a])[..i] == run[..i];
    assert run[..|run|] == run;
  }

  lemma LoweredSnoc(w: World, s: State, run: seq<Action>, a: Action, i: int)
    requires Exec(w, s, run).Some? && -1 <= i < |run|
    ensures NotLoweredSince(w, s, run + [a], i) <==>
      NotLoweredSince(w, s, run, i) && !Lowers(w, Exec(w, s, run).value, a)
  {
    PrefixEvents(w, s, run, a);
    var longer := run + [a];
    assert LowersAt(w, s, longer, |run|) <==> Lowers(w, Exec(w, s, run).value, a);
    if NotLoweredSince(w, s, longer, i) {
      forall j: nat | i < j < |run| ensures !LowersAt(w, s, run, j) {
        assert !LowersAt(w, s, longer, j);
      }
    }
  }

  lemma RaisedSnoc(w: World, s: State, run: seq<Action>, a: Action)
    requires Exec(w, s, run).Some?
    ensures RaisedSince(w, s, run + [a]) <==>
      var t := Exec(w, s, run).value;
      Raises(w, t, a) || (RaisedSince(w, s, run) && !Lowers(w, t, a))
  {
    PrefixEvents(w, s, run, a);
    var longer, t := run + [a], Exec(w, s, run).value;
    assert RaisesAt(w, s, longer, |run|) <==> Raises(w, t, a);
    if RaisedSince(w, s, longer) && !Raises(w, t, a) {
      var i: nat :| i < |longer| && RaisesAt(w, s, longer, i) && NotLoweredSince(w, s, longer, i);
      LoweredSnoc(w, s, run, a, i);
      assert RaisesAt(w, s, run, i);
    }
    if Raises(w, t, a) {
      assert NotLoweredSince(w, s, longer, |run|);
    } else if RaisedSince(w, s, run) && !Lowers(w, t, a) {
      var i: nat :| i < |run| && RaisesAt(w, s, run, i) && NotLoweredSince(w, s, run, i);
      LoweredSnoc(w, s, run, a, i);
      assert RaisesAt(w, s, longer, i);
    }
  }

  lemma StepMovesBinaryGauge(w: World, s: State, a: Action)
    requires StagedBinary(w, s) && Enabled(w, s, a)
    ensures Apply(w, s, a).binaryStale <==> Raises(w, s, a) || (s.binaryStale && !Lowers(w, s, a))
  {
  }

  /** Main result: in every reachable state the binary gauge is up exactly when, since the
      last upgrade signalled or spec found installed, a spec was read that demanded another
      binary, or the gauge has been up since startup. */
  lemma {:induction false} BinaryGaugeExactly(w: World, s: State, run: seq<Action>)
    requires Booted(w, s) && Exec(w, s, run).Some?
    ensures Exec(w, s, run).value.binaryStale <==>
      RaisedSince(w, s, run) || (s.binaryStale && NotLoweredSince(w, s, run, -1))
    decreases |run|
  {
    if run != [] {
      var before, a := run[..|run| - 1], run[|run| - 1];
      assert run == before + [a];
      BinaryGaugeExactly(w, s, before);
      InstalledBinaryAgrees(w, s, before);
      StepMovesBinaryGauge(w, Exec(w, s, before).value, a);
      RaisedSnoc(w, s, before, a);
      NeverLoweredSnoc(w, s, before, a);
    }
  }

  lemma NeverLoweredSnoc(w: World, s: State, run: seq<Action>, a: Action)
    requires Exec(w, s, run).Some?
    ensures NotLoweredSince(w, s, run + [a], -1) <==>
      NotLoweredSince(w, s, run, -1) && !Lowers(w, Exec(w, s, run).value, a)
  {
    PrefixEvents(w, s, run, a);
    var longer := run + [a];
    assert LowersAt(w, s, longer, |run|) <==> Lowers(w, Exec(w, s, run).value, a);
    if NotLoweredSince(w, s, longer, -1) {
      forall j: nat | j < |run| ensures !LowersAt(w, s, run, j) {
        assert !LowersAt(w, s, longer, j);
      }
    }
  }

  /** From startup: a config that does not validate is read and withdrawn before the next
      poll; the gauge stays up although the applied config is in place and running. */
  lemma ConfigGaugeMayOverstate(w: World, s: State, data: Bytes) returns (run: seq<Action>)
    requires Booted(w, s) && data != s.lastApplied && w.validate(data).None?
    ensures Exec(w, s, run) == Some(s.(configStale := true))
  {
    run := Follow(w, s, [], ReadConfig(data));
  }

  /** From startup: a spec whose download failed is withdrawn before the next poll; the
      gauge stays up although the installed binary is the one the applied spec demands. */
  lemma BinaryGaugeMayOverstate(w: World, s: State, spec: Bytes) returns (run: seq<Action>)
    requires Booted(w, s) && !s.binaryStale && Desired(w, s.lastSpec).Some?
    requires Desired(w, spec).Some? && Desired(w, spec) != Desired(w, s.lastSpec)
    ensures Exec(w, s, run).Some?
    ensures var t := Exec(w, s, run).value;
      t.b.BIdle? && t.binaryStale && t.lastSpec == s.lastSpec && RuntimeBinary in t.files
      && w.digest(t.files[RuntimeBinary]) == Desired(w, t.lastSpec).value
  {
    run := Follow(w, s, [], ReadSpec(spec, false, true));
    run := Follow(w, s, run, FetchBinary(None));
  }
}
