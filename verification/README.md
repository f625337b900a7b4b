# cnpg-pg-doorman: a verified model of the sidecar and the rendering controller

This project models three linked state machines of cnpg-pg-doorman and proves what they keep
over whole runs.

1. **The sidecar supervisor** (`Supervisor`, `Progress`, `ProcessModel`, `Drain`, `Scan`, `Duration`,
   `Handover`). One
   pg_doorman is started, restarted with capped backoff and handed over by SIGUSR2. `Supervisor`
   is a transition system in which the operating system, the clock, pg_doorman and the watchers
   move freely between any two steps the source takes under its mutex. `ProcessModel` is the
   source's `Process` with its mutable fields; every execution of its `RunWithRestart` is proved
   to be a run of that system, and `Progress` says what keeps that run going. `Drain` and `Scan` give the two polling loops against a clock
   and the process-table scan; `Duration` compares the two readers of a timeout; `Handover` says
   what scan and timeout mean for a handover.
2. **The artifact pipeline in the pod** (`Pod`, `Host`, `Watchers`, `Role`, `Config`). Two pollers
   share the runtime binary and the runtime config. `Pod` takes reading, writing a candidate,
   testing, renaming and signalling as separate steps. `Watchers` is the source's classes over a
   `Host` whose every file operation may fail; each `Check` records the steps it took as a run of
   `Pod`, and `Startup` ends in one of `Pod`'s initial states.
3. **The central render pipeline** (`Spec`, `AuthSecrets`, `ConfigGen`, `Credentials`,
   `Controller`, `RenderRuns`, `RenderOutcomes`, `RenderLaws`). `Controller` has the reconciler as a class over the
   objects of one namespace, proved equal to a store transformer; `RenderRuns` and `RenderLaws`
   prove what histories of reconciles and edits keep and which secrets a configuration depends on,
   `RenderOutcomes` how every reconcile ends and what it has put in place.

An operation that may fail for no reason of its own counts a fault when it does (`Host.faults`, the
failing calls of `Controller.Luck`); "without faults" above a claim means that none was counted.

Inputs of the model, rather than parts of it: whether a binary accepts a config, the file digest,
the parsers of the binary spec and of the config file, the outcome of every download, file
operation, API call and signal, map iteration order, random passwords, and time.

## What the model found

- **Single pooler.** It holds exactly under one step condition, `Supervisor.Timely`: an exit that
  leaves a successor alive must be consumed while the upgrade request is fresh, and a sweep must
  see every survivor. Both failures are reached from the beginning and go on to two poolers.
- **Timeouts.** Go's reader does not know the suffix `d`, upper case, padding, or bare numbers
  other than `0`, which the validator accepts. A handover that keeps within its drain is
  recognised exactly for the timeouts Go reads whose window, drain plus margin plus search, fits
  64 bits, and for those of at most 20 seconds. With any other accepted value, such as `1d`, there
  is a run from the beginning into two poolers. For `9223372036s` the wait itself is negative; for
  `9223372030s` it is exact and the window still wraps, so no exit is ever searched.
- **Successors.** The gate on a handover in flight does not cover a config that is renamed and not
  yet signalled: an upgrade is tested against that file, while the successor may start on the
  config the old process holds. With the config gauge down the spawned pair is an accepted one.
- **Joint acceptance.** With overlapping test-to-rename windows it holds for all runs exactly when
  acceptance is rectangular (`Pod.Rectangular`); otherwise there is an overlapping run that
  installs a pair no binary accepted.
- **Non-reloadable fields.** They can be lost, and `Pod.Steady` is the exact condition, step by
  step: a config that will merely be reloaded passes its test while the installed one has other
  fixed fields, or a restart is signalled while a survivor runs on other ones. Each case has a run
  from startup: a config installed without a delivered signal, an invalid initial config, and a
  restart during a handover. The early return at `internal/wrapper/filewatcher.go:85` is not
  needed for it: a new config with the applied fixed fields is enough.
- **Stale gauges.** Down, they tell the truth. Up, they say only that something was read since the
  last success: an invalid config or a failed download that is withdrawn before the next poll
  leaves the gauge up on an up-to-date pod until something else is applied.
- **Rendering is not always a fixpoint.** Later reconciles are idle exactly when every entry of the
  stored configuration carries what its reference reads now, and ref-less users are not mixed. It
  fails for a spec that reads a password from its own rendered secret
  (`<cluster>-doorman-config`, key `pg_doorman.yaml`), which the ownership check accepts because
  that secret carries the cluster label. It also fails for two entries under one key, such as user
  `b/user/c` of pool `a` and user `c` of pool `a/user/b`: each reconcile may store the password of
  the pool the map order visits last. Nothing in the schema forbids a slash in a pool name.
- **The Secret watch has a gap.** A configuration depends on the `admin-password` kept in the
  rendered secret when the spec has no `adminPasswordSecretRef`, and no watch maps that secret: its
  deletion changes the configuration of the next rendering and wakes nobody.
- **Status writes.** A failure at a generation that was never rendered rewrites the status on every
  reconcile, although nothing in it changes.
- **Map order** of the pools changes the outcome of `DefaultAuthSecretRefs` exactly when some
  ref-less pools have an empty user and the others all share one; the schema excludes that.
- The comment on `AdminPasswordSecretRef` (`api/v1alpha1/types.go:151-152`) says the wrapper
  generates a per-pod password; the controller generates one per cluster
  (`internal/controller/renderedconfig.go:355-373`), and the comment on the duration pattern
  (`internal/wrapper/validator.go:99-100`) calls the suffix case-insensitive, which Go's reader is
  not. The model follows the code.

## Model

The main results come first, in the order of the three machines; the operations and lemmas they
rest on follow, module by module.

| member | source | states |
|---|---|---|
| Supervisor.SinglePooler | internal/wrapper/process.go:385-451 | in every run with timely handovers no Start happens beside a live pooler; at most two poolers live, two only with the supervised one among them |
| Supervisor.TimelyExactlyWhenSafe | internal/wrapper/process.go:292-358 | a step is timely if and only if no timely continuation starts a second pooler |
| Supervisor.LateHandoverFromInit | internal/wrapper/process.go:292-313 | from the beginning, for every wait delay: a run whose drain outlasts the window by one tick, and the exit is taken for a crash while the successor lives |
| Supervisor.BlindSweepFromInit | internal/wrapper/process.go:328-358 | from the beginning, for every window that ever searches: a run whose search fails and whose sweep misses the live successor |
| Supervisor.TwoPoolersFromInit | internal/wrapper/process.go:385-451 | any such run from the beginning goes on to a Start beside a live pooler |
| ProcessModel.Process.RunWithRestart | internal/wrapper/process.go:385-451 | every execution is a run of the transition system ending in the actual state; it begins with a lap, every lap tries to start a pooler before anything else, a backoff that is over is followed at once by the next lap, and of two successive turns of the others at the second of which the loop could move it has moved in between; it stops only on cancellation, and never starts beside a live pooler if its handovers were timely |
| Progress.LoopCanMoveExactly | internal/wrapper/process.go:385-451 | "could move" is the exact thing: outside of Upgrade a step of the loop is enabled if and only if the loop waits for nothing, what it waits for has happened, or a search could find a successor |
| Supervisor.ExitAccounting | internal/wrapper/process.go:405-447 | over every run, observed exits equal adoptions plus restarts, and success plus failure upgrades never exceed accepted Upgrade calls |
| Supervisor.NoSkippedSearch | internal/wrapper/process.go:275-313 | an exit under SIGUSR2 is searched for a successor exactly when the accepted Upgrade is at most one handover window old, the window being the source's 64-bit sum |
| Supervisor.AmortisedRestartBound | internal/wrapper/process.go:374-447 | any mix of failed starts, crashes, uptimes and handovers: N attempts take at least 15 N - 45 seconds |
| Drain.WaitUntilGone | internal/wrapper/process.go:207-222 | a process that is gone is noticed within one poll interval; a live one is never given up before the whole drain after cancellation; either way the wait is over within two poll intervals of it |
| Drain.SearchSuccessor | internal/wrapper/process.go:328-348 | any successor visible by the deadline is found; uncancelled, the search ends within one interval of the deadline |
| Duration.ReadersCompared | internal/wrapper/validator.go:99-111 | Go reads an accepted value exactly when it is "0" or lower-case ms/s/m/h within range, and then as what pg_doorman takes it to mean |
| Duration.WaitDelayHonoursTimeout | internal/wrapper/process.go:82-93 | the wait is the denoted time plus five seconds if and only if Go reads the value and the sum fits, or the value denotes the default of ten; for a value Go does not read, and without a config, it is fifteen |
| Duration.AcceptedExactly | internal/wrapper/validator.go:99-112 | accepted if and only if empty or digits and a unit in any case with white space around them |
| Duration.WrittenDenotes | internal/wrapper/validator.go:99-112 | such a text denotes its number in ms, s, m, h or d, milliseconds without a unit |
| Handover.DrainsRecognisedExactly | internal/wrapper/process.go:292-313 | for every accepted timeout: handovers whose old process keeps within its drain are recognised if and only if Go reads the timeout and the 64-bit window holds it, or it is no longer than the default window |
| Handover.SweepOfSnapshotIsTimely | internal/wrapper/successor_linux.go:40-60 | the sweep of a snapshot that shows every live, killable pooler is timely and leaves nothing alive |
| Scan.RunsBinaryExactly | internal/wrapper/successor_linux.go:69-96 | the scan takes an entry for a pooler if and only if the process runs the binary as one; no shell, no validation run and nothing without a readable command line ever counts |
| Pod.EveryStartIsAccepted | internal/wrapper/startup.go:20-46 | from startup on, every Start launches a pair its binary accepted, over all runs with non-overlapping windows |
| Pod.OverlapHarmlessExactlyWhenRectangular | internal/wrapper/binarywatcher.go:107-128 | all runs keep the pair accepted, overlapping or not, if and only if acceptance is rectangular |
| Pod.InstalledBinaryAgrees | internal/wrapper/binarywatcher.go:75-134 | in every reachable state the installed binary is the image's or a demanded one, and with the gauge down has the digest of the applied spec |
| Pod.FixedFieldsUpToDate | internal/wrapper/filewatcher.go:79-128 | from startup, over every run of steady steps: with the gauge down, a pooler that keeps running started with the fixed fields of lastApplied |
| Pod.SteadyExactlyWhenSafe | internal/wrapper/filewatcher.go:100-125 | a step is steady if and only if every steady continuation keeps that true; unsteady are a passing test of a mere reload over other installed fixed fields, and a restart signal with a survivor on other ones |
| Pod.ConfigGaugeExactly | internal/wrapper/filewatcher.go:85-125 | in every reachable state the config gauge is up if and only if a config was read since the last applied one, and the applied config is the installed one if and only if none was renamed into place since |
| Pod.BinaryGaugeExactly | internal/wrapper/binarywatcher.go:75-134 | in every reachable state the binary gauge is up if and only if a spec demanding another binary was read since the last signalled upgrade or spec found installed, or it has been up since startup |
| Watchers.Startup | internal/wrapper/startup.go:20-46 | from whatever an earlier life of the container left: success ends in an initial state of the fine-grained system, with a demanded binary installed or the gauge up; and without faults startup succeeds if and only if the preferred binary, or in its place the image's, takes the mounted config |
| Watchers.PrepareFiles | internal/wrapper/startup.go:20-46 | without faults: which binary ends up installed, and which spec the watcher is seeded with, for every combination of installed, image, delivered and demanded binary |
| Watchers.FileWatcher.Check | internal/wrapper/filewatcher.go:79-128 | a run of the fine-grained system that begins by reading a new config; the gauge is down again only with the config valid, accepted, installed and signalled, by a restart exactly when fixed fields changed; without faults and with a supervised pooler that is if and only if the config is valid, its key converts and the installed binary accepts it |
| Watchers.BinaryWatcher.Check | internal/wrapper/binarywatcher.go:69-136 | a run of the fine-grained system that begins by reading a new spec; a demanded spec ends up applied or with the gauge up; with no handover in flight a binary not found installed is fetched next; without faults and with a supervised pooler the delivered binary is swapped in and the upgrade requested if and only if it is the demanded one, within the size limit, and accepts the live config |
| Role.DemotionIsHandledOnce | internal/wrapper/rolewatcher.go:52-76 | a poll attempts a restart if and only if it sees a demotion, a primary came before, and no attempt since could succeed |
| Role.OneSuccessPerDemotion | internal/wrapper/rolewatcher.go:52-76 | each run of non-primary observations after a primary gets exactly one successful restart if any attempt can succeed, otherwise none and one attempt per observation |
| AuthSecrets.OrderMattersExactly | internal/specs/authsecrets.go:26-43 | the order changes the result if and only if users are mixed and the non-empty ones agree |
| AuthSecrets.NonEmptyUsersDecide | internal/specs/authsecrets.go:22-46 | with non-empty users: success if and only if ref-less pools agree, explicit refs left alone, a secret asked for exactly when there is a ref-less pool |
| ConfigGen.AdmittedSpecRenders | api/v1alpha1/types.go:17-155 | the same from the stored spec, through reference defaulting in any order, defaults, generation and validation |
| ConfigGen.ConfigAsSpecified | internal/configgen/configgen.go:21-88 | from the raw spec: every set value stands in the field of its name, every unset one is its documented default, the listener and metrics ports, certificate pair, passwords and the local database are where they belong |
| Config.AcceptedConfigsExactly | internal/wrapper/validator.go:99-216 | accepted if and only if there is a pool, every size anywhere is at least one, every duration anywhere is empty or well written, and every pool lets somebody log in |
| Credentials.RoutingExactly | internal/configgen/configgen.go:21-93 | every entry carries its own secret's value under every store and map order if and only if entries sharing a key share the reference |
| RenderRuns.LastGoodRendering | internal/controller/renderedconfig.go:71-157 | over every history the stored config passes the validator and equals the latest successful rendering |
| RenderRuns.RenderingIsExact | internal/controller/renderedconfig.go:112-157 | a rendering is the configuration of the spec and secrets read, field by field, from secrets labelled with the cluster only, validated, with every entry's own value when keys are unambiguous and the kept or drawn admin password when the spec refers to none |
| RenderOutcomes.RenderingCarries | internal/controller/renderedconfig.go:107-157 | on the raw spec, with unambiguous keys: every user, auth query and the admin carry the value their own reference gives, in a secret of the cluster; an auth query without a reference reads the generated secret |
| RenderOutcomes.GeneratedPasswordReachesPools | internal/controller/renderedconfig.go:107-157 | end to end: a reconcile that ends Done and created the auth secret has stored a configuration in which every ref-less pool logs in as its own user with the password drawn |
| RenderOutcomes.AttemptExplained | internal/controller/renderedconfig.go:107-142 | without faults the reason is exactly the first obstacle, from plugin parameters to validation, and there is a rendering if and only if there is none |
| RenderOutcomes.OutcomeExactly | internal/controller/renderedconfig.go:71-157 | how a reconcile without faults ends, if and only if: gone, deleting, unused, not rendered for the attempt's reason, blocked by a foreign secret of the rendered name, or done |
| RenderRuns.GeneratedPasswordsPersist | internal/controller/renderedconfig.go:297-432 | across any number of reconciles a persisted admin password and an existing auth secret never change |
| RenderRuns.FinalizerHoldsUntilUnused | internal/controller/renderedconfig.go:194-229 | an object with the finalizer stays, through deletions and reconciles, until one of its reconciles sees its cluster absent or naming another config |
| RenderRuns.FinalizerTracksUse | internal/controller/renderedconfig.go:93-100 | after a reconcile whose reads and patch succeed, a non-deleting object has the finalizer if and only if it is in use |
| RenderLaws.FixpointExactly | internal/controller/renderedconfig.go:71-157 | after a success, no further faultless reconcile writes, whatever the map orders, if and only if ref-less users are not mixed and every entry of the stored configuration carries what its reference reads now |
| RenderLaws.FixpointBeforehand | internal/controller/renderedconfig.go:71-157 | from the spec and the store before: where the rendered secret is referred to for its admin password only, or not at all, later reconciles are idle if and only if users are not mixed and entries sharing a key read the same |
| RenderLaws.RenderingIsNonInterfering | internal/controller/renderedconfig.go:261-290 | two stores that agree on the referenced secrets and the persisted admin password admit the same attempts to render, whatever else differs |
| RenderLaws.UnwatchedSecretIsHarmless | internal/controller/renderedconfig.go:468-491 | so a change to any secret that does not wake the object leaves every attempt the same, unless it changes the persisted admin password |
| RenderLaws.RenderedSecretMattersExactly | internal/controller/renderedconfig.go:355-373 | two stores that differ in the rendered secret, or where one lost it, render the same if and only if the spec brings its own admin password or both come to the same one |
| Controller.RenderedConfigReconciler.Reconcile | internal/controller/renderedconfig.go:71-157 | every execution, with any calls failing, is one step of the store transformer |
| Supervisor.StepKeepsWired | internal/wrapper/process.go:275-437 | in any state of any run, timely or not, the fields point at the pooler the loop supervises and a delivered SIGUSR2 is covered by the upgrade flag |
| Supervisor.StepKeepsTidy | internal/wrapper/process.go:275-451 | every timely step keeps: only the supervised pooler and its one successor live, and outside a wait or a search nothing lives |
| Supervisor.UntimelyStepStartsSecondPooler | internal/wrapper/process.go:303-358 | any untimely step can continue, timely from then on, to a Start beside a live pooler |
| Supervisor.StepKeepsBalanced | internal/wrapper/process.go:405-447 | every step keeps the balance between exits, adoptions, restarts and upgrade outcomes |
| Supervisor.StepKeepsPaced | internal/wrapper/process.go:374-447 | the potential argument step by step: backoff is min(2^k, 30 s) since the last reset, and time owed grows by 15 s an attempt less the credit of the backoff |
| Supervisor.BoundIsTight | internal/wrapper/process.go:390-401 | four failed starts attain the bound exactly |
| Supervisor.DelaySchedule | internal/wrapper/process.go:373-379 | the delays in a row are 1, 2, 4, 8, 16 and then always 30 seconds; an uptime of a minute starts over |
| Progress.PromptAt | internal/wrapper/process.go:385-451 | read turn by turn: between two turns of the others, at the second of which the loop could move, lies a step of the loop |
| Progress.LapsAreRecorded | internal/wrapper/process.go:385-403 | a run that leaves every loop head at once begins with a lap, starts in every lap and follows every backoff with the next one |
| Supervisor.ChildKeepsItsPid | internal/wrapper/process.go:120-134 | a direct child keeps its pid for every reader, dead or alive, through any run until the supervisor starts or adopts something else |
| Supervisor.StaleRequestStaysStale | internal/wrapper/process.go:292-324 | a request that no longer explains an exit never does again, for this or any shorter window, until another upgrade is signalled |
| ProcessModel.Process.SignalSupervised | internal/wrapper/process.go:138-144 | succeeds if and only if there is a supervised process, alive or unreaped; one signal, or none |
| ProcessModel.Process.Restart | internal/wrapper/process.go:259-270 | SIGTERM to the supervised process; fails if and only if there is none to reach |
| ProcessModel.Process.Reload | internal/wrapper/process.go:360-371 | SIGHUP to the supervised process; fails if and only if there is none to reach |
| ProcessModel.Process.KillAdopted | internal/wrapper/process.go:244-254 | signals only a pid that was the adopted one when checked and is alive at the kill, with the operating system moving between the two |
| ProcessModel.Process.TerminateIfAdopted | internal/wrapper/process.go:227-240 | SIGTERM to the adopted pooler, and the pid the delayed SIGKILL is armed for |
| ProcessModel.Process.SendUpgradeSignal | internal/wrapper/process.go:279-281 | SIGUSR2 with the mutex held: delivered if and only if there is a process to reach, and then the section is still open |
| ProcessModel.Process.Upgrade | internal/wrapper/process.go:275-286 | signal and flag in one critical section; succeeds if and only if there is a process to reach, and then the request is stamped with the current time and counted, otherwise nothing changes |
| ProcessModel.Process.ConsumeUpgradeRequest | internal/wrapper/process.go:292-313 | answers freshness for the timeout in the runtime config at that moment, drops the request either way, and decides between search and restart |
| ProcessModel.Process.Start | internal/wrapper/process.go:95-117 | succeeds if and only if the fork does: the new pid supervised and adoptedPid cleared, or no process left behind |
| ProcessModel.Process.WaitCtx | internal/wrapper/process.go:152-173 | returns only when the supervised process is gone or the run is cancelled, with the adopted pid forgotten; an adopted pooler still alive then has been sent SIGTERM |
| ProcessModel.Process.WaitPid | internal/wrapper/process.go:178-222 | waits exactly until the process is gone or the run cancelled |
| ProcessModel.Process.TakeOver | internal/wrapper/process.go:331-337 | after a scan hit, other steps may intervene; then the found process is the supervised one |
| ProcessModel.Process.AdoptSuccessor | internal/wrapper/process.go:328-348 | one scan before every wait; what is adopted is what the first scan showed that showed anything but the old process; a failed search has passed its deadline or was cancelled, and its last scan, at that time, showed nothing |
| ProcessModel.Process.SweepStrays | internal/wrapper/process.go:354-358 | exactly the poolers the scan shows are killed; none is left if it shows them all |
| ProcessModel.Process.RetryLater | internal/wrapper/process.go:394-401 | after a failed start waits the old backoff in full and doubles it afterwards |
| ProcessModel.Process.BackOff | internal/wrapper/process.go:439-447 | after a lost pooler counts the restart, sets the backoff by uptime and waits it out in full |
| ProcessModel.Process.AwaitExit | internal/wrapper/process.go:410-437 | tells cancellation, handover and loss apart; a handover restarts the uptime and keeps the backoff, and the last signal sent is SIGHUP to the successor if it can be reached |
| ProcessModel.Process.TellExit | internal/wrapper/process.go:414-437 | the decision after an exit: a real one, a handover whose successor is adopted and told to reload, or a failed handover after the sweep |
| ProcessModel.Process.Lap | internal/wrapper/process.go:388-449 | one lap: exactly one start attempt, and then the wait its outcome earns |
| ProcessModel.Process.Supervise | internal/wrapper/process.go:407-449 | follows any chain of handovers and leaves only for the backoff or the end |
| ProcessModel.Process.DrainExpires | internal/wrapper/process.go:237-239 | the delayed SIGKILL reaches the process it was armed for while that is still the supervised one, and never another |
| ProcessModel.Process.UpgradeUnlessInFlight | internal/wrapper/binarywatcher.go:100-132 | the watcher's gate: while a handover is expected nothing is signalled and nothing changes; otherwise it fails only when there is no process to reach |
| Handover.UncoveredTimeoutLosesHandover | internal/wrapper/process.go:82-93 | for every other accepted timeout a run from the beginning ends in two poolers although the old process kept within its drain |
| Handover.OneDayLosesHandover | internal/wrapper/validator.go:99-111 | the accepted timeout "1d" is one of them |
| Handover.WrappedWindowNeverSearches | internal/wrapper/process.go:292-298 | where the window wraps no request is ever fresh, even while the wait itself is exact |
| Handover.ExactWaitMayStillWrap | internal/wrapper/process.go:292-298 | the accepted "9223372030s" has an exact wait and a wrapped window |
| Scan.CmdlineReadsBack | internal/wrapper/successor_linux.go:90-96 | the kernel's command line reads back as the argument vector the process was started with |
| Scan.CmdlineReadsExactly | internal/wrapper/successor_linux.go:90-96 | for any bytes: the vector read is the one whose kernel rendering the command line is, with or without its last NUL |
| Scan.PoolersAndValidatorsToldApart | internal/wrapper/successor_linux.go:62-96 | for a process started with an argument vector: taken for a pooler if and only if no validation flag is in the vector and the exe, as it is or marked deleted, or one of the first two arguments is the binary |
| Scan.SnapshotReachesEveryPooler | internal/wrapper/successor_linux.go:40-88 | a snapshot that shows every live pooler makes each a stray for the sweep, which is the sweep half of a timely handover |
| Scan.FindSuccessorPid | internal/wrapper/successor_linux.go:16-32 | the first pooler in directory order that is neither excluded nor the wrapper, or none if and only if there is none; what is returned runs the binary |
| Scan.KillStrays | internal/wrapper/successor_linux.go:40-60 | the killed pids are exactly the other processes that run the binary as a pooler and that the signal reaches |
| Duration.HugeTimeoutTurnsNegative | internal/wrapper/process.go:82-93 | values within the margin of the 64-bit limit give a negative wait |
| Duration.PatternIsTrimmed | internal/wrapper/validator.go:101-111 | a lower-case value matching the pattern is its own trimmed and lower-cased form |
| Text.TrimExactly | internal/wrapper/validator.go:107 | trimming gives the text without any of the white space around it, and nothing less |
| Duration.LargestTimeoutTurnsNegative | internal/wrapper/process.go:82-93 | the accepted value "9223372036s" gives a negative wait |
| Pod.StepKeepsStagedConfig | internal/wrapper/filewatcher.go:79-152 | at every step the candidate is the config being applied and the gauge is up while the watcher is busy |
| Pod.StepKeepsStagedBinary | internal/wrapper/binarywatcher.go:69-136 | at every step the candidate binary has the demanded digest and the gauge is up while the watcher is busy |
| Pod.StepKeepsJointlyTested | internal/wrapper/binarywatcher.go:107-128 | steps of non-overlapping windows keep the installed pair accepted and each tested candidate accepted against the partner in place |
| Pod.OverlapBreaks | internal/wrapper/filewatcher.go:134-152 | the overlapping run: both tests pass against the old partner, both renames follow, the pair is not accepted |
| Pod.SpawnIsAccepted | internal/wrapper/process.go:315-324 | with separate windows a successor is spawned on an accepted pair whenever it reads the installed config itself or the config gauge is down |
| Pod.UnsignalledConfigSpawnsUnaccepted | internal/wrapper/binarywatcher.go:117-132 | from startup: with a config renamed and not yet signalled, a successor that inherits the held config is spawned on an unaccepted pair |
| Pod.StepKeepsCurrent | internal/wrapper/filewatcher.go:79-128 | the invariant tying installed, applied and running fixed fields, valid or not, through every steady step |
| Pod.ReturnWhilePendingBreaks | internal/wrapper/filewatcher.go:85-122 | from startup: a config installed but not signalled, a Start, and a config with the applied fixed fields end in a pooler on other ones |
| Pod.RestartDuringHandoverBreaks | internal/wrapper/process.go:259-270 | from startup: a restart sent while the successor runs on the old config ends with that successor adopted |
| Pod.InvalidInitialConfigBreaks | internal/wrapper/filewatcher.go:100-103 | from startup on an invalid config: the first change is a mere reload |
| Pod.ConfigGaugeMayOverstate | internal/wrapper/filewatcher.go:85-98 | from startup: an invalid config read and withdrawn leaves the gauge up with the applied config in place |
| Pod.BinaryGaugeMayOverstate | internal/wrapper/binarywatcher.go:75-111 | from startup: a withdrawn spec whose download failed leaves the gauge up on an up-to-date binary |
| Host.Host.TestConfig | internal/wrapper/validator.go:32-42 | passes only a config the binary on disk accepts; any other failure is a fault |
| Watchers.BinarySyncer.AtomicInstall | internal/wrapper/binarysync.go:169-203 | the target is replaced whole or not at all, at every intermediate file operation |
| Watchers.BinarySyncer.InstallFromImage | internal/wrapper/binarysync.go:124-141 | success leaves the image's digest at the runtime path, and the wanted one if given; without faults it fails only on another wanted digest |
| Watchers.BinarySyncer.Download | internal/wrapper/binarysync.go:145-204 | success leaves the answer of the endpoint at the target; without faults that is if and only if it has the wanted digest and is no larger than 256 MiB |
| Watchers.BinarySyncer.EnsureAtStartup | internal/wrapper/binarysync.go:60-103 | ends on the demanded binary with the spec as seed, or on the image with the gauge up and no seed; without faults the former if and only if the binary is installed, in the image or delivered |
| Watchers.BinarySyncer.Obtain | internal/wrapper/binarysync.go:85-103 | the order of preference: the installed binary, the image's, the delivered one, and the image's as fallback |
| Watchers.BinarySyncer.RevertToImage | internal/wrapper/binarysync.go:108-120 | success leaves the image's digest; without faults it succeeds, and changes something if and only if another binary was installed |
| Watchers.FileWatcher.AtomicWrite | internal/wrapper/validator.go:219-245 | the candidate holds the data or nothing changed, and no binary in place is touched |
| Watchers.FileWatcher.Materialize | internal/wrapper/filewatcher.go:134-152 | the runtime config is replaced only after the installed binary accepted that very content; without faults if and only if the key converts and it accepts |
| Watchers.FileWatcher.ApplyInitial | internal/wrapper/filewatcher.go:52-62 | success installs and records an accepted config; failure leaves lastApplied; without faults success if and only if the mounted config works with the installed binary |
| Watchers.BinaryWatcher.Deliver | internal/wrapper/binarywatcher.go:107-128 | swaps only a binary of the wanted digest that accepted the live config; without faults every such one |
| Watchers.ApplyInitialConfig | internal/wrapper/startup.go:20-46 | success leaves an accepted pair; without faults it succeeds if and only if the installed binary, or on a second attempt the image's, takes the config; after a revert the gauge is up and the seed gone |
| Watchers.BinaryWatcher.Pursue | internal/wrapper/binarywatcher.go:93-134 | records the read and, unless deferred or found installed, the fetch; advances only to a binary found installed or delivered and signalled; a failed hash counts as another binary |
| Config.RestartExactlyOnFixedFields | internal/wrapper/restart.go:7-19 | a process restart is needed if and only if one of worker_threads, max_connections, host, port differs |
| Config.AcceptedConfigServes | internal/wrapper/validator.go:120-216 | an accepted configuration has a pool, lets somebody log in through every pool, has no empty user password, and stays accepted when one of several pools is dropped |
| Role.RoleWatcher.CheckRole | internal/wrapper/rolewatcher.go:52-76 | the remembered role and the attempts of one poll, with the roll-back of a failed restart |
| Role.SightExactly | internal/wrapper/rolewatcher.go:52-60 | the primary is seen if and only if the file is that word with white space around it, nothing if and only if it is unreadable or blank |
| Role.RoleWatcher.Run | internal/wrapper/rolewatcher.go:38-50 | attempts and restarts over any sequence of polls |
| Role.NoPrimaryNoAttempt | internal/wrapper/rolewatcher.go:58-67 | observations before any primary attempt nothing |
| Spec.DefaultsFillOnlyGaps | api/v1alpha1/defaults.go:24-83 | every field is set afterwards: a set field keeps its value, an unset one has its documented default, by name; names and references are untouched |
| Spec.DefaultsAreIdempotent | api/v1alpha1/defaults.go:24-83 | defaulting again changes nothing |
| Spec.PgDoormanSpec.ApplyDefaults | api/v1alpha1/defaults.go:24-83 | the in-place traversal, in any map order, ends in the one defaulted spec |
| AuthSecrets.VisitPoolsExactly | internal/specs/authsecrets.go:22-46 | for every order: success if and only if no pool contradicts an earlier one, and then exactly the ref-less pools are filled |
| AuthSecrets.OrderIrrelevant | internal/specs/authsecrets.go:22-46 | unless empty and non-empty users mix, every iteration order gives the same result |
| AuthSecrets.DefaultingRefsTwice | internal/specs/authsecrets.go:22-46 | idempotent under every pair of orders, the second time asking for no secret |
| AuthSecrets.DefaultAuthSecretRefs | internal/specs/authsecrets.go:22-46 | the loop on a deep copy, stopping at the first conflict, computes the result of the order it met and leaves its argument alone |
| AuthSecrets.CollectSecretNames | internal/specs/secrets.go:8-33 | each secret some entry refers to, once, and no other |
| ConfigGen.KeysAreInjective | internal/configgen/configgen.go:91-93 | with slash-free pool names and unique usernames no two entries share a password key |
| ConfigGen.AdminKeyIsItsOwn | internal/configgen/configgen.go:10-11 | whatever the names, the admin key is no entry's key |
| ConfigGen.SlashesCollide | internal/configgen/configgen.go:91-93 | two entries of pools "a" and "a/user/b" that share a key |
| ConfigGen.EnsureAdminPassword | internal/configgen/configgen.go:99-108 | adds the fallback only without an admin password and changes no other key |
| ConfigGen.Generate | internal/configgen/configgen.go:21-88 | the configuration of the raw spec with its defaults, the same in any order of the pools, from a defaulted copy |
| ConfigGen.EntriesReadTheirKey | internal/configgen/configgen.go:56-85 | every entry of the configuration carries the password under its own key |
| ConfigGen.AdmissionImpliesRendering | internal/wrapper/validator.go:120-216 | for a spec meeting the schema the configuration is valid if and only if every static user has a non-empty password |
| Credentials.ResolvePasswords | internal/credentials/credentials.go:37-73 | succeeds if and only if every reference can be read; every key holds the value of some entry with that key |
| Credentials.CleanNamesRoute | internal/configgen/configgen.go:56-93 | slash-free pool names and unique usernames are enough for correct routing |
| Credentials.SamePasswords | internal/credentials/credentials.go:37-73 | stores agreeing on the referenced secrets resolve to the same maps |
| Credentials.ResolutionIsUnique | internal/credentials/credentials.go:43-70 | with one reference per key, map order does not matter |
| Credentials.RotationReachesItsEntries | internal/credentials/credentials.go:18-73 | rotating one password changes exactly the entries that refer to it, to the new value |
| Credentials.UnlabelledSecretStopsResolution | internal/credentials/credentials.go:18-34 | taking the cluster label off a referenced secret stops resolution |
| Controller.RenderedConfigReconciler.EnsureFinalizer | internal/controller/renderedconfig.go:213-229 | the finalizer follows the reference, by one patch or none |
| Controller.RenderedConfigReconciler.ReconcileDeletion | internal/controller/renderedconfig.go:194-210 | releases the finalizer only when unused; the object goes with its last finalizer |
| Controller.RenderedConfigReconciler.EnsureGeneratedAuthSecret | internal/controller/renderedconfig.go:297-343 | creates the secret only where there is none, with the cluster's label, the user and the password drawn, and never changes an existing one |
| RenderOutcomes.CreatedSecretHolds | internal/controller/renderedconfig.go:297-343 | whenever an attempt creates a secret: the cluster's label, the drawn password, and the one user of all ref-less pools that name one |
| Controller.RenderedConfigReconciler.ValidateSecretOwnership | internal/controller/renderedconfig.go:236-259 | passes exactly when every referenced secret carries the cluster's label |
| Controller.RenderedConfigReconciler.Render | internal/controller/renderedconfig.go:261-290 | a rendering exactly when every reference reads and the result validates |
| Controller.RenderedConfigReconciler.UpsertSecret | internal/controller/renderedconfig.go:375-432 | one write or none; no secret but the rendered one changes |
| Controller.RenderedConfigReconciler.TryRender | internal/controller/renderedconfig.go:107-142 | from reference defaulting to a rendering, with the reason where it stops |
| Controller.RenderedConfigReconciler.RenderAndRecord | internal/controller/renderedconfig.go:107-157 | stores a rendering and says so, or says why there is none |
| Controller.RenderedConfigReconciler.MapSecret | internal/controller/renderedconfig.go:468-491 | enqueues exactly the objects whose normalized spec, or raw spec on conflict, refers to the secret |
| RenderRuns.OnlyTheRenderedSecretChanges | internal/controller/renderedconfig.go:71-157 | whichever call or check stops a reconcile, existing secrets stay; a success changes only its cluster's rendered secret, which then holds the rendering |
| RenderRuns.RenderedTrueOnlyWhenDone | internal/controller/renderedconfig.go:161-190 | the status after every reconcile: the success and its generation exactly after a stored rendering, the reason, message and the last rendered generation after a failed attempt, and nothing new otherwise |
| RenderRuns.DoneSettles | internal/controller/renderedconfig.go:149-157 | after a success the rendered secret holds config and admin password, and the binary spec exactly as the cluster opted in; every other secret is as the attempt read it, and condition and finalizer are in place |
| RenderOutcomes.DonePutsInPlace | internal/controller/renderedconfig.go:375-432 | after Done: rendering and admin password under their keys, the created secret under its name, and the binary spec if and only if the cluster opted in and one is offered |
| RenderRuns.IdleExactly | internal/controller/renderedconfig.go:375-432 | in a settled store a reconcile is idle if and only if its attempt gives the same rendering and creates nothing |
| RenderRuns.AdminIsKept | internal/controller/renderedconfig.go:355-373 | the admin password of a rendering is the persisted one if there is one, otherwise the one drawn, and never empty |
| RenderRuns.NotingTwice | internal/controller/renderedconfig.go:161-190 | saying the same again writes nothing if and only if it is a success or the current generation was rendered; other failures rewrite the status every time |
| RenderLaws.SecondAttempt | internal/controller/renderedconfig.go:261-290 | when the stored configuration is current, every second attempt renders it again and creates nothing |
| RenderLaws.FixpointByReferences | internal/controller/renderedconfig.go:71-157 | with any self-reads under keys of their own: users not mixed, entries sharing a key read the same, and self-reads read what they read before |
| RenderLaws.SelfReadsByKey | internal/controller/renderedconfig.go:423-431 | when the rendered secret was rewritten, a self-read of the admin password survives if it was set, of the binary spec if it is the one offered, of any other key never |
| RenderLaws.DeletionChangesConfig | internal/controller/renderedconfig.go:355-373 | deleting the rendered secret changes the configuration if and only if the spec does not bring its own admin password, unless the draw repeats the lost one |
| RenderLaws.SelfReadingNeverRests | internal/controller/renderedconfig.go:236-290 | a spec that reads its own configuration as a password never reaches a fixpoint |
| RenderLaws.SharedKeyNeverRests | internal/credentials/credentials.go:45-61 | two entries under one key that read differently keep the stored configuration changing with the map order |

## Left out

- HTTP, TLS, gRPC and the plugin hooks: only the outcome of a download is kept, failure or content with the wanted digest.
- YAML, JSON, PEM and X.509: a lossless file format and an uninterpreted digest; conversion of the TLS key is a step that may fail.
- `/proc`, `wait4`, the subreaper and signal delivery: environment steps. Pids are not reused.
- pg_doorman itself: a handover spawns one successor, an aborted one leaves none, and a pooler told to stop ignores SIGUSR2.
- The watchers' classes run a whole `Check` at a time; interleavings of their steps are the subject of `Pod`.
- Atomicity of a reconcile: user edits fall between reconciles, not between two API calls of one; a failed call has no effect.
- Stale caches and conflicts of the API server: a read gives the current object, visible through its label.
- Error texts: a condition carries an arbitrary message on failure; which of several errors is reported first is not modelled.
- `CollectSecretVersions`, which no production code calls; service and role builders, the operator, the lifecycle hooks and `internal/config`, whose result is the `Cluster` value here.
- Metrics other than the two stale gauges and the counters of `Tally`; logging and events; poll intervals of the watchers.
- Reading of the binary and the config by a starting pooler is one step; both are in place by then.
- Supervisor.NoSkippedSearch: an adopted process that died and is not yet reaped could still be signalled; the model lets a signal reach an unreaped direct child only.
- ProcessModel.Process.WaitCtx: a cancelled wait ends right after the SIGTERM here; the drain an adopted process is granted is the subject of `Drain.WaitUntilGone`, and the SIGTERM to a direct child is os/exec's.
- ProcessModel.Process.SweepStrays: the SIGKILLs of the sweep are not in the log of signals, which holds those to the supervised process.
- ProcessModel.Process.RunWithRestart: a turn of the others is any finite number of their steps, so how much time one turn takes is not bounded; the bounds in time are in `Drain` and `Supervisor.AmortisedRestartBound`.
- ProcessModel.Process.TerminateIfAdopted: the timer is not run; what it does when it expires is `DrainExpires`.
- ProcessModel.Process.AdoptSuccessor: says what was found and when a search fails; that a visible successor is found in time is `Drain.SearchSuccessor`, which follows the same loop against a clock.
- Duration.ReadersCompared: values with a dot go to an arbitrary reader, because the validator rejects every one of them.
- Drain.WaitUntilGone: follows the loop for any finite number of polls and bounds oversleeping by a parameter; the drain is read once, as the source passes it in.
- RenderLaws.FixpointExactly: the file format loses nothing, and the status update of the successful reconcile went through; `SelfReadingNeverRests` also supposes that a file is longer than any password in it.
- RenderLaws.FixpointByReferences: supposes that an entry reading the rendered secret shares its key with no other reference, and `FixpointBeforehand` that only its admin password is read; `FixpointExactly` has neither premise.
- ProcessModel.Process.KillAdopted: the loop does not move between the check and the kill, so a pid cleared or replaced in that gap is not covered.
- Supervisor.Fresh: the age of a request is an unbounded difference; a clock difference of centuries, which Go saturates, is not modelled.
- RenderLaws.UnwatchedSecretIsHarmless: supposes that ref-less users are not mixed, which the schema guarantees, because the watch and the reconcile may meet different orders.
- RenderRuns.LastGoodRendering: nobody else writes the rendered secret, which may be deleted at any time.
- RenderRuns.FinalizerHoldsUntilUnused: users do not remove the in-use finalizer by hand.
- Watchers.Startup: the gauges start at zero and an empty binary spec does not parse.
