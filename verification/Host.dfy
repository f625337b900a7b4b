/** The files, gauges and pooler of one pod as mutable state, with the file operations the
    wrapper is made of.  Every operation may fail; `log` keeps the named files after each
    one, so a claim about all of `log` covers a crash between any two operations, and
    `faults` counts the failures that the operation's input does not explain. */
module Host {
  import opened Wrappers
  import opened Pod

  function Fault(failed: bool): nat { if failed then 1 else 0 }

  class Host {
    const w: World
    var files: map<Path, Bytes>
    var scratch: Bytes  // the temporary file every write goes to first
    var configStale: bool
    var binaryStale: bool
    var pooler: Option<Pooler>
    ghost var demanded: set<Digest>
    ghost var log: seq<map<Path, Bytes>>
    ghost var faults: nat
    ghost var trace: seq<State>
    ghost var run: seq<Action>
    ghost var s: State

    /** `trace` and `run` are a run of the transition system that ends in `s`. */
    ghost predicate Recorded()
      reads `trace, `run, `s
    {
      IsTrace(w, trace, run) && trace[|run|] == s
    }

    /** The recorded run of the transition system ends in exactly this pod. */
    ghost predicate Tracks()
      reads this
    {
      && Recorded()
      && s.files == files && s.configStale == configStale && s.binaryStale == binaryStale
      && s.pooler == pooler
    }

    constructor (w: World, image: Bytes)
      ensures this.w == w && files == map[ImageBinary := image] && !configStale && !binaryStale
      ensures pooler.None? && demanded == {} && log == [files]
    {
      this.w, this.files, this.pooler := w, map[ImageBinary := image], None;
      this.scratch, this.configStale, this.binaryStale := "", false, false;
      this.demanded, this.log, this.faults := {}, [map[ImageBinary := image]], 0;
    }

    /** Starts recording from a state the pod is in. */
    ghost method BeginRun(start: State)
      modifies `trace, `run, `s
      ensures Recorded() && run == [] && s == start && trace == [start]
    {
      trace, run, s := [start], [], start;
    }

    ghost method Record(a: Action)
      requires Recorded() && Enabled(w, s, a)
      modifies `trace, `run, `s
      ensures Recorded() && s == Apply(w, old(s), a)
      ensures run == old(run) + [a] && old(trace) <= trace
    {
      run := run + [a];
      s := Apply(w, s, a);
      trace := trace + [s];
    }

    // ------------------------------------------------------------- file operations

    /** Writes the temporary file; the content is complete only when this succeeds. */
    method WriteScratch(data: Bytes) returns (ok: bool)
      modifies `scratch, `log, `faults
      ensures log == old(log) + [files] && (ok ==> scratch == data)
      ensures faults == old(faults) + Fault(!ok)
    {
      ok := *;
      var part: Bytes := *;
      scratch := if ok then data else part;
      log := log + [files];
      faults := faults + Fault(!ok);
    }

    method RenameScratch(target: Path) returns (ok: bool)
      modifies `files, `log, `faults
      ensures log == old(log) + [files]
      ensures files == if ok then old(files)[target := scratch] else old(files)
      ensures faults == old(faults) + Fault(!ok)
    {
      ok := *;
      if ok {
        files := files[target := scratch];
      }
      log := log + [files];
      faults := faults + Fault(!ok);
    }

    method Rename(source: Path, target: Path) returns (ok: bool)
      requires source in files && source != target
      modifies `files, `log, `faults
      ensures log == old(log) + [files]
      ensures files == if ok then old(files)[target := old(files)[source]] - {source} else old(files)
      ensures faults == old(faults) + Fault(!ok)
    {
      ok := *;
      if ok {
        files := files[target := files[source]] - {source};
      }
      log := log + [files];
      faults := faults + Fault(!ok);
    }

    method Remove(path: Path)
      modifies `files, `log
      ensures log == old(log) + [files]
      ensures files == old(files) - {path}
    {
      files := files - {path};
      log := log + [files];
    }

    /** The digest of a file; reading it may fail. */
    method FileSHA256(path: Path) returns (digest: Option<Digest>)
      modifies `faults
      ensures digest.Some? ==> path in files && digest.value == w.digest(files[path])
      ensures faults == old(faults) + Fault(path in files && digest.None?)
    {
      var readable: bool := *;
      digest := if readable && path in files then Some(w.digest(files[path])) else None;
      faults := faults + Fault(path in files && digest.None?);
    }

    /** `binary <config> --test-config`; it may also fail for other reasons. */
    method TestConfig(binary: Path, config: Path) returns (ok: bool)
      requires config in files
      modifies `faults
      ensures ok ==> binary in files && w.accepts(files[binary], files[config])
      ensures faults == old(faults) + Fault(!ok && binary in files && w.accepts(files[binary], files[config]))
    {
      ok := *;
      ok := ok && binary in files && w.accepts(files[binary], files[config]);
      faults := faults + Fault(!ok && binary in files && w.accepts(files[binary], files[config]));
    }

    // ------------------------------------------------------ signals to the pooler

    /** kill(2) on the supervised pid: a live pooler is reached; without one the signal may
        still go to an unreaped child. */
    method Signal() returns (ok: bool)
      ensures pooler.Some? && pooler.value.supervised ==> ok
    {
      ok := *;
      ok := ok || (pooler.Some? && pooler.value.supervised);
    }

    method Restart() returns (ok: bool)
      modifies `pooler
      ensures old(pooler).Some? && old(pooler).value.supervised ==> ok
      ensures pooler == if ok then Stop(old(pooler)) else old(pooler)
    {
      ok := Signal();
      if ok && pooler.Some? && pooler.value.supervised {
        pooler := Some(pooler.value.(stopping := true));
      }
    }

    /** SIGHUP makes the pooler hold the installed config. */
    method Reload(installed: Bytes) returns (ok: bool)
      modifies `pooler
      ensures old(pooler).Some? && old(pooler).value.supervised ==> ok
      ensures pooler == if ok then Hold(old(pooler), installed) else old(pooler)
    {
      ok := Signal();
      if ok && pooler.Some? && pooler.value.supervised {
        pooler := Some(pooler.value.(held := installed));
      }
    }

    method Upgrade() returns (ok: bool)
      modifies `pooler
      ensures old(pooler).Some? && old(pooler).value.supervised ==> ok
      ensures pooler == if ok then Request(old(pooler)) else old(pooler)
    {
      ok := Signal();
      if ok && pooler.Some? && pooler.value.supervised {
        pooler := Some(pooler.value.(usr2 := true));
      }
    }
  }
}
