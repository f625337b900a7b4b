/** The wrapper's own classes over a host: the binary syncer, the two pollers and the
    startup sequence.  A whole `check` is one call here; its ghost record shows that it is a
    run of the fine-grained system in `Pod`, and startup ends in one of that system's
    initial states. */
module Watchers {
  import opened Wrappers
  import opened Config
  import opened Pod
  import opened Host

  /** What reading a mounted file gives. */
  datatype Reading = Content(data: Bytes) | Absent | ReadError

  /** The rendered config as it is mounted, None when it cannot be read, and whether the TLS
      key beside it converts. */
  datatype Mount = Mount(config: Option<Bytes>, keyConverts: bool)

  /** The mounted config can be put to work with this binary. */
  ghost predicate Works(w: World, mount: Mount, binary: Bytes) {
    mount.config.Some? && mount.keyConverts && w.accepts(binary, mount.config.value)
  }

  const MAX_BINARY_BYTES: nat := 0x1000_0000

  /** The spec parses and has no digest, or an empty one, for this architecture. */
  ghost predicate NoDigest(w: World, spec: Bytes) {
    var digests := w.parseSpec(spec);
    digests.Some? && (w.arch in digests.value ==> digests.value[w.arch] == "")
  }

  /** What the delivery endpoint answered, None without an answer, is the wanted binary and no
      larger than 256 MiB. */
  ghost predicate Fetchable(w: World, response: Option<Bytes>, want: Digest) {
    response.Some? && |response.value| <= 256 * 1024 * 1024 && w.digest(response.value) == want
  }

  ghost predicate Holds(w: World, files: map<Path, Bytes>, path: Path, want: Digest) {
    path in files && w.digest(files[path]) == want
  }

  ghost predicate Supervised(pooler: Option<Pooler>) { pooler.Some? && pooler.value.supervised }

  /** A file system startup may find or leave at any moment: the runtime binary, if there is
      one, is the image's or one that some spec demanded. */
  ghost predicate Traceable(w: World, files: map<Path, Bytes>, demanded: set<Digest>) {
    && ImageBinary in files
    && (RuntimeBinary in files ==>
          files[RuntimeBinary] == files[ImageBinary] || w.digest(files[RuntimeBinary]) in demanded)
  }

  /** The demanded binary can be had: it is installed, in the image, or delivered. */
  ghost predicate Obtainable(w: World, files: map<Path, Bytes>, response: Option<Bytes>, want: Digest) {
    Holds(w, files, RuntimeBinary, want) || Holds(w, files, ImageBinary, want) || Fetchable(w, response, want)
  }

  /** The binary startup prefers: the installed one if it is the demanded one, what is delivered
      if that is neither installed nor in the image, and the image's otherwise. */
  ghost function Chosen(w: World, files: map<Path, Bytes>, want: Option<Digest>, response: Option<Bytes>): Bytes
    requires ImageBinary in files
  {
    if want.Some? && Holds(w, files, RuntimeBinary, want.value) then files[RuntimeBinary]
    else if want.Some? && !Holds(w, files, ImageBinary, want.value) && Fetchable(w, response, want.value) then response.value
    else if Holds(w, files, RuntimeBinary, w.digest(files[ImageBinary])) then files[RuntimeBinary]
    else files[ImageBinary]
  }

  ghost function Demanded(w: World, reading: Reading): Option<Digest> {
    if reading.Content? then Desired(w, reading.data) else None
  }

  class BinarySyncer {
    const host: Host

    constructor (host: Host)
      ensures this.host == host
    {
      this.host := host;
    }

    /** All files logged since `since` are traceable and keep the image binary. */
    ghost predicate SafeSince(since: nat, image: Bytes)
      reads host
    {
      && since <= |host.log|
      && (forall i | since <= i < |host.log| :: Traceable(host.w, host.log[i], host.demanded))
      && Traceable(host.w, host.files, host.demanded)
      && host.files[ImageBinary] == image
    }

    /** Copies `content` beside the target and renames it into place. */
    method AtomicInstall(target: Path, content: Bytes) returns (ok: bool)
      requires target != ImageBinary && Traceable(host.w, host.files, host.demanded)
      requires target == RuntimeBinary ==>
        content == host.files[ImageBinary] || host.w.digest(content) in host.demanded
      modifies host`files, host`scratch, host`log, host`faults
      ensures old(host.log) <= host.log && SafeSince(|old(host.log)|, old(host.files)[ImageBinary])
      ensures host.files == if ok then old(host.files)[target := content] else old(host.files)
      ensures host.faults == old(host.faults) + Fault(!ok)
    {
      ok := host.WriteScratch(content);
      if !ok {
        return;
      }
      ok := host.RenameScratch(target);
    }

    /** Installs the image binary at the runtime path unless it already is there; `want`,
        when set, double-checks the copy. */
    method InstallFromImage(want: Option<Digest>) returns (ok: bool)
      requires Traceable(host.w, host.files, host.demanded)
      modifies host`files, host`scratch, host`log, host`faults
      ensures old(host.log) <= host.log && SafeSince(|old(host.log)|, old(host.files)[ImageBinary])
      ensures ok ==> Holds(host.w, host.files, RuntimeBinary, host.w.digest(host.files[ImageBinary]))
      ensures ok && want.Some? ==> Holds(host.w, host.files, RuntimeBinary, want.value)
      ensures host.files == old(host.files)
        || host.files == old(host.files)[RuntimeBinary := old(host.files)[ImageBinary]]
      ensures old(host.faults) <= host.faults
      ensures host.faults == old(host.faults) ==>
        (ok <==> want.None? || want.value == host.w.digest(host.files[ImageBinary]))
      ensures host.faults == old(host.faults) && ok ==>
        host.files == old(host.files)[RuntimeBinary := Chosen(host.w, old(host.files), None, None)]
    {
      var image := host.FileSHA256(ImageBinary);
      if image.None? {
        return false;
      }
      if want.Some? && image != want {
        return false;
      }
      var current := host.FileSHA256(RuntimeBinary);
      if current == image {
        return true;
      }
      ok := AtomicInstall(RuntimeBinary, host.files[ImageBinary]);
    }

    /** Installs what the endpoint answered at `target`, only if it has the wanted digest. */
    method Download(want: Digest, target: Path, response: Option<Bytes>) returns (ok: bool)
      requires target == RuntimeBinary || target == NextBinary
      requires Traceable(host.w, host.files, host.demanded) && want in host.demanded
      modifies host`files, host`scratch, host`log, host`faults
      ensures old(host.log) <= host.log && SafeSince(|old(host.log)|, old(host.files)[ImageBinary])
      ensures ok ==> Fetchable(host.w, response, want)
      ensures host.files == if ok then old(host.files)[target := response.value] else old(host.files)
      ensures host.faults == old(host.faults) + Fault(!ok && Fetchable(host.w, response, want))
    {
      if response.None? || |response.value| > MAX_BINARY_BYTES {
        return false;
      }
      if host.w.digest(response.value) != want {
        return false;
      }
      ok := AtomicInstall(target, response.value);
    }

    /** Leaves a binary at the runtime path: what the spec demands if it can be had, the
        image's otherwise.  A spec that was not met yields no seed. */
    method EnsureAtStartup(reading: Reading, response: Option<Bytes>) returns (seed: Option<Bytes>, ok: bool)
      requires Traceable(host.w, host.files, host.demanded)
      modifies host`files, host`scratch, host`log, host`faults, host`binaryStale, host`demanded
      ensures old(host.log) <= host.log && SafeSince(|old(host.log)|, old(host.files)[ImageBinary])
      ensures old(host.demanded) <= host.demanded
      ensures ok ==> RuntimeBinary in host.files
      ensures ok && seed.Some? ==> reading == Content(seed.value)
      ensures ok && seed.Some? && Desired(host.w, seed.value).Some? ==>
        Some(host.w.digest(host.files[RuntimeBinary])) == Desired(host.w, seed.value)
      ensures ok && (seed.None? || Desired(host.w, seed.value).None?) ==>
        host.w.digest(host.files[RuntimeBinary]) == host.w.digest(host.files[ImageBinary])
      ensures ok && reading.Content? && seed.None? ==> host.binaryStale && Desired(host.w, reading.data).Some?
      ensures ok && reading.Content? && Desired(host.w, reading.data).None? ==> seed == Some(reading.data)
      ensures old(host.faults) <= host.faults
      ensures host.faults == old(host.faults) ==> (ok <==> !reading.ReadError?)
      ensures host.faults == old(host.faults) && ok ==>
        host.files == old(host.files)[RuntimeBinary := Chosen(host.w, old(host.files), Demanded(host.w, reading), response)]
      ensures host.faults == old(host.faults) && Demanded(host.w, reading).Some? ==>
        (seed.Some? <==> Obtainable(host.w, old(host.files), response, Demanded(host.w, reading).value))
    {
      if reading.ReadError? {
        return None, false;
      }
      var data := if reading.Content? then Some(reading.data) else None;
      var desired := if data.Some? then Desired(host.w, data.value) else None;
      if desired.None? {
        ok := InstallFromImage(None);
        return data, ok;
      }
      var met;
      met, ok := Obtain(desired.value, response);
      seed := if met then data else None;
    }

    /** Installs the demanded binary if it can be had, and otherwise the image's, with the gauge
        up. */
    method Obtain(desired: Digest, response: Option<Bytes>) returns (met: bool, ok: bool)
      requires Traceable(host.w, host.files, host.demanded)
      modifies host`files, host`scratch, host`log, host`faults, host`binaryStale, host`demanded
      ensures old(host.log) <= host.log && SafeSince(|old(host.log)|, old(host.files)[ImageBinary])
      ensures old(host.demanded) <= host.demanded
      ensures ok ==> Holds(host.w, host.files, RuntimeBinary, if met then desired else host.w.digest(host.files[ImageBinary]))
      ensures !met ==> host.binaryStale
      ensures old(host.faults) <= host.faults
      ensures host.faults == old(host.faults) ==>
        && ok && (met <==> Obtainable(host.w, old(host.files), response, desired))
        && host.files == old(host.files)[RuntimeBinary := Chosen(host.w, old(host.files), Some(desired), response)]
    {
      host.demanded := host.demanded + {desired};
      var current := host.FileSHA256(RuntimeBinary);
      if current == Some(desired) {
        return true, true;
      }
      var image := host.FileSHA256(ImageBinary);
      if image == Some(desired) {
        ok := InstallFromImage(Some(desired));
        return true, ok;
      }
      ok := Download(desired, RuntimeBinary, response);
      if !ok {
        host.binaryStale := true;
        ok := InstallFromImage(None);
        return false, ok;
      }
      host.binaryStale := false;
      return true, true;
    }

    /** Puts the image binary back; `changed` is false when it already was there. */
    method RevertToImage() returns (changed: bool, ok: bool)
      requires Traceable(host.w, host.files, host.demanded)
      modifies host`files, host`scratch, host`log, host`faults
      ensures old(host.log) <= host.log && SafeSince(|old(host.log)|, old(host.files)[ImageBinary])
      ensures ok ==>
        && RuntimeBinary in host.files
        && host.w.digest(host.files[RuntimeBinary]) == host.w.digest(host.files[ImageBinary])
      ensures ok && !changed ==> host.files == old(host.files)
      ensures changed ==> host.files == old(host.files) || host.files == old(host.files)[RuntimeBinary := old(host.files)[ImageBinary]]
      ensures old(host.faults) <= host.faults
      ensures host.faults == old(host.faults) ==>
        ok && (changed <==> !Holds(host.w, old(host.files), RuntimeBinary, host.w.digest(old(host.files)[ImageBinary])))
      ensures host.faults == old(host.faults) && changed ==>
        host.files == old(host.files)[RuntimeBinary := old(host.files)[ImageBinary]]
    {
      var image := host.FileSHA256(ImageBinary);
      if image.None? {
        return false, false;
      }
      var current := host.FileSHA256(RuntimeBinary);
      if current == image {
        return false, true;
      }
      ok := InstallFromImage(None);
      changed := ok;
    }
  }

  /** How far one attempt to install a config got. */
  datatype Stage = NotWritten | Rejected | NotRenamed | Installed

  function FilesAfter(stage: Stage, data: Bytes, files: map<Path, Bytes>): map<Path, Bytes> {
    match stage
    case NotWritten => files
    case Rejected => files[NextConfig := data] - {NextConfig}
    case NotRenamed => files[NextConfig := data]
    case Installed => files[NextConfig := data][RuntimeConfig := data] - {NextConfig}
  }

  ghost predicate SameBinaries(before: map<Path, Bytes>, after: map<Path, Bytes>) {
    && (RuntimeBinary in before <==> RuntimeBinary in after) && (ImageBinary in before <==> ImageBinary in after)
    && (RuntimeBinary in before ==> before[RuntimeBinary] == after[RuntimeBinary])
    && (ImageBinary in before ==> before[ImageBinary] == after[ImageBinary])
  }

  class FileWatcher {
    const host: Host
    var lastApplied: Bytes

    constructor (host: Host)
      ensures this.host == host
    {
      this.host := host;
      this.lastApplied := "";
    }

    /** No file operation since `log` touched a binary that is in place. */
    ghost predicate KeepsBinaries(log: seq<map<Path, Bytes>>, files: map<Path, Bytes>)
      reads host
    {
      && log <= host.log && SameBinaries(files, host.files)
      && forall i | |log| <= i < |host.log| :: SameBinaries(files, host.log[i])
    }

    /** Writes the candidate beside its final place: temporary file, then rename. */
    method AtomicWrite(data: Bytes) returns (ok: bool)
      modifies host`files, host`scratch, host`log, host`faults
      ensures KeepsBinaries(old(host.log), old(host.files))
      ensures host.files == if ok then old(host.files)[NextConfig := data] else old(host.files)
      ensures host.faults == old(host.faults) + Fault(!ok)
    {
      ok := host.WriteScratch(data);
      if !ok {
        return;
      }
      ok := host.RenameScratch(NextConfig);
    }

    /** Converts the key, writes the candidate, has the installed binary test it, and only
        then replaces the runtime config. */
    method Materialize(data: Bytes, keyConverts: bool) returns (ok: bool, ghost stage: Stage)
      modifies host`files, host`scratch, host`log, host`faults
      ensures KeepsBinaries(old(host.log), old(host.files))
      ensures ok <==> stage == Installed
      ensures host.files == FilesAfter(stage, data, old(host.files))
      ensures stage.NotRenamed? || stage.Installed? ==>
        RuntimeBinary in old(host.files) && host.w.accepts(old(host.files)[RuntimeBinary], data)
      ensures old(host.faults) <= host.faults
      ensures host.faults == old(host.faults) ==>
        (ok <==> RuntimeBinary in old(host.files) && Works(host.w, Mount(Some(data), keyConverts), old(host.files)[RuntimeBinary]))
    {
      if !keyConverts {
        return false, NotWritten;
      }
      ok := AtomicWrite(data);
      if !ok {
        return false, NotWritten;
      }
      var accepted := host.TestConfig(RuntimeBinary, NextConfig);
      if !accepted {
        host.Remove(NextConfig);
        return false, Rejected;
      }
      ok := host.Rename(NextConfig, RuntimeConfig);
      stage := if ok then Installed else NotRenamed;
    }

    /** Installs the mounted config before any pooler runs. */
    method ApplyInitial(mount: Mount) returns (ok: bool)
      modifies this`lastApplied, host`files, host`scratch, host`log, host`faults
      ensures ok ==>
        && mount.config == Some(lastApplied) && RuntimeBinary in host.files && RuntimeConfig in host.files
        && host.files[RuntimeConfig] == lastApplied && host.w.accepts(host.files[RuntimeBinary], lastApplied)
      ensures !ok ==> lastApplied == old(lastApplied)
      ensures KeepsBinaries(old(host.log), old(host.files))
      ensures old(host.faults) <= host.faults
      ensures host.faults == old(host.faults) ==>
        (ok <==> RuntimeBinary in old(host.files) && Works(host.w, mount, old(host.files)[RuntimeBinary]))
    {
      if mount.config.None? {
        return false;
      }
      ghost var stage;
      ok, stage := Materialize(mount.config.value, mount.keyConverts);
      if ok {
        lastApplied := mount.config.value;
      }
    }

    /** The recorded run is between two checks of this watcher. */
    ghost predicate Valid()
      reads this, host
    {
      host.Tracks() && host.s.f.FIdle? && host.s.lastApplied == lastApplied && RuntimeBinary in host.files
    }

    /** Records the steps of one installation attempt. */
    ghost method RecordStage(stage: Stage, data: Bytes)
      requires host.Recorded()
      requires host.s.f.FRead? && host.s.f.data == data && RuntimeBinary in host.s.files
      requires stage.NotRenamed? || stage.Installed? ==> host.w.accepts(host.s.files[RuntimeBinary], data)
      modifies host`trace, host`run, host`s
      ensures host.Recorded() && old(host.run) <= host.run && old(host.trace) <= host.trace
      ensures host.s == old(host.s).(files := host.s.files, f := host.s.f)
      ensures host.s.files == FilesAfter(stage, data, old(host.s).files)
      ensures host.s.f == if stage.Installed? then FRenamed(data, old(host.s).f.restart) else FIdle
    {
      host.Record(WriteCandidate(!stage.NotWritten?));
      if !stage.NotWritten? {
        host.Record(TestCandidate(!stage.Rejected?));
        if !stage.Rejected? {
          host.Record(RenameConfig(stage.Installed?));
        }
      }
    }

    /** One poll of the mounted config.  A config that is not the one applied last raises the
        gauge; the gauge is down again exactly when the config is applied and its signal
        delivered, and without faults that is when it is valid, its key converts and the
        installed binary accepts it. */
    method Check(mount: Mount)
      requires Valid()
      modifies this`lastApplied, host`files, host`scratch, host`log, host`faults, host`configStale
      modifies host`pooler, host`trace, host`run, host`s
      ensures Valid() && old(host.run) <= host.run && old(host.trace) <= host.trace
      ensures mount.config == None || mount.config == Some(old(lastApplied)) ==>
        && host.files == old(host.files) && host.configStale == old(host.configStale) && lastApplied == old(lastApplied)
        && host.run == old(host.run)
      ensures mount.config.Some? && mount.config.value != old(lastApplied) ==>
        old(host.run) + [ReadConfig(mount.config.value)] <= host.run
      ensures mount.config.Some? && mount.config.value != old(lastApplied) && host.configStale ==>
        lastApplied == old(lastApplied) && host.pooler == old(host.pooler)
      ensures mount.config.Some? && mount.config.value != old(lastApplied) && !host.configStale ==>
        && lastApplied == mount.config.value && host.w.validate(lastApplied).Some?
        && RuntimeConfig in host.files && host.files[RuntimeConfig] == lastApplied
        && host.w.accepts(host.files[RuntimeBinary], lastApplied)
        && host.pooler == (if Restarts(host.w, old(lastApplied), lastApplied)
                           then Stop(old(host.pooler)) else Hold(old(host.pooler), lastApplied))
      ensures old(host.faults) <= host.faults
      ensures
        (&& mount.config.Some? && mount.config.value != old(lastApplied)
         && host.faults == old(host.faults) && Supervised(old(host.pooler)))
        ==> (!host.configStale <==>
               host.w.validate(mount.config.value).Some? && Works(host.w, mount, old(host.files)[RuntimeBinary]))
    {
      if mount.config.None? {
        return;
      }
      var data := mount.config.value;
      if data == lastApplied {
        return;
      }
      host.configStale := true;
      host.Record(ReadConfig(data));
      var newCfg := host.w.validate(data);
      if newCfg.None? {
        return;
      }
      var oldCfg := host.w.validate(lastApplied);
      var needsRestart := false;
      if oldCfg.Some? {
        needsRestart := NeedsProcessRestart(oldCfg.value, newCfg.value);
      }
      InstallAndSignal(data, mount.keyConverts, needsRestart);
    }

    /** Materializes a validated config and tells the pooler. */
    method InstallAndSignal(data: Bytes, keyConverts: bool, needsRestart: bool)
      requires host.Tracks() && host.s.f == FRead(data, needsRestart) && host.s.lastApplied == lastApplied
      requires host.configStale && RuntimeBinary in host.files
      modifies this`lastApplied, host`files, host`scratch, host`log, host`faults, host`configStale
      modifies host`pooler, host`trace, host`run, host`s
      ensures Valid() && old(host.run) <= host.run && old(host.trace) <= host.trace
      ensures host.configStale ==> lastApplied == old(lastApplied) && host.pooler == old(host.pooler)
      ensures !host.configStale ==>
        && lastApplied == data
        && RuntimeConfig in host.files && host.files[RuntimeConfig] == data
        && host.w.accepts(host.files[RuntimeBinary], data)
        && host.pooler == (if needsRestart then Stop(old(host.pooler)) else Hold(old(host.pooler), data))
      ensures old(host.faults) <= host.faults
      ensures host.faults == old(host.faults) && Supervised(old(host.pooler)) ==>
        (!host.configStale <==> Works(host.w, Mount(Some(data), keyConverts), old(host.files)[RuntimeBinary]))
    {
      var ok;
      ghost var stage;
      ok, stage := Materialize(data, keyConverts);
      RecordStage(stage, data);
      if ok {
        SignalAndMark(data, needsRestart);
      }
    }

    /** Restarts or reloads the pooler; only a delivered signal marks the config applied. */
    method SignalAndMark(data: Bytes, needsRestart: bool)
      requires host.Tracks() && host.s.f == FRenamed(data, needsRestart) && host.s.lastApplied == lastApplied
      requires host.configStale && RuntimeBinary in host.files
      modifies this`lastApplied, host`configStale, host`pooler, host`trace, host`run, host`s
      ensures Valid() && old(host.run) <= host.run && old(host.trace) <= host.trace
      ensures host.configStale ==> lastApplied == old(lastApplied) && host.pooler == old(host.pooler)
      ensures !host.configStale ==>
        && lastApplied == data
        && host.pooler == (if needsRestart then Stop(old(host.pooler)) else Hold(old(host.pooler), data))
      ensures Supervised(old(host.pooler)) ==> !host.configStale
    {
      var ok;
      if needsRestart {
        ok := host.Restart();
      } else {
        ok := host.Reload(data);
      }
      if ok {
        lastApplied := data;
        host.configStale := false;
      }
      host.Record(SignalConfig(ok));
    }
  }

  /** How far one attempt to install a binary got. */
  datatype Delivery = NotFetched | Refused(body: Bytes) | NotSwapped(body: Bytes) | Swapped(body: Bytes)

  function FilesDelivered(delivery: Delivery, files: map<Path, Bytes>): map<Path, Bytes> {
    match delivery
    case NotFetched => files
    case Refused(body) => files[NextBinary := body] - {NextBinary}
    case NotSwapped(body) => files[NextBinary := body]
    case Swapped(body) => files[NextBinary := body][RuntimeBinary := body] - {NextBinary}
  }

  lemma DeliveryIsTraceable(w: World, files: map<Path, Bytes>, delivery: Delivery, desired: Digest, demanded: set<Digest>)
    requires Traceable(w, files, demanded) && RuntimeBinary in files && RuntimeConfig in files && desired in demanded
    requires !delivery.NotFetched? ==> w.digest(delivery.body) == desired
    ensures var after := FilesDelivered(delivery, files);
      && Traceable(w, after, demanded) && RuntimeBinary in after && RuntimeConfig in after
      && (delivery.Swapped? ==> after == files[RuntimeBinary := delivery.body] - {NextBinary} && Holds(w, after, RuntimeBinary, desired))
  {
  }

  class BinaryWatcher {
    const host: Host
    const syncer: BinarySyncer
    var lastSpec: Bytes

    constructor (host: Host, syncer: BinarySyncer)
      requires syncer.host == host
      ensures this.host == host && this.syncer == syncer && lastSpec == ""
    {
      this.host, this.syncer, this.lastSpec := host, syncer, "";
    }

    /** Records the spec applied at startup; none reads like an empty file. */
    method Seed(seed: Option<Bytes>)
      modifies this`lastSpec
      ensures lastSpec == if seed.Some? then seed.value else ""
    {
      lastSpec := if seed.Some? then seed.value else "";
    }

    /** The recorded run is between two checks of this watcher. */
    ghost predicate Valid()
      reads this, host
    {
      && syncer.host == host && host.Tracks() && host.s.b.BIdle? && host.s.lastSpec == lastSpec
      && host.s.demanded == host.demanded
      && RuntimeBinary in host.files && RuntimeConfig in host.files
      && Traceable(host.w, host.files, host.demanded)
    }

    /** The response is the demanded binary, and that binary accepts the live config. */
    ghost predicate Deliverable(response: Option<Bytes>, desired: Digest, files: map<Path, Bytes>)
      requires RuntimeConfig in files
      reads {}
    {
      Fetchable(host.w, response, desired) && host.w.accepts(response.value, files[RuntimeConfig])
    }

    /** One poll of the mounted binary spec; `response` is what the delivery endpoint answers
        if it is asked.  A spec that demands a binary is recorded as read; it ends up applied,
        or the gauge is up.  With no handover in flight a binary that is not found installed
        is fetched, and without faults a supervised pooler is asked to hand over to it exactly
        when it can be delivered. */
    method Check(source: Option<Bytes>, inFlight: bool, response: Option<Bytes>)
      requires Valid()
      modifies this`lastSpec, host`files, host`scratch, host`log, host`faults, host`binaryStale, host`pooler
      modifies host`demanded, host`trace, host`run, host`s
      ensures Valid() && old(host.run) <= host.run && old(host.trace) <= host.trace
      ensures source == None || source == Some(old(lastSpec)) ==>
        && host.files == old(host.files) && host.binaryStale == old(host.binaryStale) && lastSpec == old(lastSpec)
        && host.run == old(host.run)
      ensures lastSpec == old(lastSpec) || source == Some(lastSpec)
      ensures source.Some? && source.value != old(lastSpec) && Desired(host.w, source.value).None? ==>
        && host.files == old(host.files) && host.binaryStale == old(host.binaryStale)
        && (lastSpec == source.value <==> host.w.parseSpec(source.value).Some?)
      ensures source.Some? && source.value != old(lastSpec) && NoDigest(host.w, source.value) ==>
        host.files == old(host.files) && host.binaryStale == old(host.binaryStale) && lastSpec == source.value
      ensures source.Some? && source.value != old(lastSpec) && Desired(host.w, source.value).Some? ==>
        && Pursued(old(host.files), source.value, Desired(host.w, source.value).value, inFlight, |old(host.run)|)
        && PursuitOutcome(old(lastSpec), source.value, Desired(host.w, source.value).value)
      ensures old(host.faults) <= host.faults
      ensures
        (&& source.Some? && source.value != old(lastSpec) && Desired(host.w, source.value).Some?
         && host.faults == old(host.faults) && Supervised(old(host.pooler)))
        ==> FaultlessOutcome(old(host.files), old(host.pooler), source.value, Desired(host.w, source.value).value, inFlight, response)
      ensures inFlight ==> host.files == old(host.files) && host.pooler == old(host.pooler)
    {
      if source.None? {
        return;
      }
      var data := source.value;
      if data == lastSpec {
        return;
      }
      if host.w.parseSpec(data).None? {
        host.Record(ReadSpec(data, inFlight, true));
        return;
      }
      var desired := Desired(host.w, data);
      if desired.None? {
        host.Record(ReadSpec(data, inFlight, true));
        lastSpec := data;
        return;
      }
      host.demanded := host.demanded + {desired.value};
      Pursue(data, desired.value, inFlight, response);
    }

    /** The recorded run was extended by a step that reads this spec, and unless a handover is
        in flight or the demanded binary was found installed, by a fetch right after it. */
    ghost predicate Pursued(files: map<Path, Bytes>, data: Bytes, desired: Digest, inFlight: bool, since: nat)
      reads host, this
    {
      && since < |host.run|
      && host.run[since].ReadSpec? && host.run[since].spec == data && host.run[since].inFlight == inFlight
      && (!inFlight && !(host.run[since].hashed && Holds(host.w, files, RuntimeBinary, desired)) ==>
            since + 1 < |host.run| && host.run[since + 1].FetchBinary?)
    }

    /** A demanded spec is applied, and then its binary is the installed one, or else the gauge
        is up. */
    ghost predicate PursuitOutcome(last: Bytes, data: Bytes, desired: Digest)
      reads host, this
    {
      && (lastSpec == data <==> !host.binaryStale)
      && (lastSpec == data || lastSpec == last)
      && (lastSpec == data ==> Holds(host.w, host.files, RuntimeBinary, desired))
    }

    /** Without faults and with a supervised pooler: a binary that is installed already changes
        nothing; another one is swapped in and the upgrade requested exactly when no handover
        is in flight and it can be delivered. */
    ghost predicate FaultlessOutcome(files: map<Path, Bytes>, pooler: Option<Pooler>, data: Bytes, desired: Digest,
                                     inFlight: bool, response: Option<Bytes>)
      reads host, this
    {
      if Holds(host.w, files, RuntimeBinary, desired) then
        lastSpec == data && host.files == files && host.pooler == pooler
      else if !inFlight && RuntimeConfig in files && Deliverable(response, desired, files) then
        lastSpec == data && host.pooler == Request(pooler) && host.files == files[RuntimeBinary := response.value] - {NextBinary}
      else
        lastSpec != data && host.pooler == pooler
    }

    /** A spec with a digest for this architecture: nothing to do if that binary is found
        installed, nothing yet while a handover is under way. */
    method Pursue(data: Bytes, desired: Digest, inFlight: bool, response: Option<Bytes>)
      requires syncer.host == host && host.Tracks() && host.s.b.BIdle? && host.s.lastSpec == lastSpec
      requires RuntimeBinary in host.files && RuntimeConfig in host.files && data != lastSpec
      requires Desired(host.w, data) == Some(desired) && host.demanded == host.s.demanded + {desired}
      requires Traceable(host.w, host.files, host.demanded)
      modifies this`lastSpec, host`files, host`scratch, host`log, host`faults, host`binaryStale, host`pooler
      modifies host`trace, host`run, host`s
      ensures Valid() && old(host.run) <= host.run && old(host.trace) <= host.trace
      ensures Pursued(old(host.files), data, desired, inFlight, |old(host.run)|)
      ensures PursuitOutcome(old(lastSpec), data, desired)
      ensures old(host.faults) <= host.faults
      ensures host.faults == old(host.faults) && Supervised(old(host.pooler)) ==>
        FaultlessOutcome(old(host.files), old(host.pooler), data, desired, inFlight, response)
      ensures inFlight ==> host.files == old(host.files) && host.pooler == old(host.pooler)
    {
      var found := FindInstalled(data, desired, inFlight);
      if found || inFlight {
        return;
      }
      InstallAndSignal(data, desired, response);
    }

    /** Compares the installed binary with the demanded one and sets the gauge accordingly. */
    method FindInstalled(data: Bytes, desired: Digest, inFlight: bool) returns (found: bool)
      requires host.Tracks() && host.s.b.BIdle? && host.s.lastSpec == lastSpec
      requires RuntimeBinary in host.files && RuntimeConfig in host.files && data != lastSpec
      requires Desired(host.w, data) == Some(desired) && host.demanded == host.s.demanded + {desired}
      modifies this`lastSpec, host`faults, host`binaryStale, host`trace, host`run, host`s
      ensures host.Tracks() && host.s.lastSpec == lastSpec && host.s.demanded == host.demanded
      ensures host.s.b == if found || inFlight then BIdle else BWanted(data, desired)
      ensures |host.run| == |old(host.run)| + 1 && old(host.run) <= host.run && old(host.trace) <= host.trace
      ensures host.run[|old(host.run)|].ReadSpec? && host.run[|old(host.run)|].spec == data
      ensures host.run[|old(host.run)|].inFlight == inFlight
      ensures found <==> host.run[|old(host.run)|].hashed && Holds(host.w, host.files, RuntimeBinary, desired)
      ensures host.faults == old(host.faults) + Fault(!host.run[|old(host.run)|].hashed)
      ensures host.binaryStale == !found && lastSpec == if found then data else old(lastSpec)
    {
      var current := host.FileSHA256(RuntimeBinary);
      host.Record(ReadSpec(data, inFlight, current.Some?));
      found := current == Some(desired);
      if found {
        lastSpec := data;
      }
      host.binaryStale := !found;
    }

    /** Downloads the wanted binary, tests it against the live config and swaps it in. */
    method Deliver(desired: Digest, response: Option<Bytes>) returns (ok: bool, ghost delivery: Delivery)
      requires syncer.host == host && RuntimeConfig in host.files
      requires Traceable(host.w, host.files, host.demanded) && desired in host.demanded
      modifies host`files, host`scratch, host`log, host`faults
      ensures ok <==> delivery.Swapped?
      ensures host.files == FilesDelivered(delivery, old(host.files))
      ensures !delivery.NotFetched? ==> host.w.digest(delivery.body) == desired && response == Some(delivery.body)
      ensures delivery.NotSwapped? || delivery.Swapped? ==>
        host.w.accepts(delivery.body, old(host.files)[RuntimeConfig])
      ensures old(host.faults) <= host.faults
      ensures host.faults == old(host.faults) ==> (ok <==> Deliverable(response, desired, old(host.files)))
    {
      ok := syncer.Download(desired, NextBinary, response);
      if !ok {
        return false, NotFetched;
      }
      ghost var body := host.files[NextBinary];
      var accepted := host.TestConfig(NextBinary, RuntimeConfig);
      if !accepted {
        host.Remove(NextBinary);
        return false, Refused(body);
      }
      ok := host.Rename(NextBinary, RuntimeBinary);
      delivery := if ok then Swapped(body) else NotSwapped(body);
    }

    ghost method RecordDelivery(delivery: Delivery, data: Bytes, desired: Digest)
      requires host.Recorded()
      requires host.s.b == BWanted(data, desired) && RuntimeConfig in host.s.files
      requires !delivery.NotFetched? ==> host.w.digest(delivery.body) == desired
      requires delivery.NotSwapped? || delivery.Swapped? ==>
        host.w.accepts(delivery.body, host.s.files[RuntimeConfig])
      modifies host`trace, host`run, host`s
      ensures host.Recorded() && old(host.run) <= host.run && old(host.trace) <= host.trace
      ensures |old(host.run)| < |host.run| && host.run[|old(host.run)|].FetchBinary?
      ensures host.s == old(host.s).(files := FilesDelivered(delivery, old(host.s).files),
                                     b := if delivery.Swapped? then BSwapped(data, desired) else BIdle)
    {
      host.Record(FetchBinary(if delivery.NotFetched? then None else Some(delivery.body)));
      if !delivery.NotFetched? {
        host.Record(TestBinary(!delivery.Refused?));
        if !delivery.Refused? {
          host.Record(SwapBinary(delivery.Swapped?));
        }
      }
    }

    /** Delivers the wanted binary and records how far that got. */
    method DeliverRecorded(data: Bytes, desired: Digest, response: Option<Bytes>) returns (swapped: bool)
      requires syncer.host == host && host.Tracks() && host.s.b == BWanted(data, desired)
      requires RuntimeBinary in host.files && RuntimeConfig in host.files
      requires Traceable(host.w, host.files, host.demanded) && desired in host.demanded
      modifies host`files, host`scratch, host`log, host`faults, host`trace, host`run, host`s
      ensures host.Tracks() && old(host.run) <= host.run && old(host.trace) <= host.trace
      ensures |old(host.run)| < |host.run| && host.run[|old(host.run)|].FetchBinary?
      ensures host.s.b == if swapped then BSwapped(data, desired) else BIdle
      ensures host.s.lastSpec == old(host.s.lastSpec) && host.s.demanded == old(host.s.demanded)
      ensures RuntimeBinary in host.files && RuntimeConfig in host.files
      ensures Traceable(host.w, host.files, host.demanded)
      ensures swapped ==>
        && response.Some? && host.files == old(host.files)[RuntimeBinary := response.value] - {NextBinary}
        && Holds(host.w, host.files, RuntimeBinary, desired)
      ensures old(host.faults) <= host.faults
      ensures host.faults == old(host.faults) ==> (swapped <==> Deliverable(response, desired, old(host.files)))
    {
      ghost var delivery;
      ghost var files := host.files;
      swapped, delivery := Deliver(desired, response);
      RecordDelivery(delivery, data, desired);
      DeliveryIsTraceable(host.w, files, delivery, desired, host.demanded);
    }

    /** The swap precedes the signal: the handover re-executes the runtime path. */
    method InstallAndSignal(data: Bytes, desired: Digest, response: Option<Bytes>)
      requires syncer.host == host && host.Tracks() && host.s.b == BWanted(data, desired) && data != lastSpec
      requires host.s.lastSpec == lastSpec && host.s.demanded == host.demanded && host.binaryStale
      requires RuntimeBinary in host.files && RuntimeConfig in host.files
      requires Traceable(host.w, host.files, host.demanded) && desired in host.demanded
      modifies this`lastSpec, host`files, host`scratch, host`log, host`faults, host`binaryStale, host`pooler
      modifies host`trace, host`run, host`s
      ensures Valid() && old(host.run) <= host.run && old(host.trace) <= host.trace
      ensures |old(host.run)| < |host.run| && host.run[|old(host.run)|].FetchBinary?
      ensures if host.binaryStale then lastSpec == old(lastSpec) && host.pooler == old(host.pooler)
        else lastSpec == data && Holds(host.w, host.files, RuntimeBinary, desired)
      ensures old(host.faults) <= host.faults
      ensures host.faults == old(host.faults) && Supervised(old(host.pooler)) ==>
        (!host.binaryStale <==> Deliverable(response, desired, old(host.files)))
      ensures !host.binaryStale ==>
        && response.Some? && host.files == old(host.files)[RuntimeBinary := response.value] - {NextBinary}
        && host.pooler == Request(old(host.pooler))
    {
      var swapped := DeliverRecorded(data, desired, response);
      if swapped {
        SignalAndMark(data);
      }
    }

    /** Only a delivered SIGUSR2 marks the spec applied. */
    method SignalAndMark(data: Bytes)
      requires host.Tracks() && host.s.b.BSwapped? && host.s.b.spec == data && host.s.lastSpec == lastSpec
      requires host.binaryStale
      modifies this`lastSpec, host`binaryStale, host`pooler, host`trace, host`run, host`s
      ensures host.Tracks() && old(host.run) <= host.run && old(host.trace) <= host.trace
      ensures host.s.b.BIdle? && host.s.lastSpec == lastSpec && host.s.demanded == old(host.s.demanded)
      ensures if host.binaryStale then lastSpec == old(lastSpec) && host.pooler == old(host.pooler)
        else lastSpec == data && host.pooler == Request(old(host.pooler))
      ensures Supervised(old(host.pooler)) ==> !host.binaryStale
    {
      var ok := host.Upgrade();
      if ok {
        lastSpec := data;
        host.binaryStale := false;
      }
      host.Record(SignalBinary(ok));
    }
  }

  /** The installed binary takes the config. */
  ghost predicate WorksNow(w: World, files: map<Path, Bytes>, mount: Mount) {
    RuntimeBinary in files && Works(w, mount, files[RuntimeBinary])
  }

  /** Another binary is installed than the image's, and the image's takes the config. */
  ghost predicate WorksReverted(w: World, files: map<Path, Bytes>, mount: Mount)
    requires ImageBinary in files
  {
    !Holds(w, files, RuntimeBinary, w.digest(files[ImageBinary])) && Works(w, mount, files[ImageBinary])
  }

  /** The chosen binary takes the config, or it is not the image's and the image's takes it on
      the second attempt. */
  ghost predicate Served(w: World, chosen: Bytes, image: Bytes, mount: Mount, again: Mount) {
    Works(w, mount, chosen) || (w.digest(chosen) != w.digest(image) && Works(w, again, image))
  }

  /** The startup fallback: a config the installed binary rejects is retried on the image
      binary.  The returned seed is None after a revert. */
  method ApplyInitialConfig(fw: FileWatcher, syncer: BinarySyncer, seed: Option<Bytes>, mount: Mount, again: Mount)
    returns (result: Option<Bytes>, ok: bool)
    requires fw.host == syncer.host && Traceable(fw.host.w, fw.host.files, fw.host.demanded)
    modifies fw`lastApplied, fw.host`files, fw.host`scratch, fw.host`log, fw.host`faults, fw.host`binaryStale
    ensures old(fw.host.log) <= fw.host.log
    ensures syncer.SafeSince(|old(fw.host.log)|, old(fw.host.files)[ImageBinary])
    ensures ok ==>
      && RuntimeBinary in fw.host.files && RuntimeConfig in fw.host.files
      && fw.host.files[RuntimeConfig] == fw.lastApplied
      && fw.host.w.accepts(fw.host.files[RuntimeBinary], fw.lastApplied)
    ensures ok && result.Some? ==> result == seed && SameBinaries(old(fw.host.files), fw.host.files)
    ensures ok && !fw.host.binaryStale ==> result == seed && SameBinaries(old(fw.host.files), fw.host.files)
    ensures old(fw.host.binaryStale) ==> fw.host.binaryStale
    ensures old(fw.host.faults) <= fw.host.faults
    ensures fw.host.faults == old(fw.host.faults) ==>
      (ok <==> WorksNow(fw.host.w, old(fw.host.files), mount) || WorksReverted(fw.host.w, old(fw.host.files), again))
    ensures fw.host.faults == old(fw.host.faults) && ok ==>
      if WorksNow(fw.host.w, old(fw.host.files), mount)
      then result == seed && SameBinaries(old(fw.host.files), fw.host.files)
      else result == None && fw.host.files[RuntimeBinary] == old(fw.host.files)[ImageBinary]
  {
    ok := fw.ApplyInitial(mount);
    if ok {
      return seed, true;
    }
    var changed, reverted := syncer.RevertToImage();
    if !reverted || !changed {
      return None, false;
    }
    fw.host.binaryStale := true;
    ok := fw.ApplyInitial(again);
    result := None;
  }

  /** The binary watcher's seed when startup works with the chosen binary: the spec, unless it
      demands a binary that cannot be had. */
  ghost predicate Met(w: World, files: map<Path, Bytes>, spec: Reading, response: Option<Bytes>) {
    spec.Content? && (Demanded(w, spec).Some? ==> Obtainable(w, files, response, Demanded(w, spec).value))
  }

  /** What startup leaves when nothing fails without a reason: it succeeds exactly when the
      chosen binary or, in its place, the image's takes the config, and only a binary that
      takes it keeps its place and its spec. */
  ghost predicate StartupOutcome(w: World, before: map<Path, Bytes>, spec: Reading, response: Option<Bytes>,
                                 mount: Mount, again: Mount, ok: bool, after: map<Path, Bytes>, seed: Option<Bytes>)
    requires ImageBinary in before
  {
    var chosen := Chosen(w, before, Demanded(w, spec), response);
    && (ok <==> !spec.ReadError? && Served(w, chosen, before[ImageBinary], mount, again))
    && (ok ==>
          && RuntimeBinary in after
          && after[RuntimeBinary] == (if Works(w, mount, chosen) then chosen else before[ImageBinary])
          && seed == (if Works(w, mount, chosen) && Met(w, before, spec, response) then Some(spec.data) else None))
  }

  /** Syncs the binary and applies the config. */
  method PrepareFiles(fw: FileWatcher, syncer: BinarySyncer, spec: Reading, response: Option<Bytes>, mount: Mount, again: Mount)
    returns (result: Option<Bytes>, ok: bool)
    requires fw.host == syncer.host && Traceable(fw.host.w, fw.host.files, fw.host.demanded)
    modifies fw`lastApplied, fw.host`files, fw.host`scratch, fw.host`log, fw.host`faults, fw.host`binaryStale
    modifies fw.host`demanded
    ensures old(fw.host.log) <= fw.host.log
    ensures syncer.SafeSince(|old(fw.host.log)|, old(fw.host.files)[ImageBinary])
    ensures ok ==>
      && RuntimeBinary in fw.host.files && RuntimeConfig in fw.host.files
      && fw.host.files[RuntimeConfig] == fw.lastApplied
      && fw.host.w.accepts(fw.host.files[RuntimeBinary], fw.lastApplied)
    ensures ok && result.Some? ==> spec == Content(result.value)
    ensures ok && result.Some? && Demanded(fw.host.w, spec).Some? ==>
      Some(fw.host.w.digest(fw.host.files[RuntimeBinary])) == Demanded(fw.host.w, spec)
    ensures ok && spec.Content? && result.None? ==> fw.host.binaryStale
    ensures old(fw.host.faults) <= fw.host.faults
    ensures fw.host.faults == old(fw.host.faults) ==>
      StartupOutcome(fw.host.w, old(fw.host.files), spec, response, mount, again, ok, fw.host.files, result)
  {
    var seed;
    seed, ok := syncer.EnsureAtStartup(spec, response);
    if !ok {
      return None, false;
    }
    result, ok := ApplyInitialConfig(fw, syncer, seed, mount, again);
  }

  /** The wrapper's start: sync the binary, apply the config, seed the binary watcher.  It
      works from whatever an earlier life of the container left, and keeps the runtime
      binary traceable at every file operation; when it succeeds the pod is in an initial
      state of the transition system, and a demanded binary either is installed or will be
      retried by the first poll, with the gauge up. */
  method Startup(fw: FileWatcher, bw: BinaryWatcher, spec: Reading, response: Option<Bytes>, mount: Mount, again: Mount)
    returns (ok: bool)
    requires fw.host == bw.host == bw.syncer.host
    requires Traceable(fw.host.w, fw.host.files, fw.host.demanded)
    requires fw.host.w.parseSpec("").None?
    modifies fw, bw, fw.host
    ensures old(fw.host.log) <= fw.host.log
    ensures bw.syncer.SafeSince(|old(fw.host.log)|, old(fw.host.files)[ImageBinary])
    ensures ok ==> fw.Valid() && bw.Valid() && Booted(fw.host.w, fw.host.s) && fw.host.run == []
    ensures ok && spec.Content? && Desired(fw.host.w, spec.data).Some? ==>
      if bw.lastSpec == spec.data then Desired(fw.host.w, spec.data) == Some(fw.host.w.digest(fw.host.files[RuntimeBinary]))
      else fw.host.binaryStale
    ensures fw.host.faults == old(fw.host.faults) ==> exists seed ::
      && StartupOutcome(fw.host.w, old(fw.host.files), spec, response, mount, again, ok, fw.host.files, seed)
      && (ok ==> bw.lastSpec == if seed.Some? then seed.value else "")
  {
    var host := fw.host;
    host.configStale, host.binaryStale, host.pooler := false, false, None;
    var result;
    result, ok := PrepareFiles(fw, bw.syncer, spec, response, mount, again);
    if !ok {
      return;
    }
    bw.Seed(result);
    host.BeginRun(State(host.files, FIdle, fw.lastApplied, host.configStale,
                        BIdle, bw.lastSpec, host.binaryStale, host.pooler, host.demanded));
  }
}
