/** The controller that renders each PgDoorman into its cluster's config secret. */
module Controller {
  import opened Wrappers
  import opened Spec
  import opened AuthSecrets
  import opened Config
  import opened ConfigGen
  import opened Credentials

  const CONFIG_KEY := "pg_doorman.yaml"
  const ADMIN_KEY := "admin-password"
  const BINARY_KEY := "binary.json"

  function RenderedSecretName(clusterName: string): string { clusterName + "-doorman-config" }

  /** What the plugin parameters of a cluster come to. */
  datatype Cluster = Cluster(
    enabled: bool, configName: string, paramsValid: bool, poolerPort: int, metricsPort: int, inPlace: bool)

  datatype Reason = InvalidPluginConfig | InvalidSpec | AuthSecretFailed | SecretNotAllowed | RenderFailed | Rendered

  /** The Rendered condition; the source's success message names the generation, which the
      condition carries anyway, and the secret. */
  datatype Condition = Condition(ok: bool, reason: Reason, message: string, generation: nat)

  datatype PgDoorman = PgDoorman(
    spec: Spec, inUseFinalizer: bool, otherFinalizers: bool, deleting: bool,
    generation: nat, condition: Option<Condition>, observed: nat)

  /** One namespace, with the number of writes made to it. */
  datatype Store = Store(
    doormen: map<string, PgDoorman>, clusters: map<string, Cluster>, secrets: Secrets, writes: nat)

  /** What is fixed for the controller: the file format, the binary offered for in-place
      upgrades, and the certificate paths. */
  datatype Codec = Codec(
    marshal: DoormanConfig -> string, decode: string -> Option<DoormanConfig>,
    binary: Option<string>, tls: TLSFiles)

  datatype Call =
    | GetDoorman | GetCluster | PatchDoorman | GetAuthSecret | DrawAuthPassword | CreateAuthSecret
    | GetReferenced | ReadPasswords | GetRendered | DrawAdminPassword | GetExisting | WriteRendered | UpdateStatus

  /** What one reconcile does not decide: the calls that fail, the order and the passwords map
      the iterations give, the passwords drawn, and the text of an error. */
  datatype Luck = Luck(
    fails: set<Call>, order: seq<string>, passwords: map<string, string>,
    authPassword: string, adminPassword: string, message: string)

  datatype Rendering = Rendering(data: string, admin: string)

  datatype Outcome =
    | Nothing | Failed | DeletionSeen | Unused | NotRendered(reason: Reason) | Done(cluster: string, rendering: Rendering)

  // --------------------------------------------------------------- what it computes

  /** The cluster a PgDoorman belongs to exists and names it. */
  predicate InUse(st: Store, name: string)
    requires name in st.doormen
  {
    var cluster := st.doormen[name].spec.clusterRef;
    cluster in st.clusters && st.clusters[cluster].configName == name
  }

  function WithDoorman(st: Store, name: string, d: PgDoorman): Store {
    st.(doormen := st.doormen[name := d], writes := st.writes + 1)
  }

  function WithSecret(st: Store, name: string, secret: Secret): Store {
    st.(secrets := st.secrets[name := secret], writes := st.writes + 1)
  }

  /** An object being deleted disappears with its last finalizer. */
  function Released(st: Store, name: string): Store
    requires name in st.doormen
  {
    var d := st.doormen[name].(inUseFinalizer := false);
    if d.deleting && !d.otherFinalizers then st.(doormen := st.doormen - {name}, writes := st.writes + 1)
    else WithDoorman(st, name, d)
  }

  function Noted(st: Store, name: string, ok: bool, reason: Reason, message: string, fails: set<Call>): Store
    requires name in st.doormen
  {
    var d := st.doormen[name];
    var condition := Some(Condition(ok, reason, message, d.generation));
    var observed := if ok then d.generation else d.observed;
    if d.condition == condition && observed == d.generation then st
    else if UpdateStatus in fails then st
    else WithDoorman(st, name, d.(condition := condition, observed := observed))
  }

  /** A basic-auth secret of the cluster with this user and password. */
  ghost predicate BasicAuth(secret: Secret, cluster: string, user: string, password: string) {
    && secret.cluster == Some(cluster) && secret.data.Keys == {"username", "password"}
    && secret.data["username"] == user && secret.data["password"] == password
  }

  /** The auth secret to create, if one is needed. */
  function AuthSecretFor(secrets: Secrets, cluster: string, user: string, luck: Luck): Result<Option<Secret>> {
    var name := GeneratedAuthSecretName(cluster);
    if user == "" then Ok(None)
    else if GetAuthSecret in luck.fails then Err
    else if Visible(secrets, name) then Ok(None)
    else if DrawAuthPassword in luck.fails || name in secrets || CreateAuthSecret in luck.fails then Err
    else Ok(Some(Secret(Some(cluster), map["username" := user, "password" := luck.authPassword])))
  }

  function WithAuthSecret(secrets: Secrets, cluster: string, created: Option<Secret>): Secrets {
    if created.Some? then secrets[GeneratedAuthSecretName(cluster) := created.value] else secrets
  }

  /** Reading the references makes a call only if there are any. */
  ghost predicate AnyRef(spec: Spec) { exists e :: HasRef(spec, e) }

  ghost predicate OwnedByCluster(spec: Spec, secrets: Secrets, cluster: string) {
    forall name | Refers(spec, name) :: name in secrets && secrets[name].cluster == Some(cluster)
  }

  function PersistedAdmin(secrets: Secrets, cluster: string): string {
    var name := RenderedSecretName(cluster);
    if Visible(secrets, name) then Lookup(secrets[name].data, ADMIN_KEY) else ""
  }

  function AdminPassword(secrets: Secrets, cluster: string, luck: Luck): Result<string> {
    var kept := PersistedAdmin(secrets, cluster);
    if GetRendered in luck.fails then Err
    else if kept != "" then Ok(kept)
    else if DrawAdminPassword in luck.fails then Err
    else Ok(luck.adminPassword)
  }

  ghost function RenderingFor(c: Codec, cl: Cluster, spec: Spec, secrets: Secrets, cluster: string, luck: Luck): Result<Rendering> {
    var admin := AdminPassword(secrets, cluster, luck);
    if (ReadPasswords in luck.fails && AnyRef(spec)) || !AllReadable(spec, secrets) || admin.Err? then Err
    else
      var data := c.marshal(ConfigFor(spec, cl.poolerPort, cl.metricsPort, luck.passwords, admin.value, Some(c.tls)));
      if ValidateConfigBytes(c.decode, data).None? then Err else Ok(Rendering(data, admin.value))
  }

  /** Renders only from secrets of the cluster. */
  ghost function OwnedRendering(c: Codec, cl: Cluster, spec: Spec, secrets: Secrets, cluster: string, luck: Luck)
    : (Reason, Result<Rendering>)
  {
    if (GetReferenced in luck.fails && AnyRef(spec)) || !OwnedByCluster(spec, secrets, cluster)
    then (SecretNotAllowed, Err)
    else
      var r := RenderingFor(c, cl, spec, secrets, cluster, luck);
      (if r.Ok? then Rendered else RenderFailed, r)
  }

  /** An attempt to render: the auth secret it created on the way, and a rendering or why
      there is none. */
  datatype Attempt = Attempt(created: Option<Secret>, reason: Reason, r: Result<Rendering>)

  ghost function NormalizedAttempt(c: Codec, cl: Cluster, secrets: Secrets, n: Normalized, cluster: string, luck: Luck)
    : Attempt
  {
    var created := AuthSecretFor(secrets, cluster, n.user, luck);
    if created.Err? then Attempt(None, AuthSecretFailed, Err)
    else
      var (reason, r) := OwnedRendering(c, cl, n.spec, WithAuthSecret(secrets, cluster, created.value), cluster, luck);
      Attempt(created.value, reason, r)
  }

  ghost function Attempted(c: Codec, cl: Cluster, secrets: Secrets, spec: Spec, luck: Luck): Attempt
    requires forall n | n in luck.order :: n in spec.pools
  {
    var n := VisitPools(spec, luck.order);
    if !cl.paramsValid then Attempt(None, InvalidPluginConfig, Err)
    else if n.Err? then Attempt(None, InvalidSpec, Err)
    else NormalizedAttempt(c, cl, secrets, n.value, spec.clusterRef, luck)
  }

  /** The binary is offered only to clusters that opted in. */
  function BinaryFor(offered: Option<string>, cl: Cluster): Option<string> { if cl.inPlace then offered else None }

  function DesiredData(r: Rendering, binary: Option<string>): map<string, string> {
    var data := map[CONFIG_KEY := r.data, ADMIN_KEY := r.admin];
    if binary.Some? then data[BINARY_KEY := binary.value] else data
  }

  /** The three keys the controller compares; a missing key reads as empty. */
  predicate UpToDate(data: map<string, string>, r: Rendering, binary: Option<string>) {
    && Lookup(data, CONFIG_KEY) == r.data && Lookup(data, ADMIN_KEY) == r.admin
    && Lookup(data, BINARY_KEY) == if binary.Some? then binary.value else ""
  }

  function Upserted(st: Store, cluster: string, r: Rendering, binary: Option<string>, fails: set<Call>): Result<Store> {
    var name := RenderedSecretName(cluster);
    if GetExisting in fails then Err
    else if Visible(st.secrets, name) && UpToDate(st.secrets[name].data, r, binary) then Ok(st)
    else if WriteRendered in fails || (name in st.secrets && !Visible(st.secrets, name)) then Err
    else Ok(WithSecret(st, name, Secret(Some(cluster), DesiredData(r, binary))))
  }

  function Applied(st: Store, cluster: string, a: Attempt): Store {
    if a.created.Some? then WithSecret(st, GeneratedAuthSecretName(cluster), a.created.value) else st
  }

  /** What follows an attempt: the status says why there is no rendering, or the rendering is
      stored and the status says so. */
  function Concluded(st: Store, name: string, a: Attempt, binary: Option<string>, luck: Luck): (Store, Outcome)
    requires name in st.doormen
  {
    var cluster := st.doormen[name].spec.clusterRef;
    var tried := Applied(st, cluster, a);
    if a.r.Err? then (Noted(tried, name, false, a.reason, luck.message, luck.fails), NotRendered(a.reason))
    else
      var up := Upserted(tried, cluster, a.r.value, binary, luck.fails);
      if up.Err? then (tried, Failed)
      else (Noted(up.value, name, true, Rendered, RenderedSecretName(cluster), luck.fails), Done(cluster, a.r.value))
  }

  function FinalizerEnsured(st: Store, name: string, fails: set<Call>): Result<Store>
    requires name in st.doormen
  {
    var d := st.doormen[name];
    if InUse(st, name) == d.inUseFinalizer then Ok(st)
    else if PatchDoorman in fails then Err
    else Ok(WithDoorman(st, name, d.(inUseFinalizer := InUse(st, name))))
  }

  function LiveReconciled(st: Store, name: string, a: Attempt, offered: Option<string>, luck: Luck): (Store, Outcome)
    requires name in st.doormen
  {
    var ensured := FinalizerEnsured(st, name, luck.fails);
    if ensured.Err? then (st, Failed)
    else if !InUse(st, name) || !st.clusters[st.doormen[name].spec.clusterRef].enabled then (ensured.value, Unused)
    else
      var cl := st.clusters[st.doormen[name].spec.clusterRef];
      Concluded(ensured.value, name, a, BinaryFor(offered, cl), luck)
  }

  /** One reconcile of one PgDoorman, given its attempt to render. */
  function Reconciled(st: Store, name: string, a: Attempt, offered: Option<string>, luck: Luck): (Store, Outcome) {
    if GetDoorman in luck.fails || name !in st.doormen then (st, Nothing)
    else if GetCluster in luck.fails then (st, Failed)
    else
      var d := st.doormen[name];
      if d.deleting then
        if !d.inUseFinalizer || InUse(st, name) then (st, DeletionSeen)
        else if PatchDoorman in luck.fails then (st, Failed)
        else (Released(st, name), DeletionSeen)
      else LiveReconciled(st, name, a, offered, luck)
  }

  /** The secrets as resolution sees them: the auth secret may just have been created. */
  function SecretsRead(secrets: Secrets, cluster: string, user: string, luck: Luck): Secrets {
    var created := AuthSecretFor(secrets, cluster, user, luck);
    if created.Ok? then WithAuthSecret(secrets, cluster, created.value) else secrets
  }

  /** The passwords map is one that resolution can give. */
  ghost predicate Resolvable(secrets: Secrets, n: Normalized, cluster: string, luck: Luck) {
    var read := SecretsRead(secrets, cluster, n.user, luck);
    AllReadable(n.spec, read) ==> ResolvesTo(n.spec, read, luck.passwords)
  }

  /** The attempt is the one this spec, cluster and these secrets lead to, with choices it can
      meet: an order of the pools, and a passwords map that resolution can give. */
  ghost predicate Attempts(c: Codec, cl: Cluster, secrets: Secrets, spec: Spec, luck: Luck, a: Attempt) {
    && Enumerates(luck.order, spec.pools.Keys)
    && a == Attempted(c, cl, secrets, spec, luck)
    && var n := VisitPools(spec, luck.order);
       n.Ok? ==> Resolvable(secrets, n.value, spec.clusterRef, luck)
  }

  /** One step of the controller; passwords drawn are not empty. */
  ghost predicate Reconciles(c: Codec, st: Store, name: string, luck: Luck, a: Attempt, after: Store, outcome: Outcome) {
    && luck.authPassword != "" && luck.adminPassword != ""
    && AttemptMade(c, st, name, luck, a)
    && (after, outcome) == Reconciled(st, name, a, c.binary, luck)
  }

  ghost predicate AttemptMade(c: Codec, st: Store, name: string, luck: Luck, a: Attempt) {
    Renders(st, name) ==>
      var spec := st.doormen[name].spec;
      Attempts(c, st.clusters[spec.clusterRef], st.secrets, spec, luck, a)
  }

  predicate Renders(st: Store, name: string) {
    && name in st.doormen && !st.doormen[name].deleting
    && InUse(st, name) && st.clusters[st.doormen[name].spec.clusterRef].enabled
  }

  /** The spec whose references decide which secrets wake the controller: a conflicting spec
      falls back to its raw references. */
  function Candidate(spec: Spec, order: seq<string>): Spec
    requires forall n | n in order :: n in spec.pools
  {
    var n := VisitPools(spec, order);
    if n.Ok? then n.value.spec else spec
  }

  ghost predicate AllEnumerated(doormen: map<string, PgDoorman>, orders: map<string, seq<string>>) {
    forall n | n in orders && n in doormen :: Enumerates(orders[n], doormen[n].spec.pools.Keys)
  }

  ghost predicate Wakes(spec: Spec, order: seq<string>, secret: string) {
    Enumerates(order, spec.pools.Keys) && Refers(Candidate(spec, order), secret)
  }

  lemma AnyResolution(spec: Spec, secrets: Secrets) returns (passwords: map<string, string>)
    ensures AllReadable(spec, secrets) ==> ResolvesTo(spec, secrets, passwords)
  {
    if AllReadable(spec, secrets) { passwords := SomeResolution(spec, secrets); } else { passwords := map[]; }
  }

  lemma AnyPasswords(secrets: Secrets, n: Normalized, cluster: string, given: Luck) returns (luck: Luck)
    ensures luck == given.(passwords := luck.passwords)
    ensures Resolvable(secrets, n, cluster, luck)
  {
    var read := SecretsRead(secrets, cluster, n.user, given);
    var passwords := AnyResolution(n.spec, read);
    luck := given.(passwords := passwords);
  }

  /** There are always choices an attempt can meet. */
  lemma AnyAttempt(c: Codec, cl: Cluster, secrets: Secrets, spec: Spec, given: Luck) returns (luck: Luck, a: Attempt)
    ensures Attempts(c, cl, secrets, spec, luck, a)
    ensures luck == given.(order := luck.order, passwords := luck.passwords)
  {
    var order := SomeEnumeration(spec.pools.Keys);
    luck := given.(order := order);
    var n := VisitPools(spec, order);
    if n.Ok? { luck := AnyPasswords(secrets, n.value, spec.clusterRef, luck); }
    a := Attempted(c, cl, secrets, spec, luck);
  }

  lemma AnyLuck(c: Codec, st: Store, name: string, given: Luck) returns (luck: Luck, a: Attempt)
    ensures AttemptMade(c, st, name, luck, a)
    ensures luck == given.(order := luck.order, passwords := luck.passwords)
  {
    luck, a := given, Attempt(None, InvalidSpec, Err);
    if Renders(st, name) {
      var spec := st.doormen[name].spec;
      luck, a := AnyAttempt(c, st.clusters[spec.clusterRef], st.secrets, spec, given);
    }
  }

  // ---------------------------------------------------------------- the reconciler

  /** The reconciler with the namespace it works on. The calls that will fail, the random
      passwords and the error text are parameters of each reconcile. */
  class RenderedConfigReconciler {
    const codec: Codec
    var doormen: map<string, PgDoorman>
    var clusters: map<string, Cluster>
    var secrets: Secrets
    var writes: nat

    constructor (codec: Codec, st: Store)
      ensures this.codec == codec && View() == st
    {
      this.codec := codec;
      doormen, clusters, secrets, writes := st.doormen, st.clusters, st.secrets, st.writes;
    }

    function View(): Store
      reads this
    {
      Store(doormen, clusters, secrets, writes)
    }

    /** Keeps the finalizer in step with the reference. */
    method EnsureFinalizer(name: string, inUse: bool, fails: set<Call>) returns (ok: bool)
      requires name in doormen && inUse == InUse(View(), name)
      modifies `doormen, `writes
      ensures ok ==> name in doormen && doormen[name].inUseFinalizer == inUse
      ensures FinalizerEnsured(old(View()), name, fails) == if ok then Ok(View()) else Err
      ensures !ok ==> View() == old(View())
    {
      var has := doormen[name].inUseFinalizer;
      if inUse == has { return true; }
      if PatchDoorman in fails { return false; }
      if inUse {
        doormen := doormen[name := doormen[name].(inUseFinalizer := true)];
      } else {
        doormen := doormen[name := doormen[name].(inUseFinalizer := false)];
      }
      writes := writes + 1;
      ok := true;
    }

    /** Releases the finalizer only when nothing uses the object. */
    method ReconcileDeletion(name: string, inUse: bool, fails: set<Call>) returns (outcome: Outcome)
      requires name in doormen && doormen[name].deleting && inUse == InUse(View(), name)
      modifies `doormen, `writes
      ensures inUse || !old(doormen)[name].inUseFinalizer ==> View() == old(View()) && outcome == DeletionSeen
      ensures !inUse && old(doormen)[name].inUseFinalizer ==>
        && (View() == if PatchDoorman in fails then old(View()) else Released(old(View()), name))
        && (outcome == if PatchDoorman in fails then Failed else DeletionSeen)
    {
      outcome := DeletionSeen;
      var d := doormen[name];
      if !d.inUseFinalizer || inUse { return; }
      if PatchDoorman in fails { return Failed; }
      if d.otherFinalizers {
        doormen := doormen[name := d.(inUseFinalizer := false)];
      } else {
        doormen := doormen - {name};
      }
      writes := writes + 1;
    }

    method SetRendered(name: string, ok: bool, reason: Reason, message: string, fails: set<Call>)
      requires name in doormen
      modifies `doormen, `writes
      ensures View() == Noted(old(View()), name, ok, reason, message, fails)
    {
      var d := doormen[name];
      var before := d.condition;
      d := d.(condition := Some(Condition(ok, reason, message, d.generation)));
      if ok { d := d.(observed := d.generation); }
      if d.condition == before && d.observed == d.generation { return; }
      if UpdateStatus in fails { return; }
      doormen := doormen[name := d];
      writes := writes + 1;
    }

    /** Creates the auth secret once and never overwrites one. */
    method EnsureGeneratedAuthSecret(cluster: string, user: string, ghost luck: Luck, fails: set<Call>, password: string)
      returns (ok: bool, ghost created: Option<Secret>)
      requires user != "" && luck.fails == fails && luck.authPassword == password
      modifies `secrets, `writes
      ensures AuthSecretFor(old(secrets), cluster, user, luck) == if ok then Ok(created) else Err
      ensures !ok ==> created.None?
      ensures View() == Applied(old(View()), cluster, Attempt(created, Rendered, Err))
      ensures forall n | n in old(secrets) :: n in secrets && secrets[n] == old(secrets)[n]
      ensures created.Some? ==>
        && cluster + "-doorman-auth" !in old(secrets)
        && cluster + "-doorman-auth" in secrets && secrets[cluster + "-doorman-auth"] == created.value
        && BasicAuth(created.value, cluster, user, password)
    {
      created := None;
      var name := GeneratedAuthSecretName(cluster);
      if GetAuthSecret in fails { return false, None; }
      if Visible(secrets, name) { return true, None; }
      if DrawAuthPassword in fails || name in secrets || CreateAuthSecret in fails { return false, None; }
      assert "username"[0] != "password"[0];
      var secret := Secret(Some(cluster), map["username" := user, "password" := password]);
      secrets := secrets[name := secret];
      writes := writes + 1;
      return true, Some(secret);
    }

    /** Every referenced secret must carry the cluster's label. */
    method ValidateSecretOwnership(spec: Spec, cluster: string, fails: set<Call>) returns (ok: bool)
      ensures ok <==> !(GetReferenced in fails && AnyRef(spec)) && OwnedByCluster(spec, secrets, cluster)
    {
      var names := CollectSecretNames(spec);
      if names != [] { assert names[0] in names; }
      assert names != [] <==> AnyRef(spec) by {
        if e :| HasRef(spec, e) { assert Refers(spec, RefOf(spec, e).name); }
      }
      if names != [] && GetReferenced in fails { return false; }
      for i := 0 to |names|
        invariant forall k | 0 <= k < i :: names[k] in secrets && secrets[names[k]].cluster == Some(cluster)
      {
        assert names[i] in names;
        if !Visible(secrets, names[i]) { return false; }
        if secrets[names[i]].cluster != Some(cluster) { return false; }
      }
      ok := true;
    }

    method AdminPasswordFallback(cluster: string, ghost luck: Luck, fails: set<Call>, drawn: string)
      returns (r: Result<string>)
      requires luck.fails == fails && luck.adminPassword == drawn
      ensures r == AdminPassword(secrets, cluster, luck)
    {
      var name := RenderedSecretName(cluster);
      if GetRendered in fails { return Err; }
      if Visible(secrets, name) && ADMIN_KEY in secrets[name].data && secrets[name].data[ADMIN_KEY] != "" {
        return Ok(secrets[name].data[ADMIN_KEY]);
      }
      if DrawAdminPassword in fails { return Err; }
      r := Ok(drawn);
    }

    /** The passwords map is what resolution returned. */
    method Render(spec: Spec, cluster: string, cl: Cluster, fails: set<Call>, drawn: string, ghost given: Luck)
      returns (r: Result<Rendering>, ghost luck: Luck)
      requires given.fails == fails && given.adminPassword == drawn
      ensures luck == given.(passwords := luck.passwords)
      ensures AllReadable(spec, secrets) ==> ResolvesTo(spec, secrets, luck.passwords)
      ensures r == RenderingFor(codec, cl, spec, secrets, cluster, luck)
    {
      luck := given;
      var resolved := ResolvePasswords(spec, secrets);
      if resolved.Err? { return Err, luck; }
      luck := given.(passwords := resolved.value);
      var names := CollectSecretNames(spec);
      assert names != [] <==> AnyRef(spec) by {
        if names != [] { assert names[0] in names; }
        if e :| HasRef(spec, e) { assert Refers(spec, RefOf(spec, e).name); }
      }
      if names != [] && ReadPasswords in fails { return Err, luck; }
      var admin := AdminPasswordFallback(cluster, luck, fails, drawn);
      if admin.Err? { return Err, luck; }
      var passwords := EnsureAdminPassword(resolved.value, admin.value);
      var cfg := Generate(spec, cl.poolerPort, cl.metricsPort, passwords, Some(codec.tls));
      var data := codec.marshal(cfg);
      if ValidateConfigBytes(codec.decode, data).None? { return Err, luck; }
      r := Ok(Rendering(data, admin.value));
    }

    method UpsertSecret(cluster: string, r: Rendering, binary: Option<string>, fails: set<Call>) returns (ok: bool)
      modifies `secrets, `writes
      ensures Upserted(old(View()), cluster, r, binary, fails) == if ok then Ok(View()) else Err
      ensures !ok ==> View() == old(View())
      ensures forall n | n in old(secrets) && n != RenderedSecretName(cluster) ::
        n in secrets && secrets[n] == old(secrets)[n]
    {
      var name := RenderedSecretName(cluster);
      var data := map[CONFIG_KEY := r.data, ADMIN_KEY := r.admin];
      if binary.Some? { data := data[BINARY_KEY := binary.value]; }
      if GetExisting in fails { return false; }
      if !Visible(secrets, name) {
        if WriteRendered in fails || name in secrets { return false; }
        secrets, writes := secrets[name := Secret(Some(cluster), data)], writes + 1;
        return true;
      }
      var existing := secrets[name].data;
      if Lookup(existing, CONFIG_KEY) == r.data && Lookup(existing, ADMIN_KEY) == r.admin
        && Lookup(existing, BINARY_KEY) == if binary.Some? then binary.value else ""
      {
        return true;
      }
      if WriteRendered in fails { return false; }
      secrets, writes := secrets[name := Secret(Some(cluster), data)], writes + 1;
      ok := true;
    }

    /** From the defaulted references to a rendering. */
    method TryRender(spec: Spec, cl: Cluster, fails: set<Call>, authPassword: string, adminPassword: string, ghost given: Luck)
      returns (reason: Reason, r: Result<Rendering>, ghost luck: Luck, ghost a: Attempt)
      requires given.fails == fails && given.authPassword == authPassword && given.adminPassword == adminPassword
      modifies `secrets, `writes
      ensures luck == given.(order := luck.order, passwords := luck.passwords)
      ensures Attempts(codec, cl, old(secrets), spec, luck, a)
      ensures a == Attempt(a.created, reason, r)
      ensures View() == Applied(old(View()), spec.clusterRef, a)
    {
      if !cl.paramsValid {
        luck, a := AnyAttempt(codec, cl, secrets, spec, given);
        return InvalidPluginConfig, Err, luck, a;
      }
      var copied := new PgDoormanSpec.DeepCopy(spec);
      var normalized, user, ok, order := DefaultAuthSecretRefs(copied);
      luck := given.(order := order);
      if !ok { return InvalidSpec, Err, luck, Attempt(None, InvalidSpec, Err); }
      reason, r, luck, a :=
        TryNormalized(normalized.View(), user, spec.clusterRef, cl, fails, authPassword, adminPassword, luck);
    }

    method TryNormalized(spec: Spec, user: string, cluster: string, cl: Cluster, fails: set<Call>,
                         authPassword: string, adminPassword: string, ghost given: Luck)
      returns (reason: Reason, r: Result<Rendering>, ghost luck: Luck, ghost a: Attempt)
      requires given.fails == fails && given.authPassword == authPassword && given.adminPassword == adminPassword
      modifies `secrets, `writes
      ensures luck == given.(passwords := luck.passwords)
      ensures Resolvable(old(secrets), Normalized(spec, user), cluster, luck)
      ensures a == NormalizedAttempt(codec, cl, old(secrets), Normalized(spec, user), cluster, luck)
      ensures a == Attempt(a.created, reason, r)
      ensures View() == Applied(old(View()), cluster, a)
    {
      luck := given;
      ghost var created := None;
      if user != "" {
        var ok;
        ok, created := EnsureGeneratedAuthSecret(cluster, user, luck, fails, authPassword);
        if !ok {
          luck := AnyPasswords(secrets, Normalized(spec, user), cluster, luck);
          return AuthSecretFailed, Err, luck, Attempt(None, AuthSecretFailed, Err);
        }
      }
      reason, r, luck := RenderOwned(spec, cluster, cl, fails, adminPassword, luck);
      a := Attempt(created, reason, r);
    }

    method RenderOwned(spec: Spec, cluster: string, cl: Cluster, fails: set<Call>, drawn: string, ghost given: Luck)
      returns (reason: Reason, r: Result<Rendering>, ghost luck: Luck)
      requires given.fails == fails && given.adminPassword == drawn
      ensures luck == given.(passwords := luck.passwords)
      ensures AllReadable(spec, secrets) ==> ResolvesTo(spec, secrets, luck.passwords)
      ensures (reason, r) == OwnedRendering(codec, cl, spec, secrets, cluster, luck)
    {
      var ok := ValidateSecretOwnership(spec, cluster, fails);
      if !ok {
        ghost var passwords := AnyResolution(spec, secrets);
        return SecretNotAllowed, Err, given.(passwords := passwords);
      }
      r, luck := Render(spec, cluster, cl, fails, drawn, given);
      reason := if r.Ok? then Rendered else RenderFailed;
    }

    /** The objects to reconcile when a secret changes: those whose candidate spec refers to
        it. `orders` are the iteration orders met. */
    method MapSecret(secret: string, listFails: bool) returns (reqs: seq<string>, ghost orders: map<string, seq<string>>)
      ensures Distinct(reqs) && (listFails ==> reqs == [])
      ensures !listFails ==> orders.Keys == doormen.Keys && AllEnumerated(doormen, orders)
      ensures !listFails ==>
        forall n :: n in reqs <==> n in doormen && Wakes(doormen[n].spec, orders[n], secret)
    {
      reqs, orders := [], map[];
      if listFails { return; }
      var left := doormen.Keys;
      while left != {}
        invariant left <= doormen.Keys && orders.Keys == doormen.Keys - left
        invariant Distinct(reqs) && AllEnumerated(doormen, orders)
        invariant forall n :: n in reqs <==> n in orders && Wakes(doormen[n].spec, orders[n], secret)
        decreases |left|
      {
        var name :| name in left;
        left := left - {name};
        var concerned, order := Concerned(doormen[name].spec, secret);
        orders := orders[name := order];
        if concerned { reqs := reqs + [name]; }
      }
    }

    method Concerned(spec: Spec, secret: string) returns (yes: bool, ghost order: seq<string>)
      ensures Enumerates(order, spec.pools.Keys)
      ensures yes <==> Wakes(spec, order, secret)
    {
      var given := new PgDoormanSpec.DeepCopy(spec);
      var normalized, _, ok, met := DefaultAuthSecretRefs(given);
      order := met;
      var candidate := if ok then normalized.View() else spec;
      var names := CollectSecretNames(candidate);
      yes := secret in names;
    }

    method RenderAndRecord(name: string, fails: set<Call>, authPassword: string, adminPassword: string, message: string)
      returns (outcome: Outcome, ghost luck: Luck, ghost a: Attempt)
      requires name in doormen && doormen[name].spec.clusterRef in clusters
      modifies this
      ensures luck == Luck(fails, luck.order, luck.passwords, authPassword, adminPassword, message)
      ensures var spec := old(doormen)[name].spec; var cl := old(clusters)[spec.clusterRef];
        && Attempts(codec, cl, old(secrets), spec, luck, a)
        && Concluded(old(View()), name, a, BinaryFor(codec.binary, cl), luck) == (View(), outcome)
    {
      var spec := doormen[name].spec;
      var cl := clusters[spec.clusterRef];
      var reason, r;
      reason, r, luck, a := TryRender(spec, cl, fails, authPassword, adminPassword,
                                      Luck(fails, [], map[], authPassword, adminPassword, message));
      if r.Err? {
        SetRendered(name, false, reason, message, fails);
        return NotRendered(reason), luck, a;
      }
      var ok := UpsertSecret(spec.clusterRef, r.value, BinaryFor(codec.binary, cl), fails);
      if !ok { return Failed, luck, a; }
      SetRendered(name, true, Rendered, RenderedSecretName(spec.clusterRef), fails);
      outcome := Done(spec.clusterRef, r.value);
    }

    /** One reconcile. */
    method Reconcile(name: string, fails: set<Call>, authPassword: string, adminPassword: string, message: string)
      returns (outcome: Outcome, ghost luck: Luck, ghost a: Attempt)
      requires authPassword != "" && adminPassword != ""
      modifies this
      ensures luck == Luck(fails, luck.order, luck.passwords, authPassword, adminPassword, message)
      ensures Reconciles(codec, old(View()), name, luck, a, View(), outcome)
    {
      luck, a := AnyLuck(codec, View(), name, Luck(fails, [], map[], authPassword, adminPassword, message));
      if GetDoorman in fails || name !in doormen { return Nothing, luck, a; }
      if GetCluster in fails { return Failed, luck, a; }
      var cluster := doormen[name].spec.clusterRef;
      var clusterExists := cluster in clusters;
      var inUse := clusterExists && clusters[cluster].configName == name;
      if doormen[name].deleting {
        outcome := ReconcileDeletion(name, inUse, fails);
        return;
      }
      outcome, luck, a := ReconcileLive(name, inUse, fails, authPassword, adminPassword, message);
    }

    method ReconcileLive(name: string, inUse: bool, fails: set<Call>,
                         authPassword: string, adminPassword: string, message: string)
      returns (outcome: Outcome, ghost luck: Luck, ghost a: Attempt)
      requires name in doormen && inUse == InUse(View(), name)
      modifies this
      ensures luck == Luck(fails, luck.order, luck.passwords, authPassword, adminPassword, message)
      ensures AttemptMade(codec, old(View()), name, luck, a)
      ensures LiveReconciled(old(View()), name, a, codec.binary, luck) == (View(), outcome)
    {
      luck, a := AnyLuck(codec, View(), name, Luck(fails, [], map[], authPassword, adminPassword, message));
      var cluster := doormen[name].spec.clusterRef;
      var ok := EnsureFinalizer(name, inUse, fails);
      if !ok { return Failed, luck, a; }
      if cluster !in clusters { return Unused, luck, a; }
      if !clusters[cluster].enabled || clusters[cluster].configName != name { return Unused, luck, a; }
      outcome, luck, a := RenderAndRecord(name, fails, authPassword, adminPassword, message);
    }
  }
}
