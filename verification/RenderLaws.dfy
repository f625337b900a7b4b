/** When rendering reaches a fixpoint, and which secrets it depends on. */
module RenderLaws {
  import opened Wrappers
  import opened Spec
  import opened AuthSecrets
  import opened Config
  import opened ConfigGen
  import opened Credentials
  import opened Controller
  import opened RenderRuns

  // ---------------------------------------------------------------------- fixpoint

  /** The first ref-less pool that gave the user now refers to the generated secret. */
  lemma GeneratedSecretIsReferred(spec: Spec, order: seq<string>)
    requires Enumerates(order, spec.pools.Keys) && VisitPools(spec, order).Ok?
    requires VisitPools(spec, order).value.user != ""
    ensures Refers(VisitPools(spec, order).value.spec, GeneratedAuthSecretName(spec.clusterRef))
  {
    VisitAll(spec, order);
    EarlierUsers(spec, order);
    var i :| 0 <= i < |order| && IsRefLess(spec, order[i]) && UserOf(spec, order[i]) == LastUser(spec, order);
    var done := VisitPools(spec, order).value.spec;
    assert HasRef(done, AuthEntry(order[i]));
    assert RefOf(done, AuthEntry(order[i])).name == GeneratedAuthSecretName(spec.clusterRef);
  }

  /** The auth secret is not created twice, and resolution reads what is there. */
  lemma AuthSecretOnce(secrets: Secrets, after: Secrets, cluster: string, user: string, luck: Luck, again: Luck,
                       created: Option<Secret>)
    requires AuthSecretFor(secrets, cluster, user, luck) == Ok(created) && again.fails == {}
    requires SameBut(WithAuthSecret(secrets, cluster, created), after, RenderedSecretName(cluster))
    ensures AuthSecretFor(after, cluster, user, again) == Ok(None)
    ensures SecretsRead(after, cluster, user, again) == after
    ensures SecretsRead(secrets, cluster, user, luck) == WithAuthSecret(secrets, cluster, created)
  {
    SecretNamesDiffer(cluster, cluster);
  }

  lemma DoneAuth(c: Codec, cl: Cluster, secrets: Secrets, spec: Spec, luck: Luck, a: Attempt)
    requires Attempts(c, cl, secrets, spec, luck, a) && a.r.Ok?
    ensures cl.paramsValid && VisitPools(spec, luck.order).Ok?
    ensures AuthSecretFor(secrets, spec.clusterRef, VisitPools(spec, luck.order).value.user, luck) == Ok(a.created)
  {
  }

  /** What an attempt gives once it is known what it reads. */
  lemma AttemptFrom(c: Codec, cl: Cluster, secrets: Secrets, spec: Spec, luck: Luck, a: Attempt, n: Normalized)
    requires Attempts(c, cl, secrets, spec, luck, a) && luck.fails == {} && cl.paramsValid
    requires VisitPools(spec, luck.order) == Ok(n)
    requires AuthSecretFor(secrets, spec.clusterRef, n.user, luck) == Ok(None)
    requires OwnedByCluster(n.spec, secrets, spec.clusterRef) && AllReadable(n.spec, secrets)
    requires PersistedAdmin(secrets, spec.clusterRef) != ""
    ensures ResolvesTo(n.spec, secrets, luck.passwords)
    ensures var admin := PersistedAdmin(secrets, spec.clusterRef);
      var data := c.marshal(ConfigFor(n.spec, cl.poolerPort, cl.metricsPort, luck.passwords, admin, Some(c.tls)));
      ValidateConfigBytes(c.decode, data).Some? ==> a == Attempt(None, Rendered, Ok(Rendering(data, admin)))
  {
  }

  /** The secrets a second attempt meets: those the first one read, with the rendering stored. */
  ghost predicate SecretsAfter(secrets: Secrets, cluster: string, a: Attempt, binary: Option<string>, after: Secrets) {
    a.r.Ok? && StoredIn(WithAuthSecret(secrets, cluster, a.created), after, cluster, a.r.value, binary)
  }

  ghost predicate Lossless(c: Codec) { forall cfg :: c.decode(c.marshal(cfg)) == Some(cfg) }

  /** The configuration in the cluster's rendered secret. */
  function Stored(c: Codec, secrets: Secrets, cluster: string): Option<DoormanConfig>
    requires RenderedSecretName(cluster) in secrets
  {
    c.decode(Lookup(secrets[RenderedSecretName(cluster)].data, CONFIG_KEY))
  }

  /** Every entry of the stored configuration carries what its reference reads now. */
  ghost predicate StoredIsCurrent(c: Codec, secrets: Secrets, spec: Spec) {
    && RenderedSecretName(spec.clusterRef) in secrets
    && Stored(c, secrets, spec.clusterRef).Some?
    && OwnValues(spec, secrets, Stored(c, secrets, spec.clusterRef).value)
  }

  /** What a rendering decodes to, and what its entries carry. */
  lemma StoredRendering(c: Codec, cl: Cluster, secrets: Secrets, spec: Spec, luck: Luck, a: Attempt, e: Entry)
    requires Attempts(c, cl, secrets, spec, luck, a) && a.r.Ok? && Lossless(c)
    ensures VisitPools(spec, luck.order).Ok?
    ensures var n := VisitPools(spec, luck.order).value;
      var cfg := ConfigFor(n.spec, cl.poolerPort, cl.metricsPort, luck.passwords, a.r.value.admin, Some(c.tls));
      && c.decode(a.r.value.data) == Some(cfg)
      && (HasRef(n.spec, e) ==>
            KeyOf(n.spec, e) in luck.passwords && EntryPassword(n.spec, cfg, e) == luck.passwords[KeyOf(n.spec, e)])
  {
    RenderingIsExact(c, cl, secrets, spec, luck, a);
    var n := VisitPools(spec, luck.order).value;
    var read := SecretsRead(secrets, spec.clusterRef, n.user, luck);
    if HasRef(n.spec, e) {
      EntryReads(n.spec, read, cl.poolerPort, cl.metricsPort, luck.passwords, a.r.value.admin, Some(c.tls), e);
      assert Reached(n.spec, read, luck.passwords, e);
    }
  }

  /** A map that resolves the current values and agrees with the carried ones is the same. */
  lemma CarriedMap(spec: Spec, read: Secrets, after: Secrets, p: map<string, string>, q: map<string, string>)
    requires ResolvesTo(spec, read, p) && ResolvesTo(spec, after, q)
    requires forall e | HasRef(spec, e) :: KeyOf(spec, e) in p && ExtractSecretValue(after, RefOf(spec, e)) == Some(p[KeyOf(spec, e)])
    ensures p == q
  {
    forall k | k in p || k in q ensures k in p && k in q && p[k] == q[k] {
      assert k in p ==> HoldsOwn(spec, read, p, k);
      assert k in q ==> HoldsOwn(spec, after, q, k);
      var e :| HasRef(spec, e) && KeyOf(spec, e) == k;
      assert Reached(spec, after, q, e);
      assert HoldsOwn(spec, after, q, k);
    }
  }

  lemma StillOwned(spec: Spec, read: Secrets, after: Secrets, cluster: string, r: Rendering, binary: Option<string>)
    requires OwnedByCluster(spec, read, cluster) && StoredIn(read, after, cluster, r, binary)
    ensures OwnedByCluster(spec, after, cluster)
  {
    forall name | Refers(spec, name) ensures name in after && after[name].cluster == Some(cluster) {
      assert name in read;
    }
  }

  /** When the stored configuration is current, every second attempt renders it again. */
  lemma SecondAttempt(c: Codec, cl: Cluster, secrets: Secrets, after: Secrets, spec: Spec, binary: Option<string>,
                      luck: Luck, a: Attempt, again: Luck, b: Attempt, n: Normalized)
    requires Attempts(c, cl, secrets, spec, luck, a) && SecretsAfter(secrets, spec.clusterRef, a, binary, after)
    requires luck.adminPassword != "" && again.fails == {} && Lossless(c)
    requires Attempts(c, cl, after, spec, again, b)
    requires VisitPools(spec, luck.order) == VisitPools(spec, again.order) == Ok(n) && n.spec.clusterRef == spec.clusterRef
    requires StoredIsCurrent(c, after, n.spec)
    ensures b == Attempt(None, Rendered, Ok(a.r.value))
  {
    DoneAuth(c, cl, secrets, spec, luck, a);
    var read := WithAuthSecret(secrets, spec.clusterRef, a.created);
    AuthSecretOnce(secrets, after, spec.clusterRef, n.user, luck, again, a.created);
    RenderingIsExact(c, cl, secrets, spec, luck, a);
    AdminIsKept(c, cl, secrets, spec, luck, a);
    StillOwned(n.spec, read, after, spec.clusterRef, a.r.value, binary);
    forall e | HasRef(n.spec, e)
      ensures KeyOf(n.spec, e) in luck.passwords
      ensures ExtractSecretValue(after, RefOf(n.spec, e)) == Some(luck.passwords[KeyOf(n.spec, e)])
    {
      StoredRendering(c, cl, secrets, spec, luck, a, e);
    }
    AttemptFrom(c, cl, after, spec, again, b, n);
    CarriedMap(n.spec, read, after, luck.passwords, again.passwords);
  }

  /** No reconcile of the object without faults writes anything. */
  ghost predicate AlwaysIdle(c: Codec, st: Store, name: string) {
    forall luck, a, after, outcome | Reconciles(c, st, name, luck, a, after, outcome) && luck.fails == {} :: after == st
  }

  function Faultless(order: seq<string>, passwords: map<string, string>): Luck {
    Luck({}, order, passwords, "auth", "admin", "")
  }

  lemma IdleForces(c: Codec, st: Store, name: string, a: Attempt, after: Store, again: Luck, b: Attempt)
    requires Settled(st, name, a, c.binary, after) && AlwaysIdle(c, after, name)
    requires again.fails == {} && again.authPassword != "" && again.adminPassword != ""
    requires AttemptMade(c, after, name, again, b)
    ensures b.created.None? && b.r == Ok(a.r.value)
  {
    var (later, end) := Reconciled(after, name, b, c.binary, again);
    assert Reconciles(c, after, name, again, b, later, end);
    IdleExactly(st, name, a, c.binary, after, b, again);
  }

  lemma IdleMeansUnmixed(c: Codec, st: Store, name: string, a: Attempt, after: Store)
    requires Settled(st, name, a, c.binary, after) && AlwaysIdle(c, after, name)
    ensures !Mixed(st.doormen[name].spec)
  {
    var spec := st.doormen[name].spec;
    if Mixed(spec) {
      EmptyUserLate(spec);
      var order :| Enumerates(order, spec.pools.Keys) && VisitPools(spec, order).Err?;
      var again := Faultless(order, map[]);
      var b := Attempted(c, st.clusters[spec.clusterRef], after.secrets, spec, again);
      assert b.r.Err?;
      IdleForces(c, st, name, a, after, again, b);
    }
  }

  /** A resolution that gives one entry its own value. */
  lemma ResolutionFor(spec: Spec, secrets: Secrets, e: Entry) returns (passwords: map<string, string>)
    requires AllReadable(spec, secrets) && HasRef(spec, e)
    ensures ResolvesTo(spec, secrets, passwords)
    ensures KeyOf(spec, e) in passwords && ExtractSecretValue(secrets, RefOf(spec, e)) == Some(passwords[KeyOf(spec, e)])
  {
    var some := SomeResolution(spec, secrets);
    passwords := some[KeyOf(spec, e) := ExtractSecretValue(secrets, RefOf(spec, e)).value];
    forall k | k in passwords ensures HoldsOwn(spec, secrets, passwords, k) {
      if k != KeyOf(spec, e) { assert HoldsOwn(spec, secrets, some, k); }
    }
    forall f | HasRef(spec, f) ensures Reached(spec, secrets, passwords, f) {
      assert Reached(spec, secrets, some, f);
    }
  }

  /** With the auth secret settled, any order and any resolution make up an attempt. */
  lemma AnotherAttempt(c: Codec, cl: Cluster, secrets: Secrets, spec: Spec, n: Normalized, again: Luck)
    requires Enumerates(again.order, spec.pools.Keys) && VisitPools(spec, again.order) == Ok(n)
    requires AuthSecretFor(secrets, spec.clusterRef, n.user, again) == Ok(None)
    requires AllReadable(n.spec, secrets) ==> ResolvesTo(n.spec, secrets, again.passwords)
    ensures var b := Attempted(c, cl, secrets, spec, again);
      Attempts(c, cl, secrets, spec, again, b) && (b.r.Ok? ==> AllReadable(n.spec, secrets))
  {
  }

  lemma IdleMeansReadable(c: Codec, st: Store, name: string, a: Attempt, after: Store, n: Normalized, again: Luck)
    requires Settled(st, name, a, c.binary, after) && AlwaysIdle(c, after, name)
    requires again == Faultless(again.order, map[]) && Enumerates(again.order, st.doormen[name].spec.pools.Keys)
    requires VisitPools(st.doormen[name].spec, again.order) == Ok(n)
    requires AuthSecretFor(after.secrets, st.doormen[name].spec.clusterRef, n.user, again) == Ok(None)
    ensures AllReadable(n.spec, after.secrets)
  {
    if !AllReadable(n.spec, after.secrets) {
      var spec := st.doormen[name].spec;
      var cl := st.clusters[spec.clusterRef];
      AnotherAttempt(c, cl, after.secrets, spec, n, again);
      IdleForces(c, st, name, a, after, again, Attempted(c, cl, after.secrets, spec, again));
    }
  }

  /** If every later reconcile is idle, the entry carries what its reference reads now: the
      map order might favour this very entry. */
  lemma IdleMeansCurrent(c: Codec, st: Store, name: string, luck: Luck, a: Attempt, after: Store, n: Normalized, e: Entry)
    requires Lossless(c) && Settled(st, name, a, c.binary, after) && AlwaysIdle(c, after, name)
    requires AttemptMade(c, st, name, luck, a)
    requires VisitPools(st.doormen[name].spec, luck.order) == Ok(n) && HasRef(n.spec, e)
    ensures var cfg := c.decode(a.r.value.data);
      cfg.Some? && ExtractSecretValue(after.secrets, RefOf(n.spec, e)) == Some(EntryPassword(n.spec, cfg.value, e))
  {
    var spec := st.doormen[name].spec;
    DoneAuth(c, st.clusters[spec.clusterRef], st.secrets, spec, luck, a);
    AuthSecretOnce(st.secrets, after.secrets, spec.clusterRef, n.user, luck, Faultless(luck.order, map[]), a.created);
    AnyOrderMeansCurrent(c, st, name, a, after, n, luck.order, e);
  }

  lemma AnyOrderMeansCurrent(c: Codec, st: Store, name: string, a: Attempt, after: Store, n: Normalized,
                             order: seq<string>, e: Entry)
    requires Lossless(c) && Settled(st, name, a, c.binary, after) && AlwaysIdle(c, after, name)
    requires Enumerates(order, st.doormen[name].spec.pools.Keys)
    requires VisitPools(st.doormen[name].spec, order) == Ok(n) && HasRef(n.spec, e)
    requires AuthSecretFor(after.secrets, st.doormen[name].spec.clusterRef, n.user, Faultless(order, map[])) == Ok(None)
    ensures var cfg := c.decode(a.r.value.data);
      cfg.Some? && ExtractSecretValue(after.secrets, RefOf(n.spec, e)) == Some(EntryPassword(n.spec, cfg.value, e))
  {
    var spec := st.doormen[name].spec;
    IdleMeansReadable(c, st, name, a, after, n, Faultless(order, map[]));
    var passwords := ResolutionFor(n.spec, after.secrets, e);
    var again := Faultless(order, passwords);
    assert AuthSecretFor(after.secrets, spec.clusterRef, n.user, again) == Ok(None);
    var b := SameAgain(c, st, name, a, after, n, again);
    StoredRendering(c, st.clusters[spec.clusterRef], after.secrets, spec, again, b, e);
  }

  lemma SameAgain(c: Codec, st: Store, name: string, a: Attempt, after: Store, n: Normalized, again: Luck)
    returns (b: Attempt)
    requires Settled(st, name, a, c.binary, after) && AlwaysIdle(c, after, name)
    requires again == Faultless(again.order, again.passwords)
    requires Enumerates(again.order, st.doormen[name].spec.pools.Keys)
    requires VisitPools(st.doormen[name].spec, again.order) == Ok(n)
    requires AuthSecretFor(after.secrets, st.doormen[name].spec.clusterRef, n.user, again) == Ok(None)
    requires ResolvesTo(n.spec, after.secrets, again.passwords)
    ensures Attempts(c, st.clusters[st.doormen[name].spec.clusterRef], after.secrets, st.doormen[name].spec, again, b)
    ensures b.r == Ok(a.r.value)
  {
    var spec := st.doormen[name].spec;
    var cl := st.clusters[spec.clusterRef];
    AnotherAttempt(c, cl, after.secrets, spec, n, again);
    b := Attempted(c, cl, after.secrets, spec, again);
    IdleForces(c, st, name, a, after, again, b);
  }

  /** The store a successful reconcile leaves, and what is settled in it. */
  ghost predicate Succeeded(c: Codec, st: Store, name: string, luck: Luck, a: Attempt, after: Store) {
    && UpdateStatus !in luck.fails && luck.adminPassword != ""
    && Renders(st, name) && AttemptMade(c, st, name, luck, a)
    && Settled(st, name, a, c.binary, after)
  }

  lemma DoneSucceeds(c: Codec, st: Store, name: string, luck: Luck, a: Attempt, after: Store, outcome: Outcome)
    requires Reconciles(c, st, name, luck, a, after, outcome) && outcome.Done? && UpdateStatus !in luck.fails
    ensures Succeeded(c, st, name, luck, a, after)
    ensures VisitPools(st.doormen[name].spec, luck.order).Ok?
    ensures VisitPools(st.doormen[name].spec, luck.order).value.spec.clusterRef == st.doormen[name].spec.clusterRef
  {
    var spec := st.doormen[name].spec;
    DoneSettles(st, name, a, c.binary, luck);
    DoneAuth(c, st.clusters[spec.clusterRef], st.secrets, spec, luck, a);
    VisitAll(spec, luck.order);
  }

  lemma CurrentMeansIdle(c: Codec, st: Store, name: string, luck: Luck, a: Attempt, after: Store, n: Normalized,
                         again: Luck, b: Attempt)
    requires Lossless(c) && Succeeded(c, st, name, luck, a, after)
    requires VisitPools(st.doormen[name].spec, luck.order) == Ok(n) && n.spec.clusterRef == st.doormen[name].spec.clusterRef
    requires !Mixed(st.doormen[name].spec) && StoredIsCurrent(c, after.secrets, n.spec)
    requires AttemptMade(c, after, name, again, b) && again.fails == {}
    ensures Reconciled(after, name, b, c.binary, again).0 == after
  {
    var spec := st.doormen[name].spec;
    var cl := st.clusters[spec.clusterRef];
    OrderIrrelevant(spec, luck.order);
    OrderIrrelevant(spec, again.order);
    SecondAttempt(c, cl, st.secrets, after.secrets, spec, BinaryFor(c.binary, cl), luck, a, again, b, n);
    IdleExactly(st, name, a, c.binary, after, b, again);
  }

  lemma IdleMeansStoredIsCurrent(c: Codec, st: Store, name: string, luck: Luck, a: Attempt, after: Store, n: Normalized)
    requires Lossless(c) && Succeeded(c, st, name, luck, a, after) && AlwaysIdle(c, after, name)
    requires VisitPools(st.doormen[name].spec, luck.order) == Ok(n) && n.spec.clusterRef == st.doormen[name].spec.clusterRef
    ensures StoredIsCurrent(c, after.secrets, n.spec)
  {
    var cl := st.clusters[n.spec.clusterRef];
    StoredRendering(c, cl, st.secrets, st.doormen[name].spec, luck, a, AdminEntry);
    forall e | HasRef(n.spec, e)
      ensures ExtractSecretValue(after.secrets, RefOf(n.spec, e))
        == Some(EntryPassword(n.spec, c.decode(a.r.value.data).value, e))
    {
      IdleMeansCurrent(c, st, name, luck, a, after, n, e);
    }
  }

  /** Main result: after a successful reconcile, no further reconcile without faults writes,
      whatever the map orders, exactly when ref-less users are not mixed and every entry of
      the stored configuration carries what its reference reads now. */
  lemma FixpointExactly(c: Codec, st: Store, name: string, luck: Luck, a: Attempt, after: Store, outcome: Outcome)
    requires Reconciles(c, st, name, luck, a, after, outcome) && outcome.Done? && UpdateStatus !in luck.fails
    requires Lossless(c)
    ensures VisitPools(st.doormen[name].spec, luck.order).Ok?
    ensures AlwaysIdle(c, after, name) <==>
      && !Mixed(st.doormen[name].spec)
      && StoredIsCurrent(c, after.secrets, VisitPools(st.doormen[name].spec, luck.order).value.spec)
  {
    DoneSucceeds(c, st, name, luck, a, after, outcome);
    var n := VisitPools(st.doormen[name].spec, luck.order).value;
    if AlwaysIdle(c, after, name) {
      IdleMeansUnmixed(c, st, name, a, after);
      IdleMeansStoredIsCurrent(c, st, name, luck, a, after, n);
    }
    if !Mixed(st.doormen[name].spec) && StoredIsCurrent(c, after.secrets, n.spec) {
      forall again, b, later, end | Reconciles(c, after, name, again, b, later, end) && again.fails == {}
        ensures later == after
      {
        CurrentMeansIdle(c, st, name, luck, a, after, n, again, b);
      }
    }
  }

  // ------------------------------------------- what keeps the stored config current

  /** Entries that share a key read the same. */
  ghost predicate SharedKeysAgree(spec: Spec, secrets: Secrets) {
    && AllReadable(spec, secrets)
    && forall e, f | HasRef(spec, e) && HasRef(spec, f) && KeyOf(spec, e) == KeyOf(spec, f) ::
         ExtractSecretValue(secrets, RefOf(spec, e)) == ExtractSecretValue(secrets, RefOf(spec, f))
  }

  /** References to the rendered secret read after the rendering what they read before. */
  ghost predicate SelfReadsKeep(spec: Spec, read: Secrets, after: Secrets) {
    forall e | HasRef(spec, e) && RefOf(spec, e).name == RenderedSecretName(spec.clusterRef) ::
      ExtractSecretValue(after, RefOf(spec, e)) == ExtractSecretValue(read, RefOf(spec, e))
  }

  lemma KeepsReading(spec: Spec, read: Secrets, after: Secrets, e: Entry)
    requires SameBut(read, after, RenderedSecretName(spec.clusterRef)) && SelfReadsKeep(spec, read, after)
    requires HasRef(spec, e)
    ensures ExtractSecretValue(after, RefOf(spec, e)) == ExtractSecretValue(read, RefOf(spec, e))
  {
  }

  /** A stored configuration whose self-reads kept their values is current exactly when
      entries that share a key read the same. */
  lemma CurrentWhenSharedKeysAgree(c: Codec, cl: Cluster, secrets: Secrets, spec: Spec, luck: Luck, a: Attempt, after: Secrets)
    requires Attempts(c, cl, secrets, spec, luck, a) && a.r.Ok? && Lossless(c)
    requires var n := VisitPools(spec, luck.order);
      n.Ok? && n.value.spec.clusterRef == spec.clusterRef
      && var read := SecretsRead(secrets, spec.clusterRef, n.value.user, luck);
         SameBut(read, after, RenderedSecretName(spec.clusterRef)) && SelfReadsKeep(n.value.spec, read, after)
    requires RenderedSecretName(spec.clusterRef) in after
    requires Lookup(after[RenderedSecretName(spec.clusterRef)].data, CONFIG_KEY) == a.r.value.data
    ensures StoredIsCurrent(c, after, VisitPools(spec, luck.order).value.spec)
      <==> SharedKeysAgree(VisitPools(spec, luck.order).value.spec, after)
  {
    var n := VisitPools(spec, luck.order).value;
    var read := SecretsRead(secrets, spec.clusterRef, n.user, luck);
    var cfg := RenderedFrom(c, cl, secrets, spec, luck, a);
    AllKeepReading(n.spec, read, after);
    StoredCarries(c, after, n.spec, cfg, luck.passwords);
    CarriedExactly(n.spec, read, after, luck.passwords);
  }

  lemma RenderedFrom(c: Codec, cl: Cluster, secrets: Secrets, spec: Spec, luck: Luck, a: Attempt) returns (cfg: DoormanConfig)
    requires Attempts(c, cl, secrets, spec, luck, a) && a.r.Ok? && Lossless(c)
    ensures VisitPools(spec, luck.order).Ok? && c.decode(a.r.value.data) == Some(cfg)
    ensures var n := VisitPools(spec, luck.order).value;
      && ResolvesTo(n.spec, SecretsRead(secrets, spec.clusterRef, n.user, luck), luck.passwords)
      && CarriesMap(n.spec, cfg, luck.passwords)
  {
    RenderingIsExact(c, cl, secrets, spec, luck, a);
    var n := VisitPools(spec, luck.order).value;
    cfg := ConfigFor(n.spec, cl.poolerPort, cl.metricsPort, luck.passwords, a.r.value.admin, Some(c.tls));
    forall e | HasRef(n.spec, e)
      ensures KeyOf(n.spec, e) in luck.passwords && EntryPassword(n.spec, cfg, e) == luck.passwords[KeyOf(n.spec, e)]
    {
      StoredRendering(c, cl, secrets, spec, luck, a, e);
    }
  }

  ghost predicate CarriesMap(spec: Spec, cfg: DoormanConfig, passwords: map<string, string>) {
    forall e | HasRef(spec, e) ::
      KeyOf(spec, e) in passwords && EntryPassword(spec, cfg, e) == passwords[KeyOf(spec, e)]
  }

  lemma StoredCarries(c: Codec, after: Secrets, spec: Spec, cfg: DoormanConfig, passwords: map<string, string>)
    requires RenderedSecretName(spec.clusterRef) in after && Stored(c, after, spec.clusterRef) == Some(cfg)
    requires CarriesMap(spec, cfg, passwords)
    ensures StoredIsCurrent(c, after, spec) <==>
      forall e | HasRef(spec, e) ::
        KeyOf(spec, e) in passwords && ExtractSecretValue(after, RefOf(spec, e)) == Some(passwords[KeyOf(spec, e)])
  {
  }

  lemma AllKeepReading(spec: Spec, read: Secrets, after: Secrets)
    requires SameBut(read, after, RenderedSecretName(spec.clusterRef)) && SelfReadsKeep(spec, read, after)
    ensures forall e | HasRef(spec, e) ::
      ExtractSecretValue(after, RefOf(spec, e)) == ExtractSecretValue(read, RefOf(spec, e))
  {
    forall e | HasRef(spec, e)
      ensures ExtractSecretValue(after, RefOf(spec, e)) == ExtractSecretValue(read, RefOf(spec, e))
    {
      KeepsReading(spec, read, after, e);
    }
  }

  /** A map resolved from the same values carries each entry's own exactly when shared keys
      agree. */
  lemma CarriedExactly(spec: Spec, read: Secrets, after: Secrets, passwords: map<string, string>)
    requires ResolvesTo(spec, read, passwords)
    requires forall e | HasRef(spec, e) ::
      ExtractSecretValue(after, RefOf(spec, e)) == ExtractSecretValue(read, RefOf(spec, e))
    ensures SharedKeysAgree(spec, after) <==>
      forall e | HasRef(spec, e) ::
        KeyOf(spec, e) in passwords && ExtractSecretValue(after, RefOf(spec, e)) == Some(passwords[KeyOf(spec, e)])
  {
    forall e | HasRef(spec, e) ensures KeyOf(spec, e) in passwords {
      assert Reached(spec, read, passwords, e);
    }
    if SharedKeysAgree(spec, after) {
      forall e | HasRef(spec, e)
        ensures ExtractSecretValue(after, RefOf(spec, e)) == Some(passwords[KeyOf(spec, e)])
      {
        assert HoldsOwn(spec, read, passwords, KeyOf(spec, e));
      }
    }
  }

  /** No entry that reads the rendered secret shares its key with another reference. */
  ghost predicate SelfReadsUnshared(spec: Spec) {
    forall e, f | HasRef(spec, e) && HasRef(spec, f) && KeyOf(spec, e) == KeyOf(spec, f)
      && RefOf(spec, e).name == RenderedSecretName(spec.clusterRef) :: RefOf(spec, f) == RefOf(spec, e)
  }

  /** In terms of references: later reconciles are idle exactly when users are not mixed,
      entries that share a key read the same, and every reference to the rendered secret
      reads after the rendering what it read before.  Without such references the last
      condition is void. */
  lemma FixpointByReferences(c: Codec, st: Store, name: string, luck: Luck, a: Attempt, after: Store, outcome: Outcome)
    requires Reconciles(c, st, name, luck, a, after, outcome) && outcome.Done? && UpdateStatus !in luck.fails
    requires Lossless(c)
    requires var n := VisitPools(st.doormen[name].spec, luck.order); n.Ok? ==> SelfReadsUnshared(n.value.spec)
    ensures var spec := st.doormen[name].spec;
      VisitPools(spec, luck.order).Ok? &&
      var n := VisitPools(spec, luck.order).value;
      AlwaysIdle(c, after, name) <==>
        && !Mixed(spec)
        && SharedKeysAgree(n.spec, after.secrets)
        && SelfReadsKeep(n.spec, WithAuthSecret(st.secrets, spec.clusterRef, a.created), after.secrets)
  {
    FixpointExactly(c, st, name, luck, a, after, outcome);
    var spec := st.doormen[name].spec;
    var n := VisitPools(spec, luck.order).value;
    var read := WithAuthSecret(st.secrets, spec.clusterRef, a.created);
    if SelfReadsKeep(n.spec, read, after.secrets) {
      SelfReadsDecide(c, st, name, luck, a, after, outcome);
    }
    if StoredIsCurrent(c, after.secrets, n.spec) {
      DoneSucceeds(c, st, name, luck, a, after, outcome);
      CurrentMeansKept(c, st.clusters[spec.clusterRef], st.secrets, spec, luck, a, after.secrets);
      DoneAuth(c, st.clusters[spec.clusterRef], st.secrets, spec, luck, a);
    }
  }

  lemma CurrentMeansKept(c: Codec, cl: Cluster, secrets: Secrets, spec: Spec, luck: Luck, a: Attempt, after: Secrets)
    requires Attempts(c, cl, secrets, spec, luck, a) && a.r.Ok? && Lossless(c)
    requires var n := VisitPools(spec, luck.order);
      n.Ok? && n.value.spec.clusterRef == spec.clusterRef && SelfReadsUnshared(n.value.spec)
      && StoredIsCurrent(c, after, n.value.spec)
    requires Lookup(after[RenderedSecretName(spec.clusterRef)].data, CONFIG_KEY) == a.r.value.data
    ensures var n := VisitPools(spec, luck.order).value;
      SelfReadsKeep(n.spec, SecretsRead(secrets, spec.clusterRef, n.user, luck), after)
  {
    var n := VisitPools(spec, luck.order).value;
    var read := SecretsRead(secrets, spec.clusterRef, n.user, luck);
    RenderingIsExact(c, cl, secrets, spec, luck, a);
    forall e | HasRef(n.spec, e) && RefOf(n.spec, e).name == RenderedSecretName(n.spec.clusterRef)
      ensures ExtractSecretValue(after, RefOf(n.spec, e)) == ExtractSecretValue(read, RefOf(n.spec, e))
    {
      StoredRendering(c, cl, secrets, spec, luck, a, e);
      assert HoldsOwn(n.spec, read, luck.passwords, KeyOf(n.spec, e));
    }
  }

  /** With references to the rendered secret whose values survived the rendering, the same. */
  lemma SelfReadsDecide(c: Codec, st: Store, name: string, luck: Luck, a: Attempt, after: Store, outcome: Outcome)
    requires Reconciles(c, st, name, luck, a, after, outcome) && outcome.Done? && UpdateStatus !in luck.fails
    requires Lossless(c)
    requires var spec := st.doormen[name].spec;
      VisitPools(spec, luck.order).Ok? ==>
        SelfReadsKeep(VisitPools(spec, luck.order).value.spec, WithAuthSecret(st.secrets, spec.clusterRef, a.created), after.secrets)
    ensures var n := VisitPools(st.doormen[name].spec, luck.order);
      n.Ok? && (StoredIsCurrent(c, after.secrets, n.value.spec) <==> SharedKeysAgree(n.value.spec, after.secrets))
  {
    DoneSucceeds(c, st, name, luck, a, after, outcome);
    var spec := st.doormen[name].spec;
    var cl, n := st.clusters[spec.clusterRef], VisitPools(spec, luck.order).value;
    DoneAuth(c, cl, st.secrets, spec, luck, a);
    assert SecretsRead(st.secrets, spec.clusterRef, n.user, luck) == WithAuthSecret(st.secrets, spec.clusterRef, a.created);
    CurrentWhenSharedKeysAgree(c, cl, st.secrets, spec, luck, a, after.secrets);
  }

  /** References to the rendered secret, if any, are to an admin password kept in it. */
  ghost predicate SelfReadsOnlyAdmin(spec: Spec, secrets: Secrets) {
    forall e | HasRef(spec, e) && RefOf(spec, e).name == RenderedSecretName(spec.clusterRef) ::
      RefOf(spec, e).key == ADMIN_KEY && PersistedAdmin(secrets, spec.clusterRef) != ""
  }

  /** From the spec and the store as they are before the successful reconcile: where the only
      references to the rendered secret are to its admin password, later reconciles are idle
      exactly when users are not mixed and entries that share a key read the same. */
  lemma FixpointBeforehand(c: Codec, st: Store, name: string, luck: Luck, a: Attempt, after: Store, outcome: Outcome)
    requires Reconciles(c, st, name, luck, a, after, outcome) && outcome.Done? && UpdateStatus !in luck.fails
    requires Lossless(c)
    requires var n := VisitPools(st.doormen[name].spec, luck.order);
      n.Ok? ==> SelfReadsOnlyAdmin(n.value.spec, st.secrets)
    ensures var spec := st.doormen[name].spec;
      VisitPools(spec, luck.order).Ok? &&
      var n := VisitPools(spec, luck.order).value;
      AlwaysIdle(c, after, name) <==>
        !Mixed(spec) && SharedKeysAgree(n.spec, SecretsRead(st.secrets, spec.clusterRef, n.user, luck))
  {
    FixpointExactly(c, st, name, luck, a, after, outcome);
    DoneSucceeds(c, st, name, luck, a, after, outcome);
    var spec := st.doormen[name].spec;
    var cl, n := st.clusters[spec.clusterRef], VisitPools(spec, luck.order).value;
    var read := WithAuthSecret(st.secrets, spec.clusterRef, a.created);
    DoneAuth(c, cl, st.secrets, spec, luck, a);
    AdminIsKept(c, cl, st.secrets, spec, luck, a);
    PersistedDespiteAuth(st.secrets, spec.clusterRef, n.user, luck);
    RenderingIsExact(c, cl, st.secrets, spec, luck, a);
    AdminSelfReadsKeep(n.spec, read, after.secrets, a.r.value, BinaryFor(c.binary, cl));
    SelfReadsDecide(c, st, name, luck, a, after, outcome);
    SharedKeysAgreeBefore(n.spec, read, after.secrets);
  }

  lemma AdminSelfReadsKeep(spec: Spec, read: Secrets, after: Secrets, r: Rendering, binary: Option<string>)
    requires StoredIn(read, after, spec.clusterRef, r, binary) && AllReadable(spec, read)
    requires SelfReadsOnlyAdmin(spec, read)
    requires PersistedAdmin(read, spec.clusterRef) != "" ==> r.admin == PersistedAdmin(read, spec.clusterRef)
    ensures SelfReadsKeep(spec, read, after)
  {
  }

  lemma SharedKeysAgreeBefore(spec: Spec, read: Secrets, after: Secrets)
    requires SameBut(read, after, RenderedSecretName(spec.clusterRef)) && SelfReadsKeep(spec, read, after)
    ensures SharedKeysAgree(spec, read) <==> SharedKeysAgree(spec, after)
  {
    AllKeepReading(spec, read, after);
  }

  /** The file is longer than any password in it. */
  ghost predicate Longer(c: Codec) {
    forall spec, cfg, e | HasRef(spec, e) :: |EntryPassword(spec, cfg, e)| < |c.marshal(cfg)|
  }

  lemma CannotContainItself(c: Codec, secrets: Secrets, spec: Spec, cfg: DoormanConfig, e: Entry)
    requires Longer(c) && HasRef(spec, e)
    requires RefOf(spec, e) == SecretRef(RenderedSecretName(spec.clusterRef), CONFIG_KEY)
    requires RenderedSecretName(spec.clusterRef) in secrets && c.decode(c.marshal(cfg)) == Some(cfg)
    requires Lookup(secrets[RenderedSecretName(spec.clusterRef)].data, CONFIG_KEY) == c.marshal(cfg)
    ensures !StoredIsCurrent(c, secrets, spec)
  {
    assert |EntryPassword(spec, cfg, e)| < |c.marshal(cfg)|;
    assert Stored(c, secrets, spec.clusterRef) == Some(cfg);
  }

  /** A spec with an entry that reads the configuration it is part of never comes to rest. */
  lemma SelfReadingNeverRests(c: Codec, st: Store, name: string, luck: Luck, a: Attempt, after: Store, outcome: Outcome, e: Entry)
    requires Reconciles(c, st, name, luck, a, after, outcome) && outcome.Done? && UpdateStatus !in luck.fails
    requires Lossless(c) && Longer(c)
    requires var n := VisitPools(st.doormen[name].spec, luck.order);
      n.Ok? ==>
        && HasRef(n.value.spec, e)
        && RefOf(n.value.spec, e) == SecretRef(RenderedSecretName(st.doormen[name].spec.clusterRef), CONFIG_KEY)
    ensures !AlwaysIdle(c, after, name)
  {
    FixpointExactly(c, st, name, luck, a, after, outcome);
    DoneSucceeds(c, st, name, luck, a, after, outcome);
    var spec := st.doormen[name].spec;
    var cl, n := st.clusters[spec.clusterRef], VisitPools(spec, luck.order).value;
    RenderingIsExact(c, cl, st.secrets, spec, luck, a);
    var cfg := ConfigFor(n.spec, cl.poolerPort, cl.metricsPort, luck.passwords, a.r.value.admin, Some(c.tls));
    CannotContainItself(c, after.secrets, n.spec, cfg, e);
  }

  /** Two entries under one key whose references now read differently keep the configuration
      flipping with the map order. */
  lemma SharedKeyNeverRests(c: Codec, st: Store, name: string, luck: Luck, a: Attempt, after: Store, outcome: Outcome,
                            e: Entry, f: Entry)
    requires Reconciles(c, st, name, luck, a, after, outcome) && outcome.Done? && UpdateStatus !in luck.fails
    requires Lossless(c)
    requires var n := VisitPools(st.doormen[name].spec, luck.order);
      n.Ok? ==>
        && HasRef(n.value.spec, e) && HasRef(n.value.spec, f) && KeyOf(n.value.spec, e) == KeyOf(n.value.spec, f)
        && ExtractSecretValue(after.secrets, RefOf(n.value.spec, e)) != ExtractSecretValue(after.secrets, RefOf(n.value.spec, f))
    ensures !AlwaysIdle(c, after, name)
  {
    FixpointExactly(c, st, name, luck, a, after, outcome);
    DoneSucceeds(c, st, name, luck, a, after, outcome);
    var cl := st.clusters[st.doormen[name].spec.clusterRef];
    StoredRendering(c, cl, st.secrets, st.doormen[name].spec, luck, a, e);
    StoredRendering(c, cl, st.secrets, st.doormen[name].spec, luck, a, f);
  }

  /** What a reference to another key of the rendered secret reads once that secret was
      rewritten: the admin password survives if there was one, the binary spec if it is the
      one offered now, and any other key is gone. */
  lemma SelfReadsByKey(before: Secrets, after: Secrets, cluster: string, r: Rendering, binary: Option<string>, key: string)
    requires StoredIn(before, after, cluster, r, binary)
    requires PersistedAdmin(before, cluster) != "" ==> r.admin == PersistedAdmin(before, cluster)
    requires r.admin != ""
    requires ExtractSecretValue(before, SecretRef(RenderedSecretName(cluster), key)).Some? && key != CONFIG_KEY
    requires RenderedSecretName(cluster) in before && after[RenderedSecretName(cluster)] != before[RenderedSecretName(cluster)]
    ensures var ref := SecretRef(RenderedSecretName(cluster), key);
      var value := ExtractSecretValue(before, ref);
      ExtractSecretValue(after, ref) == value <==>
        if key == ADMIN_KEY then value != Some("") else if key == BINARY_KEY then value == binary else false
  {
    assert CONFIG_KEY[0] != ADMIN_KEY[0] && CONFIG_KEY[0] != BINARY_KEY[0] && ADMIN_KEY[0] != BINARY_KEY[0];
  }

  // -------------------------------------------------------------- non-interference

  /** The stores agree on the referenced secrets and on the persisted admin password. */
  ghost predicate AgreeOn(spec: Spec, cluster: string, secrets: Secrets, other: Secrets) {
    && (forall name | Refers(spec, name) :: name in secrets <==> name in other)
    && (forall name | Refers(spec, name) && name in secrets :: secrets[name] == other[name])
    && PersistedAdmin(secrets, cluster) == PersistedAdmin(other, cluster)
  }

  lemma SameRendering(c: Codec, cl: Cluster, spec: Spec, secrets: Secrets, other: Secrets, cluster: string, luck: Luck)
    requires AgreeOn(spec, cluster, secrets, other)
    ensures OwnedRendering(c, cl, spec, secrets, cluster, luck) == OwnedRendering(c, cl, spec, other, cluster, luck)
    ensures AllReadable(spec, secrets) <==> AllReadable(spec, other)
    ensures ResolvesTo(spec, secrets, luck.passwords) <==> ResolvesTo(spec, other, luck.passwords)
  {
    SamePasswords(spec, secrets, other, luck.passwords);
    assert AdminPassword(secrets, cluster, luck) == AdminPassword(other, cluster, luck);
  }

  /** Creating the auth secret keeps the agreement. */
  lemma SameAuth(secrets: Secrets, other: Secrets, n: Normalized, cluster: string, luck: Luck)
    requires AgreeOn(n.spec, cluster, secrets, other)
    requires n.user != "" ==> Refers(n.spec, GeneratedAuthSecretName(cluster))
    ensures AuthSecretFor(secrets, cluster, n.user, luck) == AuthSecretFor(other, cluster, n.user, luck)
    ensures AgreeOn(n.spec, cluster, SecretsRead(secrets, cluster, n.user, luck), SecretsRead(other, cluster, n.user, luck))
  {
    PersistedDespiteAuth(secrets, cluster, n.user, luck);
    PersistedDespiteAuth(other, cluster, n.user, luck);
  }

  lemma SameOnceNormalized(c: Codec, cl: Cluster, secrets: Secrets, other: Secrets, n: Normalized, cluster: string, luck: Luck)
    requires AgreeOn(n.spec, cluster, secrets, other)
    requires n.user != "" ==> Refers(n.spec, GeneratedAuthSecretName(cluster))
    ensures NormalizedAttempt(c, cl, secrets, n, cluster, luck) == NormalizedAttempt(c, cl, other, n, cluster, luck)
    ensures Resolvable(secrets, n, cluster, luck) <==> Resolvable(other, n, cluster, luck)
  {
    SameAuth(secrets, other, n, cluster, luck);
    SameRendering(c, cl, n.spec, SecretsRead(secrets, cluster, n.user, luck), SecretsRead(other, cluster, n.user, luck),
                  cluster, luck);
  }

  /** Main result: an attempt to render depends on the spec, the cluster, the referenced
      secrets and the persisted admin password, and on nothing else in the store. */
  lemma RenderingIsNonInterfering(c: Codec, cl: Cluster, secrets: Secrets, other: Secrets, spec: Spec, luck: Luck, a: Attempt)
    requires Enumerates(luck.order, spec.pools.Keys)
    requires AgreeOn(Candidate(spec, luck.order), spec.clusterRef, secrets, other)
    ensures Attempts(c, cl, secrets, spec, luck, a) <==> Attempts(c, cl, other, spec, luck, a)
  {
    var n := VisitPools(spec, luck.order);
    if n.Ok? {
      if n.value.user != "" { GeneratedSecretIsReferred(spec, luck.order); }
      SameOnceNormalized(c, cl, secrets, other, n.value, spec.clusterRef, luck);
    }
  }

  /** So a change to a secret the watch does not map to the object leaves every attempt to
      render it as it was, whatever order the watch met, unless it changes the admin password
      persisted in the rendered secret. */
  lemma UnwatchedSecretIsHarmless(c: Codec, cl: Cluster, secrets: Secrets, other: Secrets, spec: Spec,
                                  luck: Luck, a: Attempt, met: seq<string>, changed: string)
    requires SameBut(secrets, other, changed) && !Mixed(spec)
    requires Enumerates(luck.order, spec.pools.Keys) && Enumerates(met, spec.pools.Keys)
    requires !Wakes(spec, met, changed)
    requires PersistedAdmin(secrets, spec.clusterRef) == PersistedAdmin(other, spec.clusterRef)
    ensures Attempts(c, cl, secrets, spec, luck, a) <==> Attempts(c, cl, other, spec, luck, a)
  {
    OrderIrrelevant(spec, luck.order);
    OrderIrrelevant(spec, met);
    RenderingIsNonInterfering(c, cl, secrets, other, spec, luck, a);
  }

  /** The rendered secret is the one secret a configuration depends on without being
      referenced: where two stores differ in it, or one of them lost it, the configurations
      agree exactly when the spec brings its own admin password or both come to the same one.
      No watch covers that. */
  lemma RenderedSecretMattersExactly(c: Codec, cl: Cluster, secrets: Secrets, other: Secrets, spec: Spec,
                                     luck: Luck, a: Attempt, b: Attempt)
    requires Lossless(c)
    requires SameBut(secrets, other, RenderedSecretName(spec.clusterRef))
    requires Attempts(c, cl, secrets, spec, luck, a) && Attempts(c, cl, other, spec, luck, b)
    requires a.r.Ok? && b.r.Ok?
    ensures a.r.value.data == b.r.value.data <==>
      HasRef(VisitPools(spec, luck.order).value.spec, AdminEntry) || a.r.value.admin == b.r.value.admin
  {
    RenderingIsExact(c, cl, secrets, spec, luck, a);
    RenderingIsExact(c, cl, other, spec, luck, b);
    var n := VisitPools(spec, luck.order).value;
    var read := SecretsRead(secrets, spec.clusterRef, n.user, luck);
    if a.r.value.admin != b.r.value.admin {
      FallbackDecides(n.spec, read, cl, luck.passwords, a.r.value.admin, b.r.value.admin, c.tls);
    }
    var p := ConfigFor(n.spec, cl.poolerPort, cl.metricsPort, luck.passwords, a.r.value.admin, Some(c.tls));
    var q := ConfigFor(n.spec, cl.poolerPort, cl.metricsPort, luck.passwords, b.r.value.admin, Some(c.tls));
    assert c.decode(c.marshal(p)) == Some(p) && c.decode(c.marshal(q)) == Some(q);
  }

  /** In particular the deletion of the rendered secret changes the configuration of every
      object without its own admin password, unless the draw repeats the lost one. */
  lemma DeletionChangesConfig(c: Codec, cl: Cluster, secrets: Secrets, other: Secrets, spec: Spec,
                              luck: Luck, a: Attempt, b: Attempt)
    requires Lossless(c) && RenderedSecretName(spec.clusterRef) !in other
    requires SameBut(secrets, other, RenderedSecretName(spec.clusterRef))
    requires PersistedAdmin(secrets, spec.clusterRef) !in ["", luck.adminPassword] && luck.adminPassword != ""
    requires Attempts(c, cl, secrets, spec, luck, a) && Attempts(c, cl, other, spec, luck, b)
    requires a.r.Ok? && b.r.Ok?
    ensures a.r.value.data == b.r.value.data <==> HasRef(VisitPools(spec, luck.order).value.spec, AdminEntry)
  {
    RenderedSecretMattersExactly(c, cl, secrets, other, spec, luck, a, b);
    AdminIsKept(c, cl, secrets, spec, luck, a);
    AttemptIsOwned(c, cl, other, spec, luck, b);
    PersistedDespiteAuth(other, spec.clusterRef, VisitPools(spec, luck.order).value.user, luck);
  }

  lemma FallbackDecides(spec: Spec, secrets: Secrets, cl: Cluster, passwords: map<string, string>,
                        p: string, q: string, tls: TLSFiles)
    requires ResolvesTo(spec, secrets, passwords) && p != q
    ensures var cfg := ConfigFor(spec, cl.poolerPort, cl.metricsPort, passwords, p, Some(tls));
      var cfg' := ConfigFor(spec, cl.poolerPort, cl.metricsPort, passwords, q, Some(tls));
      cfg == cfg' <==> HasRef(spec, AdminEntry)
  {
    FallbackTouchesOnlyAdmin(spec, secrets, passwords, p);
    FallbackTouchesOnlyAdmin(spec, secrets, passwords, q);
    if HasRef(spec, AdminEntry) {
      assert Reached(spec, secrets, passwords, AdminEntry);
    }
  }
}
