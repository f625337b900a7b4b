/** How every reconcile ends, and what it has put in place when it ends well. */
module RenderOutcomes {
  import opened Wrappers
  import opened Spec
  import opened AuthSecrets
  import opened Config
  import opened ConfigGen
  import opened Credentials
  import opened Controller
  import opened RenderRuns

  // ------------------------------------------------------- the generated password

  /** Whenever an attempt creates a secret, there was none of that name, and it is a basic-auth
      secret of the cluster with the password drawn, for the user of every ref-less pool that
      names one. */
  lemma CreatedSecretHolds(c: Codec, cl: Cluster, secrets: Secrets, spec: Spec, luck: Luck, a: Attempt)
    requires Attempts(c, cl, secrets, spec, luck, a) && a.created.Some?
    ensures spec.clusterRef + "-doorman-auth" !in secrets
    ensures VisitPools(spec, luck.order).Ok?
    ensures var user := VisitPools(spec, luck.order).value.user;
      && user != "" && BasicAuth(a.created.value, spec.clusterRef, user, luck.authPassword)
      && forall p | IsRefLess(spec, p) :: UserOf(spec, p) == "" || UserOf(spec, p) == user
  {
    assert "username"[0] != "password"[0];
    VisitAll(spec, luck.order);
    EarlierUsers(spec, luck.order);
    forall p | IsRefLess(spec, p) ensures UserOf(spec, p) == "" || UserOf(spec, p) == LastUser(spec, luck.order) {
      assert p in luck.order;
      var i :| 0 <= i < |luck.order| && luck.order[i] == p;
    }
  }

  /** The pool's auth query logs in as its own user with this password. */
  ghost predicate QueriesWith(spec: Spec, cfg: DoormanConfig, p: string, password: string)
    requires IsRefLess(spec, p)
  {
    && p in cfg.pools && cfg.pools[p].authQuery.Some?
    && cfg.pools[p].authQuery.value.user == UserOf(spec, p)
    && cfg.pools[p].authQuery.value.password == password
  }

  lemma RefLessPoolReads(spec: Spec, order: seq<string>, read: Secrets, cfg: DoormanConfig, p: string, password: string)
    requires Enumerates(order, spec.pools.Keys) && VisitPools(spec, order).Ok? && IsRefLess(spec, p)
    requires var auth := spec.clusterRef + "-doorman-auth";
      auth in read && read[auth].cluster.Some? && "password" in read[auth].data && read[auth].data["password"] == password
    requires password != "" && OwnValues(VisitPools(spec, order).value.spec, read, cfg)
    ensures p in cfg.pools && cfg.pools[p].authQuery.Some? && cfg.pools[p].authQuery.value.password == password
  {
    VisitAll(spec, order);
    var done := VisitPools(spec, order).value.spec;
    assert done.pools[p] == WithGeneratedRef(spec.pools[p], spec.clusterRef);
    assert HasRef(done, AuthEntry(p));
    assert ExtractSecretValue(read, RefOf(done, AuthEntry(p))) == Some(EntryPassword(done, cfg, AuthEntry(p)));
  }

  lemma CreatedIsRead(c: Codec, cl: Cluster, secrets: Secrets, spec: Spec, luck: Luck, a: Attempt)
    requires Attempts(c, cl, secrets, spec, luck, a) && a.created.Some? && VisitPools(spec, luck.order).Ok?
    ensures SecretsRead(secrets, spec.clusterRef, VisitPools(spec, luck.order).value.user, luck)
      == secrets[spec.clusterRef + "-doorman-auth" := a.created.value]
  {
  }

  /** The auth queries of a rendering that was made with a new secret. */
  lemma GeneratedPasswordIsRendered(c: Codec, cl: Cluster, secrets: Secrets, spec: Spec, luck: Luck, a: Attempt)
    returns (cfg: DoormanConfig)
    requires Attempts(c, cl, secrets, spec, luck, a) && a.created.Some? && a.r.Ok? && luck.authPassword != ""
    requires VisitPools(spec, luck.order).Ok? ==> Unambiguous(VisitPools(spec, luck.order).value.spec)
    ensures a.r.value.data == c.marshal(cfg)
    ensures forall p | IsRefLess(spec, p) :: QueriesWith(spec, cfg, p, luck.authPassword)
  {
    CreatedSecretHolds(c, cl, secrets, spec, luck, a);
    CreatedIsRead(c, cl, secrets, spec, luck, a);
    RenderingIsExact(c, cl, secrets, spec, luck, a);
    var n := VisitPools(spec, luck.order).value;
    var read := SecretsRead(secrets, spec.clusterRef, n.user, luck);
    cfg := ConfigFor(n.spec, cl.poolerPort, cl.metricsPort, luck.passwords, a.r.value.admin, Some(c.tls));
    var passwords := WithAdminPassword(luck.passwords, a.r.value.admin);
    forall p | IsRefLess(spec, p) ensures QueriesWith(spec, cfg, p, luck.authPassword) {
      RefLessPoolReads(spec, luck.order, read, cfg, p, luck.authPassword);
      RefLessPoolUser(spec, luck.order, cfg, p, passwords);
    }
  }

  lemma RefLessPoolUser(spec: Spec, order: seq<string>, cfg: DoormanConfig, p: string, passwords: map<string, string>)
    requires Enumerates(order, spec.pools.Keys) && VisitPools(spec, order).Ok? && IsRefLess(spec, p)
    requires var done := VisitPools(spec, order).value.spec;
      p in done.pools ==> p in cfg.pools && PoolStands(p, done.pools[p], cfg.pools[p], passwords)
    ensures p in cfg.pools && cfg.pools[p].authQuery.Some? && cfg.pools[p].authQuery.value.user == UserOf(spec, p)
  {
    VisitAll(spec, order);
  }

  // ------------------------------------------------- every password of a raw spec

  /** The reference leads to this value, in a secret of the cluster. */
  ghost predicate Gives(read: Secrets, cluster: string, ref: SecretRef, value: string) {
    && ref.name in read && read[ref.name].cluster == Some(cluster)
    && ref.key in read[ref.name].data && read[ref.name].data[ref.key] == value
  }

  /** The pool's users and its auth query carry what their references give; an auth query
      without one reads the generated secret. */
  ghost predicate PoolCarries(spec: Spec, p: string, cfg: DoormanConfig, read: Secrets)
    requires p in spec.pools
  {
    var pool, cluster := spec.pools[p], spec.clusterRef;
    && p in cfg.pools && |cfg.pools[p].users| == |pool.users|
    && (forall i | 0 <= i < |pool.users| ::
          && cfg.pools[p].users[i].username == pool.users[i].username
          && Gives(read, cluster, pool.users[i].passwordRef, cfg.pools[p].users[i].password))
    && (cfg.pools[p].authQuery.Some? <==> pool.authQuery.Some?)
    && (pool.authQuery.Some? ==>
          var aq := pool.authQuery.value;
          var ref := if aq.passwordRef.Some? then aq.passwordRef.value else SecretRef(cluster + "-doorman-auth", "password");
          && cfg.pools[p].authQuery.value.user == aq.user
          && Gives(read, cluster, ref, cfg.pools[p].authQuery.value.password))
  }

  /** The admin logs in with what the spec refers to, and otherwise with the fallback. */
  ghost predicate AdminCarries(spec: Spec, cfg: DoormanConfig, read: Secrets, fallback: string) {
    if spec.general.Some? && spec.general.value.adminPasswordRef.Some?
    then Gives(read, spec.clusterRef, spec.general.value.adminPasswordRef.value, cfg.general.adminPassword)
    else cfg.general.adminPassword == fallback
  }

  lemma PoolCarriesOwn(spec: Spec, order: seq<string>, read: Secrets, cfg: DoormanConfig, p: string, passwords: map<string, string>)
    requires Enumerates(order, spec.pools.Keys) && VisitPools(spec, order).Ok? && p in spec.pools
    requires var done := VisitPools(spec, order).value.spec;
      && p in done.pools && p in cfg.pools && PoolStands(p, done.pools[p], cfg.pools[p], passwords)
      && OwnValues(done, read, cfg) && AllLabelled(done, read, spec.clusterRef)
    ensures PoolCarries(spec, p, cfg, read)
  {
    VisitAll(spec, order);
    var done, pool := VisitPools(spec, order).value.spec, spec.pools[p];
    assert done.pools[p].users == pool.users;
    forall i | 0 <= i < |pool.users|
      ensures Gives(read, spec.clusterRef, pool.users[i].passwordRef, cfg.pools[p].users[i].password)
      ensures cfg.pools[p].users[i].username == pool.users[i].username
    {
      OwnGives(done, read, cfg, UserEntry(p, i));
      assert UserStands(p, done.pools[p].users[i], cfg.pools[p].users[i], passwords);
    }
    if pool.authQuery.Some? {
      assert RefLess(pool) ==> done.pools[p] == WithGeneratedRef(pool, spec.clusterRef);
      OwnGives(done, read, cfg, AuthEntry(p));
    }
  }

  lemma OwnGives(spec: Spec, read: Secrets, cfg: DoormanConfig, e: Entry)
    requires HasRef(spec, e) && OwnValues(spec, read, cfg) && AllLabelled(spec, read, spec.clusterRef)
    ensures Gives(read, spec.clusterRef, RefOf(spec, e), EntryPassword(spec, cfg, e))
  {
  }

  /** Main result: with unambiguous keys, a rendering carries at every place of the raw spec the
      value its reference gives, from a secret of the cluster. */
  lemma RenderingCarries(c: Codec, cl: Cluster, secrets: Secrets, spec: Spec, luck: Luck, a: Attempt)
    returns (cfg: DoormanConfig)
    requires Attempts(c, cl, secrets, spec, luck, a) && a.r.Ok?
    requires VisitPools(spec, luck.order).Ok? ==> Unambiguous(VisitPools(spec, luck.order).value.spec)
    ensures a.r.value.data == c.marshal(cfg)
    ensures var read := if a.created.Some? then secrets[spec.clusterRef + "-doorman-auth" := a.created.value] else secrets;
      && cfg.pools.Keys == spec.pools.Keys
      && (forall p | p in spec.pools :: PoolCarries(spec, p, cfg, read))
      && AdminCarries(spec, cfg, read, a.r.value.admin)
  {
    RenderingIsExact(c, cl, secrets, spec, luck, a);
    DoneReads(c, cl, secrets, spec, luck, a);
    VisitAll(spec, luck.order);
    var n := VisitPools(spec, luck.order).value;
    var read := SecretsRead(secrets, spec.clusterRef, n.user, luck);
    cfg := ConfigFor(n.spec, cl.poolerPort, cl.metricsPort, luck.passwords, a.r.value.admin, Some(c.tls));
    forall p | p in spec.pools ensures PoolCarries(spec, p, cfg, read) {
      PoolCarriesOwn(spec, luck.order, read, cfg, p, WithAdminPassword(luck.passwords, a.r.value.admin));
    }
    if HasRef(n.spec, AdminEntry) { OwnGives(n.spec, read, cfg, AdminEntry); }
  }

  lemma DoneReads(c: Codec, cl: Cluster, secrets: Secrets, spec: Spec, luck: Luck, a: Attempt)
    requires Attempts(c, cl, secrets, spec, luck, a) && a.r.Ok?
    ensures VisitPools(spec, luck.order).Ok?
    ensures SecretsRead(secrets, spec.clusterRef, VisitPools(spec, luck.order).value.user, luck)
      == if a.created.Some? then secrets[spec.clusterRef + "-doorman-auth" := a.created.value] else secrets
  {
  }

  // ------------------------------------------------------------ what Done has stored

  lemma DoneStores(c: Codec, st: Store, name: string, luck: Luck, a: Attempt, after: Store, outcome: Outcome)
    requires Reconciles(c, st, name, luck, a, after, outcome) && outcome.Done?
    ensures Renders(st, name) && a.r == Ok(outcome.rendering)
    ensures var spec := st.doormen[name].spec; var cl := st.clusters[spec.clusterRef];
      && Attempts(c, cl, st.secrets, spec, luck, a)
      && StoredIn(WithAuthSecret(st.secrets, spec.clusterRef, a.created), after.secrets, spec.clusterRef, a.r.value,
                  BinaryFor(c.binary, cl))
  {
    DoneIsTheAttempt(c, st, Work(name, luck, a, outcome), after);
    var cl := st.clusters[st.doormen[name].spec.clusterRef];
    ConclusionSettles(FinalizerEnsured(st, name, luck.fails).value, name, a, BinaryFor(c.binary, cl), luck);
  }

  /** Under the two names: the created secret, the rendering with its admin password, and the
      binary for clusters that opted in, if one is offered, and for no others. */
  ghost predicate InPlace(c: Codec, cl: Cluster, cluster: string, a: Attempt, secrets: Secrets) {
    var auth, rendered := cluster + "-doorman-auth", cluster + "-doorman-config";
    && a.r.Ok?
    && (a.created.Some? ==> auth in secrets && secrets[auth] == a.created.value)
    && rendered in secrets && secrets[rendered].cluster.Some?
    && Lookup(secrets[rendered].data, "pg_doorman.yaml") == a.r.value.data
    && Lookup(secrets[rendered].data, "admin-password") == a.r.value.admin
    && Lookup(secrets[rendered].data, "binary.json") == if cl.inPlace && c.binary.Some? then c.binary.value else ""
  }

  lemma StoredMeans(c: Codec, cl: Cluster, before: Secrets, after: Secrets, cluster: string, a: Attempt)
    requires a.r.Ok? && StoredIn(WithAuthSecret(before, cluster, a.created), after, cluster, a.r.value, BinaryFor(c.binary, cl))
    ensures InPlace(c, cl, cluster, a, after)
  {
    SecretNamesDiffer(cluster, cluster);
  }

  lemma DonePutsInPlace(c: Codec, st: Store, name: string, luck: Luck, a: Attempt, after: Store, outcome: Outcome)
    requires Reconciles(c, st, name, luck, a, after, outcome) && outcome.Done?
    ensures Renders(st, name) && a.r == Ok(outcome.rendering)
    ensures var cluster := st.doormen[name].spec.clusterRef;
      InPlace(c, st.clusters[cluster], cluster, a, after.secrets)
  {
    DoneStores(c, st, name, luck, a, after, outcome);
    var cluster := st.doormen[name].spec.clusterRef;
    StoredMeans(c, st.clusters[cluster], st.secrets, after.secrets, cluster, a);
  }

  /** Main result, end to end: a reconcile that ends Done and created the auth secret stores a
      configuration in which the auth query of every ref-less pool logs in with the password
      drawn, and the stored secret holds that password. */
  lemma GeneratedPasswordReachesPools(c: Codec, st: Store, name: string, luck: Luck, a: Attempt, after: Store, outcome: Outcome)
    returns (cfg: DoormanConfig)
    requires Reconciles(c, st, name, luck, a, after, outcome) && outcome.Done? && a.created.Some?
    requires name in st.doormen && forall n | n in luck.order :: n in st.doormen[name].spec.pools
    requires VisitPools(st.doormen[name].spec, luck.order).Ok? ==> Unambiguous(VisitPools(st.doormen[name].spec, luck.order).value.spec)
    ensures var spec := st.doormen[name].spec;
      var auth, rendered := spec.clusterRef + "-doorman-auth", spec.clusterRef + "-doorman-config";
      && auth in after.secrets && "password" in after.secrets[auth].data
      && after.secrets[auth].data["password"] == luck.authPassword
      && rendered in after.secrets && Lookup(after.secrets[rendered].data, "pg_doorman.yaml") == c.marshal(cfg)
      && forall p | IsRefLess(spec, p) :: QueriesWith(spec, cfg, p, luck.authPassword)
  {
    DoneStores(c, st, name, luck, a, after, outcome);
    var spec := st.doormen[name].spec;
    cfg := StoredPassword(c, st.clusters[spec.clusterRef], st.secrets, spec, luck, a, after.secrets);
  }

  lemma StoredPassword(c: Codec, cl: Cluster, secrets: Secrets, spec: Spec, luck: Luck, a: Attempt, after: Secrets)
    returns (cfg: DoormanConfig)
    requires Attempts(c, cl, secrets, spec, luck, a) && a.created.Some? && a.r.Ok? && luck.authPassword != ""
    requires VisitPools(spec, luck.order).Ok? ==> Unambiguous(VisitPools(spec, luck.order).value.spec)
    requires StoredIn(WithAuthSecret(secrets, spec.clusterRef, a.created), after, spec.clusterRef, a.r.value, BinaryFor(c.binary, cl))
    ensures var auth, rendered := spec.clusterRef + "-doorman-auth", spec.clusterRef + "-doorman-config";
      && auth in after && "password" in after[auth].data && after[auth].data["password"] == luck.authPassword
      && rendered in after && Lookup(after[rendered].data, "pg_doorman.yaml") == c.marshal(cfg)
    ensures forall p | IsRefLess(spec, p) :: QueriesWith(spec, cfg, p, luck.authPassword)
  {
    CreatedSecretHolds(c, cl, secrets, spec, luck, a);
    StoredMeans(c, cl, secrets, after, spec.clusterRef, a);
    cfg := GeneratedPasswordIsRendered(c, cl, secrets, spec, luck, a);
  }

  // ------------------------------------------------------------- why, and how it ends

  ghost predicate AllLabelled(spec: Spec, secrets: Secrets, cluster: string) {
    forall e | HasRef(spec, e) :: RefOf(spec, e).name in secrets && secrets[RefOf(spec, e).name].cluster == Some(cluster)
  }

  ghost predicate AllPresent(spec: Spec, secrets: Secrets)
    requires forall e | HasRef(spec, e) :: RefOf(spec, e).name in secrets
  {
    forall e | HasRef(spec, e) :: RefOf(spec, e).key in secrets[RefOf(spec, e).name].data
  }

  /** The configuration rendered with the admin password that is kept, or drawn if there is
      none, passes the validator. */
  ghost predicate PassesValidator(c: Codec, cl: Cluster, spec: Spec, read: Secrets, luck: Luck) {
    var kept := PersistedAdmin(read, spec.clusterRef);
    var admin := if kept != "" then kept else luck.adminPassword;
    var cfg := c.decode(c.marshal(ConfigFor(spec, cl.poolerPort, cl.metricsPort, luck.passwords, admin, Some(c.tls))));
    cfg.Some? && ValidConfig(cfg.value)
  }

  /** The first obstacle decides the reason: plugin parameters, pools that disagree on the auth
      user, a foreign secret under the generated name, a reference outside the cluster, and
      last a key that is missing or a configuration the validator rejects. */
  ghost predicate Explained(c: Codec, cl: Cluster, secrets: Secrets, spec: Spec, luck: Luck, a: Attempt)
    requires Enumerates(luck.order, spec.pools.Keys)
  {
    var auth, n := spec.clusterRef + "-doorman-auth", VisitPools(spec, luck.order);
    && (a.r.Ok? <==> a.reason.Rendered?)
    && (a.reason.InvalidPluginConfig? <==> !cl.paramsValid)
    && (cl.paramsValid ==> (a.reason.InvalidSpec? <==> !Compatible(spec, luck.order)))
    && (cl.paramsValid && n.Ok? ==>
          var foreign := auth in secrets && secrets[auth].cluster.None?;
          && (a.reason.AuthSecretFailed? <==> n.value.user != "" && foreign)
          && (a.created.Some? <==> n.value.user != "" && auth !in secrets)
          && (!a.reason.AuthSecretFailed? ==>
                ExplainedOnceRead(c, cl, if a.created.Some? then secrets[auth := a.created.value] else secrets,
                                  n.value.spec, luck, a)))
  }

  ghost predicate ExplainedOnceRead(c: Codec, cl: Cluster, read: Secrets, spec: Spec, luck: Luck, a: Attempt) {
    && (a.reason.SecretNotAllowed? <==> !AllLabelled(spec, read, spec.clusterRef))
    && (AllLabelled(spec, read, spec.clusterRef) ==>
          && (a.reason.RenderFailed? <==> !(AllPresent(spec, read) && PassesValidator(c, cl, spec, read, luck)))
          && (a.r.Ok? <==> AllPresent(spec, read) && PassesValidator(c, cl, spec, read, luck)))
  }

  lemma OwnedMeansLabelled(spec: Spec, secrets: Secrets, cluster: string)
    ensures OwnedByCluster(spec, secrets, cluster) <==> AllLabelled(spec, secrets, cluster)
    ensures AllLabelled(spec, secrets, cluster) ==> (AllReadable(spec, secrets) <==> AllPresent(spec, secrets))
  {
    forall e | HasRef(spec, e) ensures Refers(spec, RefOf(spec, e).name) {}
    if AllLabelled(spec, secrets, cluster) {
      assert forall e | HasRef(spec, e) ::
        ExtractSecretValue(secrets, RefOf(spec, e)).Some? <==> RefOf(spec, e).key in secrets[RefOf(spec, e).name].data;
    }
  }

  lemma OwnedRenderingExplained(c: Codec, cl: Cluster, read: Secrets, spec: Spec, luck: Luck, a: Attempt)
    requires luck.fails == {} && (a.reason, a.r) == OwnedRendering(c, cl, spec, read, spec.clusterRef, luck)
    ensures ExplainedOnceRead(c, cl, read, spec, luck, a) && (a.r.Ok? <==> a.reason.Rendered?)
    ensures a.reason.SecretNotAllowed? || a.reason.RenderFailed? || a.reason.Rendered?
  {
    OwnedMeansLabelled(spec, read, spec.clusterRef);
  }

  /** Without faults the attempt's reason is exactly the first obstacle, and it renders exactly
      when there is none. */
  lemma AttemptExplained(c: Codec, cl: Cluster, secrets: Secrets, spec: Spec, luck: Luck, a: Attempt)
    requires Attempts(c, cl, secrets, spec, luck, a) && luck.fails == {}
    ensures Explained(c, cl, secrets, spec, luck, a)
  {
    VisitAll(spec, luck.order);
    var n := VisitPools(spec, luck.order);
    if cl.paramsValid && n.Ok? && AuthSecretFor(secrets, spec.clusterRef, n.value.user, luck).Ok? {
      var created := AuthSecretFor(secrets, spec.clusterRef, n.value.user, luck).value;
      OwnedRenderingExplained(c, cl, WithAuthSecret(secrets, spec.clusterRef, created), n.value.spec, luck, a);
    }
  }

  /** How a reconcile without faults ends: it depends on whether the object exists, is being
      deleted, and is named by an enabled cluster, then on the attempt, and last on whether a
      foreign secret has the rendered secret's name. */
  lemma OutcomeExactly(c: Codec, st: Store, name: string, luck: Luck, a: Attempt, after: Store, outcome: Outcome)
    requires Reconciles(c, st, name, luck, a, after, outcome) && luck.fails == {}
    ensures outcome.Nothing? <==> name !in st.doormen
    ensures outcome.DeletionSeen? <==> name in st.doormen && st.doormen[name].deleting
    ensures name in st.doormen && !st.doormen[name].deleting ==>
      var cluster := st.doormen[name].spec.clusterRef;
      var rendered := cluster + "-doorman-config";
      var foreign := rendered in st.secrets && st.secrets[rendered].cluster.None?;
      && (outcome.Unused? <==> !(Named(st, name) && st.clusters[cluster].enabled))
      && (!outcome.Unused? ==>
            outcome == if a.r.Err? then NotRendered(a.reason)
                       else if foreign then Failed
                       else Done(cluster, a.r.value))
  {
    if Renders(st, name) {
      var cluster := st.doormen[name].spec.clusterRef;
      SecretNamesDiffer(cluster, cluster);
      var ready := FinalizerEnsured(st, name, luck.fails).value;
      ConclusionEnds(ready, name, a, BinaryFor(c.binary, st.clusters[cluster]), luck);
    }
  }

  lemma ConclusionEnds(st: Store, name: string, a: Attempt, binary: Option<string>, luck: Luck)
    requires name in st.doormen && luck.fails == {}
    ensures var cluster := st.doormen[name].spec.clusterRef;
      var rendered := cluster + "-doorman-config";
      var foreign := rendered in st.secrets && st.secrets[rendered].cluster.None?;
      Concluded(st, name, a, binary, luck).1
        == if a.r.Err? then NotRendered(a.reason) else if foreign then Failed else Done(cluster, a.r.value)
  {
    var cluster := st.doormen[name].spec.clusterRef;
    SecretNamesDiffer(cluster, cluster);
  }
}
