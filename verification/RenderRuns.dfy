/** What sequences of reconciles and edits keep. */
module RenderRuns {
  import opened Wrappers
  import opened Spec
  import opened AuthSecrets
  import opened Config
  import opened ConfigGen
  import opened Credentials
  import opened Controller

  // ------------------------------------------------------------------ one reconcile

  /** The secrets a controller writes have names of their own. */
  lemma SecretNamesDiffer(a: string, b: string)
    ensures RenderedSecretName(a) != GeneratedAuthSecretName(b)
    ensures RenderedSecretName(a) == RenderedSecretName(b) ==> a == b
  {
    var r, s, t := RenderedSecretName(a), GeneratedAuthSecretName(b), RenderedSecretName(b);
    assert r[|r| - 1] == 'g' && s[|s| - 1] == 'h';
    assert a == r[..|r| - 15] && b == t[..|t| - 15];
  }

  lemma DesiredIsUpToDate(r: Rendering, binary: Option<string>)
    ensures UpToDate(DesiredData(r, binary), r, binary)
  {
    assert CONFIG_KEY[0] != ADMIN_KEY[0] && CONFIG_KEY[0] != BINARY_KEY[0] && ADMIN_KEY[0] != BINARY_KEY[0];
  }

  /** The auth secret is created only where there is none. */
  ghost predicate CreatesAbsent(st: Store, name: string, a: Attempt) {
    Renders(st, name) && a.created.Some? ==>
      GeneratedAuthSecretName(st.doormen[name].spec.clusterRef) !in st.secrets
  }

  lemma AttemptCreatesAbsent(c: Codec, st: Store, name: string, luck: Luck, a: Attempt)
    requires AttemptMade(c, st, name, luck, a)
    ensures CreatesAbsent(st, name, a)
  {
  }

  /** Secrets other than the rendered one keep their content; only an absent auth secret
      appears; and a rendering that was stored is there to be read. */
  ghost predicate StoresOnly(secrets: Secrets, cluster: string, after: Secrets, outcome: Outcome) {
    var rendered := RenderedSecretName(cluster);
    && (forall n | n in secrets && (outcome.Done? ==> n != rendered) :: n in after && after[n] == secrets[n])
    && (forall n | n in after && n !in secrets ::
          n == GeneratedAuthSecretName(cluster) || (outcome.Done? && n == rendered))
    && (outcome.Done? ==>
          && outcome.cluster == cluster && Visible(after, rendered)
          && Lookup(after[rendered].data, CONFIG_KEY) == outcome.rendering.data
          && PersistedAdmin(after, cluster) == outcome.rendering.admin)
  }

  lemma UpsertStoresOnly(st: Store, cluster: string, r: Rendering, binary: Option<string>, fails: set<Call>)
    ensures var up := Upserted(st, cluster, r, binary, fails);
      up.Ok? ==>
        && up.value.clusters == st.clusters && up.value.doormen == st.doormen
        && StoresOnly(st.secrets, cluster, up.value.secrets, Done(cluster, r))
  {
    DesiredIsUpToDate(r, binary);
  }

  lemma ConclusionStoresOnly(st: Store, name: string, a: Attempt, binary: Option<string>, luck: Luck)
    requires name in st.doormen
    requires a.created.Some? ==> GeneratedAuthSecretName(st.doormen[name].spec.clusterRef) !in st.secrets
    ensures var (after, outcome) := Concluded(st, name, a, binary, luck);
      && after.clusters == st.clusters
      && StoresOnly(st.secrets, st.doormen[name].spec.clusterRef, after.secrets, outcome)
  {
    var cluster := st.doormen[name].spec.clusterRef;
    var tried := Applied(st, cluster, a);
    assert StoresOnly(st.secrets, cluster, tried.secrets, Failed);
    if a.r.Ok? { UpsertStoresOnly(tried, cluster, a.r.value, binary, luck.fails); }
  }

  /** A reconcile that does not end in a rendering touches no existing secret, whichever call
      or check stopped it; one that does touches only its cluster's rendered secret, which
      then holds the rendering. */
  ghost predicate TouchesOnlyRendered(st: Store, name: string, after: Store, outcome: Outcome) {
    && after.clusters == st.clusters
    && (after.secrets != st.secrets || outcome.Done? ==>
          Renders(st, name) && StoresOnly(st.secrets, st.doormen[name].spec.clusterRef, after.secrets, outcome))
  }

  lemma OnlyTheRenderedSecretChanges(st: Store, name: string, a: Attempt, offered: Option<string>, luck: Luck)
    requires CreatesAbsent(st, name, a)
    ensures var (after, outcome) := Reconciled(st, name, a, offered, luck);
      TouchesOnlyRendered(st, name, after, outcome)
  {
    if Renders(st, name) && FinalizerEnsured(st, name, luck.fails).Ok? {
      var cl := st.clusters[st.doormen[name].spec.clusterRef];
      ConclusionStoresOnly(FinalizerEnsured(st, name, luck.fails).value, name, a, BinaryFor(offered, cl), luck);
    }
  }

  /** What a reconcile leaves in the status of its object: after a stored rendering the success
      and, unless it said so before, the generation it read; after a failed attempt its reason
      and the last rendered generation as it was; otherwise, or when the update fails, nothing
      new. */
  ghost predicate StatusTells(before: PgDoorman, d: PgDoorman, outcome: Outcome, message: string, updated: bool) {
    && d.generation == before.generation && d.spec == before.spec
    && (outcome.Done? && updated ==>
          && d.condition == Some(Condition(true, Rendered, outcome.cluster + "-doorman-config", before.generation))
          && d.observed == if d.condition == before.condition then before.observed else before.generation)
    && (outcome.NotRendered? && updated ==>
          && d.condition == Some(Condition(false, outcome.reason, message, before.generation))
          && d.observed == before.observed)
    && (!updated || !(outcome.Done? || outcome.NotRendered?) ==>
          d.condition == before.condition && d.observed == before.observed)
  }

  lemma NotingTells(st: Store, name: string, ok: bool, reason: Reason, message: string, fails: set<Call>)
    requires name in st.doormen
    ensures var before, after := st.doormen[name], Noted(st, name, ok, reason, message, fails);
      && name in after.doormen && after.secrets == st.secrets && after.clusters == st.clusters
      && var d, noted := after.doormen[name], Some(Condition(ok, reason, message, before.generation));
         && d == before.(condition := d.condition, observed := d.observed)
         && after.doormen == st.doormen[name := d]
         && (UpdateStatus in fails ==> d == before)
         && (UpdateStatus !in fails ==>
               && d.condition == noted
               && d.observed == if ok && before.condition != noted then before.generation else before.observed)
  {
    assert st.doormen == st.doormen[name := st.doormen[name]];
  }

  /** Saying the same again writes nothing exactly for a success, or when the last rendered
      generation is the current one: a failure at a generation never rendered rewrites the
      status every time. */
  lemma NotingTwice(st: Store, name: string, ok: bool, reason: Reason, message: string, fails: set<Call>, again: set<Call>)
    requires name in st.doormen && UpdateStatus !in fails && UpdateStatus !in again
    ensures var noted := Noted(st, name, ok, reason, message, fails);
      && name in noted.doormen
      && (Noted(noted, name, ok, reason, message, again) == noted
          <==> ok || noted.doormen[name].observed == noted.doormen[name].generation)
  {
    var noted := Noted(st, name, ok, reason, message, fails);
    assert Noted(noted, name, ok, reason, message, again) == noted
      || Noted(noted, name, ok, reason, message, again).writes == noted.writes + 1;
  }

  lemma ConclusionTells(st: Store, name: string, a: Attempt, binary: Option<string>, luck: Luck)
    requires name in st.doormen
    ensures var (after, outcome) := Concluded(st, name, a, binary, luck);
      && name in after.doormen
      && after.doormen == st.doormen[name := st.doormen[name].(
           condition := after.doormen[name].condition, observed := after.doormen[name].observed)]
      && StatusTells(st.doormen[name], after.doormen[name], outcome, luck.message, UpdateStatus !in luck.fails)
  {
    var cluster := st.doormen[name].spec.clusterRef;
    var tried := Applied(st, cluster, a);
    if a.r.Err? {
      NotingTells(tried, name, false, a.reason, luck.message, luck.fails);
    } else {
      UpsertSettles(tried, cluster, a.r.value, binary, luck.fails);
      var up := Upserted(tried, cluster, a.r.value, binary, luck.fails);
      if up.Ok? {
        NotingTells(up.value, name, true, Rendered, RenderedSecretName(cluster), luck.fails);
      } else {
        assert st.doormen == st.doormen[name := st.doormen[name]];
      }
    }
  }

  /** The two hold the same secrets except possibly one. */
  ghost predicate SameBut(secrets: Secrets, other: Secrets, except: string) {
    && (forall n | n in secrets && n != except :: n in other && other[n] == secrets[n])
    && forall n | n in other && n != except :: n in secrets
  }

  /** The rendering is stored: by rewriting the rendered secret, or because it was there;
      nothing else changed. */
  ghost predicate StoredIn(before: Secrets, after: Secrets, cluster: string, r: Rendering, binary: Option<string>) {
    var rendered := RenderedSecretName(cluster);
    && SameBut(before, after, rendered)
    && Visible(after, rendered) && UpToDate(after[rendered].data, r, binary)
    && (after[rendered] == Secret(Some(cluster), DesiredData(r, binary))
        || (rendered in before && after[rendered] == before[rendered]))
  }

  lemma UpsertSettles(st: Store, cluster: string, r: Rendering, binary: Option<string>, fails: set<Call>)
    ensures var up := Upserted(st, cluster, r, binary, fails);
      up.Ok? ==>
        && up.value.doormen == st.doormen && up.value.clusters == st.clusters
        && StoredIn(st.secrets, up.value.secrets, cluster, r, binary)
  {
    DesiredIsUpToDate(r, binary);
  }

  /** The condition turns true only for a rendering stored in this reconcile, at the
      generation it read; a failed attempt turns it false. */
  lemma RenderedTrueOnlyWhenDone(st: Store, name: string, a: Attempt, offered: Option<string>, luck: Luck)
    requires name in st.doormen && name in Reconciled(st, name, a, offered, luck).0.doormen
    ensures var (after, outcome) := Reconciled(st, name, a, offered, luck);
      StatusTells(st.doormen[name], after.doormen[name], outcome, luck.message, UpdateStatus !in luck.fails)
  {
    if Renders(st, name) && FinalizerEnsured(st, name, luck.fails).Ok? {
      var cl := st.clusters[st.doormen[name].spec.clusterRef];
      ConclusionTells(FinalizerEnsured(st, name, luck.fails).value, name, a, BinaryFor(offered, cl), luck);
    }
  }

  /** A rendering comes from the generation read and the secrets read: only secrets of the
      cluster, resolved to their values, in a configuration the validator accepts; and with
      one reference per key every entry carries its own secret's value. */
  lemma RenderingIsExact(c: Codec, cl: Cluster, secrets: Secrets, spec: Spec, luck: Luck, a: Attempt)
    requires Attempts(c, cl, secrets, spec, luck, a) && a.r.Ok?
    ensures var n := VisitPools(spec, luck.order);
      n.Ok? &&
      var read := SecretsRead(secrets, spec.clusterRef, n.value.user, luck);
      var cfg := ConfigFor(n.value.spec, cl.poolerPort, cl.metricsPort, luck.passwords, a.r.value.admin, Some(c.tls));
      && a.r.value.data == c.marshal(cfg)
      && ValidateConfigBytes(c.decode, a.r.value.data).Some?
      && Stands(n.value.spec, cl.poolerPort, cl.metricsPort, WithAdminPassword(luck.passwords, a.r.value.admin), Some(c.tls), cfg)
      && ResolvesTo(n.value.spec, read, luck.passwords)
      && (forall e | HasRef(n.value.spec, e) ::
            var ref := RefOf(n.value.spec, e);
            ref.name in read && read[ref.name].cluster == Some(spec.clusterRef) && ref.key in read[ref.name].data)
      && (Unambiguous(n.value.spec) ==> OwnValues(n.value.spec, read, cfg))
      && (!HasRef(n.value.spec, AdminEntry) ==> cfg.general.adminPassword == a.r.value.admin)
  {
    var n := VisitPools(spec, luck.order);
    var read := SecretsRead(secrets, spec.clusterRef, n.value.user, luck);
    AllOwned(n.value.spec, read, spec.clusterRef);
    ConfigAsSpecified(n.value.spec, cl.poolerPort, cl.metricsPort, WithAdminPassword(luck.passwords, a.r.value.admin), Some(c.tls));
    FallbackTouchesOnlyAdmin(n.value.spec, read, luck.passwords, a.r.value.admin);
    if Unambiguous(n.value.spec) {
      UnambiguousRoutes(n.value.spec, read, luck.passwords, cl.poolerPort, cl.metricsPort, a.r.value.admin, Some(c.tls));
    }
  }

  lemma AllOwned(spec: Spec, read: Secrets, cluster: string)
    requires OwnedByCluster(spec, read, cluster) && AllReadable(spec, read)
    ensures forall e | HasRef(spec, e) ::
      var ref := RefOf(spec, e);
      ref.name in read && read[ref.name].cluster == Some(cluster) && ref.key in read[ref.name].data
  {
    forall e | HasRef(spec, e) ensures RefOf(spec, e).name in read && read[RefOf(spec, e).name].cluster == Some(cluster) {
      assert Refers(spec, RefOf(spec, e).name);
    }
  }

  lemma AttemptIsOwned(c: Codec, cl: Cluster, secrets: Secrets, spec: Spec, luck: Luck, a: Attempt)
    requires Attempts(c, cl, secrets, spec, luck, a) && a.r.Ok?
    ensures var n := VisitPools(spec, luck.order);
      n.Ok? &&
      var read := SecretsRead(secrets, spec.clusterRef, n.value.user, luck);
      RenderingFor(c, cl, n.value.spec, read, spec.clusterRef, luck) == a.r
  {
  }

  /** The admin password of a rendering is the persisted one, if there is one. */
  lemma AdminIsKept(c: Codec, cl: Cluster, secrets: Secrets, spec: Spec, luck: Luck, a: Attempt)
    requires Attempts(c, cl, secrets, spec, luck, a) && a.r.Ok? && luck.adminPassword != ""
    ensures a.r.value.admin != ""
    ensures var kept := PersistedAdmin(secrets, spec.clusterRef);
      a.r.value.admin == if kept != "" then kept else luck.adminPassword
  {
    AttemptIsOwned(c, cl, secrets, spec, luck, a);
    var n := VisitPools(spec, luck.order);
    PersistedDespiteAuth(secrets, spec.clusterRef, n.value.user, luck);
  }

  lemma PersistedDespiteAuth(secrets: Secrets, cluster: string, user: string, luck: Luck)
    ensures PersistedAdmin(SecretsRead(secrets, cluster, user, luck), cluster) == PersistedAdmin(secrets, cluster)
  {
    SecretNamesDiffer(cluster, cluster);
  }

  // --------------------------------------------------------------------- histories

  /** A step is a reconcile, or anything a user or another controller does. */
  datatype Event = Work(name: string, luck: Luck, a: Attempt, outcome: Outcome) | Edit

  ghost predicate Next(c: Codec, st: Store, ev: Event, after: Store) {
    ev.Work? ==> Reconciles(c, st, ev.name, ev.luck, ev.a, after, ev.outcome)
  }

  ghost predicate IsHistory(c: Codec, states: seq<Store>, events: seq<Event>) {
    && |states| == |events| + 1
    && forall i | 0 <= i < |events| :: Next(c, states[i], events[i], states[i + 1])
  }

  /** Nobody else writes the rendered secret; it may be deleted. */
  ghost predicate EditsSpareRendered(states: seq<Store>, events: seq<Event>, cluster: string)
    requires |states| == |events| + 1
  {
    forall i | 0 <= i < |events| && events[i].Edit? && RenderedSecretName(cluster) in states[i + 1].secrets ::
      && RenderedSecretName(cluster) in states[i].secrets
      && states[i + 1].secrets[RenderedSecretName(cluster)] == states[i].secrets[RenderedSecretName(cluster)]
  }

  /** The latest successful rendering for a cluster, unless its secret was deleted since. */
  ghost function LastRender(states: seq<Store>, events: seq<Event>, cluster: string, k: nat): Option<string>
    requires |states| == |events| + 1 && k <= |events|
  {
    if k == 0 then None
    else if events[k - 1].Edit? then
      if RenderedSecretName(cluster) in states[k].secrets then LastRender(states, events, cluster, k - 1) else None
    else if events[k - 1].outcome.Done? && events[k - 1].outcome.cluster == cluster then
      Some(events[k - 1].outcome.rendering.data)
    else LastRender(states, events, cluster, k - 1)
  }

  ghost predicate Holds(c: Codec, st: Store, cluster: string, last: Option<string>) {
    && (last.Some? <==> RenderedSecretName(cluster) in st.secrets)
    && (last.Some? ==>
          && Lookup(st.secrets[RenderedSecretName(cluster)].data, CONFIG_KEY) == last.value
          && ValidateConfigBytes(c.decode, last.value).Some?)
  }

  /** At every point of every history the stored configuration passes the validator and is
      the latest successful rendering. */
  lemma {:induction false} LastGoodRendering(c: Codec, states: seq<Store>, events: seq<Event>, cluster: string, k: nat)
    requires IsHistory(c, states, events) && k <= |events|
    requires RenderedSecretName(cluster) !in states[0].secrets
    requires EditsSpareRendered(states, events, cluster)
    ensures Holds(c, states[k], cluster, LastRender(states, events, cluster, k))
  {
    if k > 0 {
      LastGoodRendering(c, states, events, cluster, k - 1);
      assert Next(c, states[k - 1], events[k - 1], states[k]);
      if events[k - 1].Work? {
        ReconcileKeepsLast(c, states[k - 1], events[k - 1], states[k], cluster, LastRender(states, events, cluster, k - 1));
      }
    }
  }

  lemma ReconcileKeepsLast(c: Codec, st: Store, ev: Event, after: Store, cluster: string, last: Option<string>)
    requires ev.Work? && Next(c, st, ev, after) && Holds(c, st, cluster, last)
    ensures Holds(c, after, cluster,
                  if ev.outcome.Done? && ev.outcome.cluster == cluster then Some(ev.outcome.rendering.data) else last)
  {
    AttemptCreatesAbsent(c, st, ev.name, ev.luck, ev.a);
    OnlyTheRenderedSecretChanges(st, ev.name, ev.a, c.binary, ev.luck);
    if ev.outcome.Done? {
      DoneIsTheAttempt(c, st, ev, after);
      SecretNamesDiffer(cluster, ev.outcome.cluster);
    }
    if ev.name in st.doormen { SecretNamesDiffer(cluster, st.doormen[ev.name].spec.clusterRef); }
  }

  lemma DoneIsTheAttempt(c: Codec, st: Store, ev: Event, after: Store)
    requires ev.Work? && Next(c, st, ev, after) && ev.outcome.Done?
    ensures Renders(st, ev.name)
    ensures var spec := st.doormen[ev.name].spec; var cl := st.clusters[spec.clusterRef];
      Attempts(c, cl, st.secrets, spec, ev.luck, ev.a)
    ensures ev.a.r == Ok(ev.outcome.rendering)
    ensures ValidateConfigBytes(c.decode, ev.outcome.rendering.data).Some?
  {
    var spec := st.doormen[ev.name].spec;
    RenderingIsExact(c, st.clusters[spec.clusterRef], st.secrets, spec, ev.luck, ev.a);
  }

  /** Edits leave a secret that exists as it is. */
  ghost predicate EditsKeep(states: seq<Store>, events: seq<Event>, secret: string)
    requires |states| == |events| + 1
  {
    forall i | 0 <= i < |events| && events[i].Edit? && secret in states[i].secrets ::
      secret in states[i + 1].secrets && states[i + 1].secrets[secret] == states[i].secrets[secret]
  }

  ghost predicate PasswordsKept(st: Store, after: Store, cluster: string) {
    var auth := GeneratedAuthSecretName(cluster);
    && (PersistedAdmin(st.secrets, cluster) != "" ==>
          PersistedAdmin(after.secrets, cluster) == PersistedAdmin(st.secrets, cluster))
    && (auth in st.secrets ==> auth in after.secrets && after.secrets[auth] == st.secrets[auth])
  }

  /** However many reconciles run, a generated admin password and a generated auth secret
      stay as they are once stored. */
  lemma GeneratedPasswordsPersist(c: Codec, states: seq<Store>, events: seq<Event>, cluster: string, j: nat, k: nat)
    requires IsHistory(c, states, events) && j <= k <= |events|
    requires EditsKeep(states, events, RenderedSecretName(cluster))
    requires EditsKeep(states, events, GeneratedAuthSecretName(cluster))
    ensures PasswordsKept(states[j], states[k], cluster)
  {
    forall i | 0 <= i < |events| ensures PasswordsKept(states[i], states[i + 1], cluster) {
      StepKeepsPasswords(c, states, events, cluster, i);
    }
    KeptAlong(states, cluster, j, k);
  }

  lemma {:induction false} KeptAlong(states: seq<Store>, cluster: string, j: nat, k: nat)
    requires j <= k < |states|
    requires forall i | 0 <= i < |states| - 1 :: PasswordsKept(states[i], states[i + 1], cluster)
    ensures PasswordsKept(states[j], states[k], cluster)
  {
    if j < k {
      KeptAlong(states, cluster, j, k - 1);
      assert PasswordsKept(states[k - 1], states[k - 1 + 1], cluster);
    }
  }

  lemma StepKeepsPasswords(c: Codec, states: seq<Store>, events: seq<Event>, cluster: string, i: nat)
    requires IsHistory(c, states, events) && i < |events|
    requires EditsKeep(states, events, RenderedSecretName(cluster))
    requires EditsKeep(states, events, GeneratedAuthSecretName(cluster))
    ensures PasswordsKept(states[i], states[i + 1], cluster)
  {
    assert Next(c, states[i], events[i], states[i + 1]);
    if events[i].Work? {
      ReconcileKeepsPasswords(c, states[i], events[i], states[i + 1], cluster);
    } else {
      assert events[i].Edit?;
    }
  }

  lemma ReconcileKeepsPasswords(c: Codec, st: Store, ev: Event, after: Store, cluster: string)
    requires ev.Work? && Next(c, st, ev, after)
    ensures PasswordsKept(st, after, cluster)
  {
    AttemptCreatesAbsent(c, st, ev.name, ev.luck, ev.a);
    OnlyTheRenderedSecretChanges(st, ev.name, ev.a, c.binary, ev.luck);
    if ev.outcome.Done? {
      DoneIsTheAttempt(c, st, ev, after);
      var spec := st.doormen[ev.name].spec;
      AdminIsKept(c, st.clusters[spec.clusterRef], st.secrets, spec, ev.luck, ev.a);
      SecretNamesDiffer(cluster, spec.clusterRef);
      SecretNamesDiffer(spec.clusterRef, cluster);
    }
  }

  // --------------------------------------------------------------------- finalizer

  predicate Held(st: Store, name: string) { name in st.doormen && st.doormen[name].inUseFinalizer }

  ghost predicate EditsKeepFinalizer(states: seq<Store>, events: seq<Event>, name: string)
    requires |states| == |events| + 1
  {
    forall i | 0 <= i < |events| && events[i].Edit? && Held(states[i], name) :: Held(states[i + 1], name)
  }

  /** Some cluster is the one the object names, and names the object as its config. */
  ghost predicate Named(st: Store, name: string)
    requires name in st.doormen
  {
    exists cluster :: cluster in st.clusters && st.doormen[name].spec.clusterRef == cluster && st.clusters[cluster].configName == name
  }

  /** A reconcile of the object that finds its cluster absent or naming another config. */
  ghost predicate SeenUnused(states: seq<Store>, events: seq<Event>, name: string, i: nat)
    requires |states| == |events| + 1 && i < |events|
  {
    events[i].Work? && events[i].name == name && name in states[i].doormen && !Named(states[i], name)
  }

  /** An object that has the finalizer stays in the store, through every deletion and every
      reconcile, until one of its reconciles sees it unused. */
  lemma {:induction false} FinalizerHoldsUntilUnused(c: Codec, states: seq<Store>, events: seq<Event>, name: string, k: nat)
    requires IsHistory(c, states, events) && k <= |events|
    requires Held(states[0], name) && EditsKeepFinalizer(states, events, name)
    ensures Held(states[k], name) || exists i: nat :: i < k && SeenUnused(states, events, name, i)
  {
    if k > 0 {
      FinalizerHoldsUntilUnused(c, states, events, name, k - 1);
      assert Next(c, states[k - 1], events[k - 1], states[k]);
      if events[k - 1].Work? && Held(states[k - 1], name) && !SeenUnused(states, events, name, k - 1) {
        var ev := events[k - 1];
        ReconcileHolds(states[k - 1], ev.name, ev.a, c.binary, ev.luck, name);
      }
    }
  }

  lemma ReconcileHolds(st: Store, name: string, a: Attempt, offered: Option<string>, luck: Luck, other: string)
    requires Held(st, other) && (other == name ==> InUse(st, name))
    ensures Held(Reconciled(st, name, a, offered, luck).0, other)
  {
    if Renders(st, name) && FinalizerEnsured(st, name, luck.fails).Ok? {
      var cl := st.clusters[st.doormen[name].spec.clusterRef];
      ConclusionTells(FinalizerEnsured(st, name, luck.fails).value, name, a, BinaryFor(offered, cl), luck);
    }
  }

  /** A reconcile whose reads and patch succeed leaves the finalizer exactly on an object in
      use; an object being deleted keeps what it has unless unused, and is gone when no other
      finalizer holds it. */
  lemma FinalizerTracksUse(st: Store, name: string, a: Attempt, offered: Option<string>, luck: Luck)
    requires name in st.doormen
    requires GetDoorman !in luck.fails && GetCluster !in luck.fails && PatchDoorman !in luck.fails
    ensures var after, d := Reconciled(st, name, a, offered, luck).0, st.doormen[name];
      && (!d.deleting ==> name in after.doormen && (Held(after, name) <==> Named(st, name)))
      && (d.deleting ==> (Held(after, name) <==> d.inUseFinalizer && Named(st, name)))
      && (d.deleting && d.inUseFinalizer ==> (name in after.doormen <==> Named(st, name) || d.otherFinalizers))
  {
    if Renders(st, name) {
      var cl := st.clusters[st.doormen[name].spec.clusterRef];
      ConclusionTells(FinalizerEnsured(st, name, luck.fails).value, name, a, BinaryFor(offered, cl), luck);
    }
  }

  // ------------------------------------------------------------ a second reconcile

  /** The store after a rendering: the secrets the attempt read, with the rendered secret up
      to date, and an object that needs nothing more. */
  ghost predicate Settled(st: Store, name: string, a: Attempt, offered: Option<string>, after: Store) {
    && Renders(st, name) && Renders(after, name) && a.r.Ok?
    && after.clusters == st.clusters
    && var d, cluster := after.doormen[name], st.doormen[name].spec.clusterRef;
       var rendered := RenderedSecretName(cluster);
       && d.spec == st.doormen[name].spec && d.inUseFinalizer
       && d.condition == Some(Condition(true, Rendered, rendered, d.generation))
       && StoredIn(WithAuthSecret(st.secrets, cluster, a.created), after.secrets, cluster, a.r.value,
                   BinaryFor(offered, st.clusters[cluster]))
  }

  lemma ConclusionSettles(st: Store, name: string, a: Attempt, binary: Option<string>, luck: Luck)
    requires name in st.doormen && Concluded(st, name, a, binary, luck).1.Done?
    ensures var after, cluster := Concluded(st, name, a, binary, luck).0, st.doormen[name].spec.clusterRef;
      && a.r.Ok? && after.clusters == st.clusters
      && StoredIn(WithAuthSecret(st.secrets, cluster, a.created), after.secrets, cluster, a.r.value, binary)
      && name in after.doormen
  {
    var cluster := st.doormen[name].spec.clusterRef;
    var tried := Applied(st, cluster, a);
    UpsertSettles(tried, cluster, a.r.value, binary, luck.fails);
    var up := Upserted(tried, cluster, a.r.value, binary, luck.fails).value;
    NotingTells(up, name, true, Rendered, RenderedSecretName(cluster), luck.fails);
  }

  lemma DoneSettles(st: Store, name: string, a: Attempt, offered: Option<string>, luck: Luck)
    requires UpdateStatus !in luck.fails && Reconciled(st, name, a, offered, luck).1.Done?
    ensures Settled(st, name, a, offered, Reconciled(st, name, a, offered, luck).0)
  {
    var ready, cl := FinalizerEnsured(st, name, luck.fails).value, st.clusters[st.doormen[name].spec.clusterRef];
    ConclusionSettles(ready, name, a, BinaryFor(offered, cl), luck);
    ConclusionTells(ready, name, a, BinaryFor(offered, cl), luck);
  }

  /** In a settled store a reconcile without faults is idle exactly when its attempt gives
      the same rendering and creates nothing. */
  lemma IdleExactly(st: Store, name: string, a: Attempt, offered: Option<string>, after: Store, b: Attempt, luck: Luck)
    requires Settled(st, name, a, offered, after) && luck.fails == {}
    ensures Reconciled(after, name, b, offered, luck).0 == after <==> b.created.None? && b.r == Ok(a.r.value)
  {
    var cluster := st.doormen[name].spec.clusterRef;
    var tried := Applied(after, cluster, b);
    assert Reconciled(after, name, b, offered, luck)
      == Concluded(after, name, b, BinaryFor(offered, st.clusters[cluster]), luck);
    assert b.created.Some? ==> tried.writes > after.writes;
  }
}
