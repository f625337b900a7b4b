/** Resolution of the passwords a spec refers to, and where each of them ends up. */
module Credentials {
  import opened Wrappers
  import opened Spec
  import opened AuthSecrets
  import opened Config
  import opened ConfigGen

  /** A secret with the value of its cluster label. */
  datatype Secret = Secret(cluster: Option<string>, data: map<string, string>)

  type Secrets = map<string, Secret>

  /** The client's cache holds only secrets that carry the label; the rest read as absent. */
  predicate Visible(secrets: Secrets, name: string) { name in secrets && secrets[name].cluster.Some? }

  function ExtractSecretValue(secrets: Secrets, ref: SecretRef): (value: Option<string>)
    ensures value.Some? <==> Visible(secrets, ref.name) && ref.key in secrets[ref.name].data
    ensures value.Some? ==> value.value == secrets[ref.name].data[ref.key]
  {
    if !Visible(secrets, ref.name) then None
    else if ref.key !in secrets[ref.name].data then None
    else Some(secrets[ref.name].data[ref.key])
  }

  ghost predicate AllReadable(spec: Spec, secrets: Secrets) {
    forall e | HasRef(spec, e) :: ExtractSecretValue(secrets, RefOf(spec, e)).Some?
  }

  /** Key `k` holds the value of some entry with that key. */
  ghost predicate HoldsOwn(spec: Spec, secrets: Secrets, passwords: map<string, string>, k: string) {
    exists e :: HasRef(spec, e) && KeyOf(spec, e) == k
      && k in passwords && ExtractSecretValue(secrets, RefOf(spec, e)) == Some(passwords[k])
  }

  ghost predicate Owned(spec: Spec, secrets: Secrets, passwords: map<string, string>) {
    forall k | k in passwords :: HoldsOwn(spec, secrets, passwords, k)
  }

  ghost predicate Reached(spec: Spec, secrets: Secrets, passwords: map<string, string>, e: Entry)
    requires HasRef(spec, e)
  {
    ExtractSecretValue(secrets, RefOf(spec, e)).Some? && KeyOf(spec, e) in passwords
  }

  /** What resolution guarantees: a key for every entry, and under each key the value of
      some entry with that key. Which one depends on the map order. */
  ghost predicate ResolvesTo(spec: Spec, secrets: Secrets, passwords: map<string, string>) {
    Owned(spec, secrets, passwords) && forall e | HasRef(spec, e) :: Reached(spec, secrets, passwords, e)
  }

  /** The entries outside the pools in `left` have been resolved. */
  ghost predicate Resolved(spec: Spec, secrets: Secrets, left: set<string>, passwords: map<string, string>) {
    && Owned(spec, secrets, passwords)
    && forall e | HasRef(spec, e) && !e.AdminEntry? && e.pool !in left :: Reached(spec, secrets, passwords, e)
  }

  /** Succeeds exactly when every reference can be read. */
  method ResolvePasswords(spec: Spec, secrets: Secrets) returns (r: Result<map<string, string>>)
    ensures r.Ok? <==> AllReadable(spec, secrets)
    ensures r.Ok? ==> ResolvesTo(spec, secrets, r.value)
  {
    r := Ok(map[]);
    var left := spec.pools.Keys;
    while left != {}
      invariant left <= spec.pools.Keys
      invariant r.Ok? && Resolved(spec, secrets, left, r.value)
      decreases |left|
    {
      var p :| p in left;
      left := left - {p};
      r := ResolvePool(spec, secrets, p, left, r.value);
      if r.Err? { return; }
    }
    if spec.general.Some? && spec.general.value.adminPasswordRef.Some? {
      r := ResolveOne(spec, secrets, AdminEntry, spec.general.value.adminPasswordRef.value, ADMIN_PASSWORD_KEY, r.value);
      if r.Err? { return; }
    }
  }

  method ResolvePool(spec: Spec, secrets: Secrets, p: string, ghost left: set<string>, before: map<string, string>)
    returns (r: Result<map<string, string>>)
    requires p in spec.pools && p !in left
    requires Resolved(spec, secrets, left + {p}, before)
    ensures r.Ok? ==> Resolved(spec, secrets, left, r.value)
    ensures r.Err? ==> !AllReadable(spec, secrets)
  {
    r := Ok(before);
    var pool := spec.pools[p];
    if pool.authQuery.Some? && pool.authQuery.value.passwordRef.Some? {
      var aq := pool.authQuery.value;
      r := ResolveOne(spec, secrets, AuthEntry(p), aq.passwordRef.value, PasswordKey(p, "auth_query", aq.user), r.value);
      if r.Err? { return; }
    }
    r := ResolveUsers(spec, secrets, p, r.value);
    if r.Ok? { PoolDone(spec, secrets, p, left, before, r.value); }
  }

  method ResolveUsers(spec: Spec, secrets: Secrets, p: string, before: map<string, string>)
    returns (r: Result<map<string, string>>)
    requires p in spec.pools && Owned(spec, secrets, before)
    ensures r.Ok? ==>
      && Owned(spec, secrets, r.value) && before.Keys <= r.value.Keys
      && UsersReached(spec, secrets, r.value, p, |spec.pools[p].users|)
    ensures r.Err? ==> !AllReadable(spec, secrets)
  {
    r := Ok(before);
    var users := spec.pools[p].users;
    for i := 0 to |users|
      invariant r.Ok? && Owned(spec, secrets, r.value) && before.Keys <= r.value.Keys
      invariant UsersReached(spec, secrets, r.value, p, i)
    {
      var key := PasswordKey(p, "user", users[i].username);
      r := ResolveOne(spec, secrets, UserEntry(p, i), users[i].passwordRef, key, r.value);
      if r.Err? { return; }
    }
  }

  ghost predicate UsersReached(spec: Spec, secrets: Secrets, passwords: map<string, string>, p: string, i: int)
    requires p in spec.pools && i <= |spec.pools[p].users|
  {
    forall k: nat | k < i :: Reached(spec, secrets, passwords, UserEntry(p, k))
  }

  lemma PoolDone(spec: Spec, secrets: Secrets, p: string, left: set<string>,
                 before: map<string, string>, after: map<string, string>)
    requires p in spec.pools && p !in left && Resolved(spec, secrets, left + {p}, before)
    requires Owned(spec, secrets, after) && before.Keys <= after.Keys
    requires HasRef(spec, AuthEntry(p)) ==> Reached(spec, secrets, after, AuthEntry(p))
    requires UsersReached(spec, secrets, after, p, |spec.pools[p].users|)
    ensures Resolved(spec, secrets, left, after)
  {
    forall e | HasRef(spec, e) && !e.AdminEntry? && e.pool !in left ensures Reached(spec, secrets, after, e) {
      if e.pool != p { assert Reached(spec, secrets, before, e); }
    }
  }

  method ResolveOne(spec: Spec, secrets: Secrets, ghost e: Entry, ref: SecretRef, key: string,
                    passwords: map<string, string>) returns (r: Result<map<string, string>>)
    requires HasRef(spec, e) && ref == RefOf(spec, e) && key == KeyOf(spec, e)
    requires Owned(spec, secrets, passwords)
    ensures r.Err? ==> !AllReadable(spec, secrets)
    ensures r.Ok? ==>
      && Owned(spec, secrets, r.value) && Reached(spec, secrets, r.value, e)
      && r.value.Keys == passwords.Keys + {key}
  {
    var val := ExtractSecretValue(secrets, ref);
    if val.None? { return Err; }
    var after := passwords[key := val.value];
    forall k | k in after ensures HoldsOwn(spec, secrets, after, k) {
      if k != key { assert HoldsOwn(spec, secrets, passwords, k); }
    }
    r := Ok(after);
  }

  // ----------------------------------------------------------------------- routing

  /** Entries that share a key share the reference. */
  ghost predicate Unambiguous(spec: Spec) {
    forall e, f | HasRef(spec, e) && HasRef(spec, f) && KeyOf(spec, e) == KeyOf(spec, f) ::
      RefOf(spec, e) == RefOf(spec, f)
  }

  /** Every entry of the configuration carries the value of its own reference. */
  ghost predicate OwnValues(spec: Spec, secrets: Secrets, cfg: DoormanConfig) {
    forall e | HasRef(spec, e) :: ExtractSecretValue(secrets, RefOf(spec, e)) == Some(EntryPassword(spec, cfg, e))
  }

  /** The configuration rendered from resolved passwords and an admin fallback. */
  function ConfigFor(spec: Spec, poolerPort: int, metricsPort: int,
                     passwords: map<string, string>, fallback: string, tls: Option<TLSFiles>): DoormanConfig
  {
    GeneratedConfig(spec, poolerPort, metricsPort, WithAdminPassword(passwords, fallback), tls)
  }

  /** However the maps are iterated, every entry gets its own value. */
  ghost predicate AlwaysRouted(spec: Spec, poolerPort: int, metricsPort: int, fallback: string, tls: Option<TLSFiles>) {
    forall secrets, passwords | ResolvesTo(spec, secrets, passwords) ::
      OwnValues(spec, secrets, ConfigFor(spec, poolerPort, metricsPort, passwords, fallback, tls))
  }

  lemma KeysHoldTheirValue(spec: Spec, secrets: Secrets, passwords: map<string, string>, e: Entry)
    requires Unambiguous(spec) && ResolvesTo(spec, secrets, passwords) && HasRef(spec, e)
    ensures KeyOf(spec, e) in passwords
    ensures ExtractSecretValue(secrets, RefOf(spec, e)) == Some(passwords[KeyOf(spec, e)])
  {
    assert Reached(spec, secrets, passwords, e);
    assert HoldsOwn(spec, secrets, passwords, KeyOf(spec, e));
  }

  ghost function Entries(spec: Spec): (entries: set<Entry>)
    ensures forall e :: e in entries <==> HasRef(spec, e)
  {
    (set p | p in spec.pools && HasRef(spec, AuthEntry(p)) :: AuthEntry(p))
    + (set p, i: nat | p in spec.pools && 0 <= i < |spec.pools[p].users| :: UserEntry(p, i))
    + if HasRef(spec, AdminEntry) then {AdminEntry} else {}
  }

  ghost function RefNames(spec: Spec): set<string> { set e | e in Entries(spec) :: RefOf(spec, e).name }

  ghost function RefKeys(spec: Spec): set<string> { set e | e in Entries(spec) :: RefOf(spec, e).key }

  /** Every reference reads "b", except one that reads "a". */
  ghost function TwoValued(spec: Spec, a: SecretRef): Secrets {
    map n | n in RefNames(spec) ::
      Secret(Some(spec.clusterRef), map k | k in RefKeys(spec) :: if SecretRef(n, k) == a then "a" else "b")
  }

  lemma TwoValuedReads(spec: Spec, a: SecretRef, e: Entry)
    requires HasRef(spec, e)
    ensures ExtractSecretValue(TwoValued(spec, a), RefOf(spec, e)) == Some(if RefOf(spec, e) == a then "a" else "b")
  {
    assert e in Entries(spec);
    var ref := RefOf(spec, e);
    assert ref.name in RefNames(spec) && ref.key in RefKeys(spec);
    assert SecretRef(ref.name, ref.key) == ref;
  }

  /** When every reference can be read there is a way to resolve them. */
  lemma SomeResolution(spec: Spec, secrets: Secrets) returns (passwords: map<string, string>)
    requires AllReadable(spec, secrets)
    ensures ResolvesTo(spec, secrets, passwords)
  {
    var keys := set e | e in Entries(spec) :: KeyOf(spec, e);
    forall e | HasRef(spec, e) ensures KeyOf(spec, e) in keys { assert e in Entries(spec); }
    passwords := map k | k in keys :: Chosen(spec, secrets, k);
    forall k | k in passwords ensures HoldsOwn(spec, secrets, passwords, k) {
      var e :| HasRef(spec, e) && KeyOf(spec, e) == k
        && ExtractSecretValue(secrets, RefOf(spec, e)).value == Chosen(spec, secrets, k);
    }
  }

  ghost function Chosen(spec: Spec, secrets: Secrets, k: string): (value: string)
    requires AllReadable(spec, secrets) && exists e :: HasRef(spec, e) && KeyOf(spec, e) == k
    ensures exists e ::
      HasRef(spec, e) && KeyOf(spec, e) == k && ExtractSecretValue(secrets, RefOf(spec, e)).value == value
  {
    var e :| HasRef(spec, e) && KeyOf(spec, e) == k;
    ExtractSecretValue(secrets, RefOf(spec, e)).value
  }

  /** The fallback never replaces an entry's password, and serves the admin exactly when no
      reference does. */
  lemma FallbackTouchesOnlyAdmin(spec: Spec, secrets: Secrets, passwords: map<string, string>, fallback: string)
    requires ResolvesTo(spec, secrets, passwords)
    ensures forall e | HasRef(spec, e) ::
      Lookup(WithAdminPassword(passwords, fallback), KeyOf(spec, e)) == Lookup(passwords, KeyOf(spec, e))
    ensures !HasRef(spec, AdminEntry) ==>
      Lookup(WithAdminPassword(passwords, fallback), ADMIN_PASSWORD_KEY) == fallback
  {
    if ADMIN_PASSWORD_KEY in passwords {
      assert HoldsOwn(spec, secrets, passwords, ADMIN_PASSWORD_KEY);
      var e :| HasRef(spec, e) && KeyOf(spec, e) == ADMIN_PASSWORD_KEY;
      if e.AuthEntry? { AdminKeyIsItsOwn(e.pool, "auth_query", spec.pools[e.pool].authQuery.value.user); }
      if e.UserEntry? { AdminKeyIsItsOwn(e.pool, "user", spec.pools[e.pool].users[e.index].username); }
    }
    forall e | HasRef(spec, e) ensures KeyOf(spec, e) in passwords {
      assert Reached(spec, secrets, passwords, e);
    }
  }

  lemma EntryReads(spec: Spec, secrets: Secrets, poolerPort: int, metricsPort: int,
                   passwords: map<string, string>, fallback: string, tls: Option<TLSFiles>, e: Entry)
    requires HasRef(spec, e) && ResolvesTo(spec, secrets, passwords)
    ensures EntryPassword(spec, ConfigFor(spec, poolerPort, metricsPort, passwords, fallback, tls), e)
      == Lookup(passwords, KeyOf(spec, e))
  {
    FallbackTouchesOnlyAdmin(spec, secrets, passwords, fallback);
    EntriesReadTheirKey(spec, poolerPort, metricsPort, WithAdminPassword(passwords, fallback), tls, e);
  }

  lemma UnambiguousRoutes(spec: Spec, secrets: Secrets, passwords: map<string, string>,
                          poolerPort: int, metricsPort: int, fallback: string, tls: Option<TLSFiles>)
    requires Unambiguous(spec) && ResolvesTo(spec, secrets, passwords)
    ensures OwnValues(spec, secrets, ConfigFor(spec, poolerPort, metricsPort, passwords, fallback, tls))
  {
    var cfg := ConfigFor(spec, poolerPort, metricsPort, passwords, fallback, tls);
    forall e | HasRef(spec, e)
      ensures ExtractSecretValue(secrets, RefOf(spec, e)) == Some(EntryPassword(spec, cfg, e))
    {
      KeysHoldTheirValue(spec, secrets, passwords, e);
      EntryReads(spec, secrets, poolerPort, metricsPort, passwords, fallback, tls, e);
    }
  }

  lemma AmbiguousMisroutes(spec: Spec, poolerPort: int, metricsPort: int, fallback: string, tls: Option<TLSFiles>, e: Entry, f: Entry)
    requires HasRef(spec, e) && HasRef(spec, f) && KeyOf(spec, e) == KeyOf(spec, f)
    requires RefOf(spec, e) != RefOf(spec, f)
    ensures !AlwaysRouted(spec, poolerPort, metricsPort, fallback, tls)
  {
    var secrets := TwoValued(spec, RefOf(spec, e));
    forall g | HasRef(spec, g) ensures ExtractSecretValue(secrets, RefOf(spec, g)).Some? {
      TwoValuedReads(spec, RefOf(spec, e), g);
    }
    var passwords := SomeResolution(spec, secrets);
    var cfg := ConfigFor(spec, poolerPort, metricsPort, passwords, fallback, tls);
    EntryReads(spec, secrets, poolerPort, metricsPort, passwords, fallback, tls, e);
    EntryReads(spec, secrets, poolerPort, metricsPort, passwords, fallback, tls, f);
    assert EntryPassword(spec, cfg, e) == EntryPassword(spec, cfg, f);
    TwoValuedReads(spec, RefOf(spec, e), e);
    TwoValuedReads(spec, RefOf(spec, e), f);
  }

  /** Every entry gets its own value under every store and map order exactly when entries
      sharing a key share the reference. */
  lemma RoutingExactly(spec: Spec, poolerPort: int, metricsPort: int, fallback: string, tls: Option<TLSFiles>)
    ensures AlwaysRouted(spec, poolerPort, metricsPort, fallback, tls) <==> Unambiguous(spec)
  {
    if Unambiguous(spec) {
      forall secrets, passwords | ResolvesTo(spec, secrets, passwords)
        ensures OwnValues(spec, secrets, ConfigFor(spec, poolerPort, metricsPort, passwords, fallback, tls))
      {
        UnambiguousRoutes(spec, secrets, passwords, poolerPort, metricsPort, fallback, tls);
      }
    } else {
      var e, f :| HasRef(spec, e) && HasRef(spec, f) && KeyOf(spec, e) == KeyOf(spec, f)
        && RefOf(spec, e) != RefOf(spec, f);
      AmbiguousMisroutes(spec, poolerPort, metricsPort, fallback, tls, e, f);
    }
  }

  /** Slash-free pool names and unique usernames are enough. */
  lemma CleanNamesRoute(spec: Spec, poolerPort: int, metricsPort: int, fallback: string, tls: Option<TLSFiles>)
    requires CleanNames(spec)
    ensures Unambiguous(spec) && AlwaysRouted(spec, poolerPort, metricsPort, fallback, tls)
  {
    forall e, f | HasRef(spec, e) && HasRef(spec, f) && KeyOf(spec, e) == KeyOf(spec, f) ensures e == f {
      KeysAreInjective(spec, e, f);
    }
    RoutingExactly(spec, poolerPort, metricsPort, fallback, tls);
  }

  function Rotated(secrets: Secrets, ref: SecretRef, value: string): Secrets
    requires ref.name in secrets
  {
    var secret := secrets[ref.name];
    secrets[ref.name := secret.(data := secret.data[ref.key := value])]
  }

  lemma RotatedReads(secrets: Secrets, ref: SecretRef, value: string, other: SecretRef)
    requires ExtractSecretValue(secrets, ref).Some?
    ensures ExtractSecretValue(Rotated(secrets, ref, value), other)
      == if other == ref then Some(value) else ExtractSecretValue(secrets, other)
  {
  }

  /** Rotating one password: every entry that refers to it carries the new value, every other
      entry the value it had. */
  lemma RotationReachesItsEntries(spec: Spec, secrets: Secrets, ref: SecretRef, value: string,
                                  p: map<string, string>, q: map<string, string>,
                                  poolerPort: int, metricsPort: int, fallback: string, tls: Option<TLSFiles>, e: Entry)
    requires Unambiguous(spec) && HasRef(spec, e) && ExtractSecretValue(secrets, ref).Some?
    requires ResolvesTo(spec, secrets, p) && ResolvesTo(spec, Rotated(secrets, ref, value), q)
    ensures EntryPassword(spec, ConfigFor(spec, poolerPort, metricsPort, q, fallback, tls), e)
      == if RefOf(spec, e) == ref then value
         else EntryPassword(spec, ConfigFor(spec, poolerPort, metricsPort, p, fallback, tls), e)
  {
    EntryReads(spec, secrets, poolerPort, metricsPort, p, fallback, tls, e);
    EntryReads(spec, Rotated(secrets, ref, value), poolerPort, metricsPort, q, fallback, tls, e);
    KeysHoldTheirValue(spec, secrets, p, e);
    KeysHoldTheirValue(spec, Rotated(secrets, ref, value), q, e);
    RotatedReads(secrets, ref, value, RefOf(spec, e));
  }

  /** Taking the cluster label off a referenced secret stops resolution. */
  lemma UnlabelledSecretStopsResolution(spec: Spec, secrets: Secrets, name: string)
    requires Refers(spec, name) && name in secrets
    ensures !AllReadable(spec, secrets[name := secrets[name].(cluster := None)])
  {
    var e :| HasRef(spec, e) && RefOf(spec, e).name == name;
    assert ExtractSecretValue(secrets[name := secrets[name].(cluster := None)], RefOf(spec, e)) == None;
  }

  /** Stores that agree on the referenced secrets resolve to the same maps. */
  lemma SamePasswords(spec: Spec, secrets: Secrets, other: Secrets, passwords: map<string, string>)
    requires forall name | Refers(spec, name) :: name in secrets <==> name in other
    requires forall name | Refers(spec, name) && name in secrets :: secrets[name] == other[name]
    ensures AllReadable(spec, secrets) <==> AllReadable(spec, other)
    ensures ResolvesTo(spec, secrets, passwords) <==> ResolvesTo(spec, other, passwords)
  {
    forall e | HasRef(spec, e)
      ensures ExtractSecretValue(secrets, RefOf(spec, e)) == ExtractSecretValue(other, RefOf(spec, e))
    {
      assert Refers(spec, RefOf(spec, e).name);
    }
    if Owned(spec, secrets, passwords) { SameOwned(spec, secrets, other, passwords); }
    if Owned(spec, other, passwords) { SameOwned(spec, other, secrets, passwords); }
    forall e | HasRef(spec, e)
      ensures Reached(spec, secrets, passwords, e) <==> Reached(spec, other, passwords, e) {}
  }

  lemma SameOwned(spec: Spec, secrets: Secrets, other: Secrets, passwords: map<string, string>)
    requires Owned(spec, secrets, passwords)
    requires forall e | HasRef(spec, e) ::
      ExtractSecretValue(secrets, RefOf(spec, e)) == ExtractSecretValue(other, RefOf(spec, e))
    ensures Owned(spec, other, passwords)
  {
    forall k | k in passwords ensures HoldsOwn(spec, other, passwords, k) {
      assert HoldsOwn(spec, secrets, passwords, k);
    }
  }

  /** With one reference per key, resolution has one outcome. */
  lemma ResolutionIsUnique(spec: Spec, secrets: Secrets, p: map<string, string>, q: map<string, string>)
    requires Unambiguous(spec) && ResolvesTo(spec, secrets, p) && ResolvesTo(spec, secrets, q)
    ensures p == q
  {
    forall k | k in p || k in q ensures k in p && k in q && p[k] == q[k] {
      assert k in p ==> HoldsOwn(spec, secrets, p, k);
      assert k in q ==> HoldsOwn(spec, secrets, q, k);
      var e :| HasRef(spec, e) && KeyOf(spec, e) == k;
      KeysHoldTheirValue(spec, secrets, p, e);
      KeysHoldTheirValue(spec, secrets, q, e);
    }
  }
}
