/** Generation of the pg_doorman configuration from a spec and the resolved passwords. */
module ConfigGen {
  import opened Wrappers
  import opened Spec
  import opened AuthSecrets
  import opened Config
  import Duration

  const ADMIN_PASSWORD_KEY := "_admin/password"

  datatype TLSFiles = TLSFiles(certificate: string, privateKey: string)

  function PasswordKey(poolName: string, kind: string, username: string): string {
    poolName + "/" + kind + "/" + username
  }

  /** The key under which an entry's password travels from resolution to generation. */
  function KeyOf(spec: Spec, e: Entry): string
    requires HasRef(spec, e)
  {
    match e
    case AuthEntry(p) => PasswordKey(p, "auth_query", spec.pools[p].authQuery.value.user)
    case UserEntry(p, i) => PasswordKey(p, "user", spec.pools[p].users[i].username)
    case AdminEntry => ADMIN_PASSWORD_KEY
  }

  /** A missing key reads as the empty string. */
  function Lookup(passwords: map<string, string>, key: string): string {
    if key in passwords then passwords[key] else ""
  }

  function WithAdminPassword(passwords: map<string, string>, fallback: string): map<string, string> {
    if ADMIN_PASSWORD_KEY in passwords then passwords else passwords[ADMIN_PASSWORD_KEY := fallback]
  }

  function GeneratedGeneral(g: GeneralSpec, poolerPort: int, adminPassword: string, tls: Option<TLSFiles>): GeneralConfig {
    GeneralConfig(
      "0.0.0.0", poolerPort,
      if tls.Some? then tls.value.certificate else "", if tls.Some? then tls.value.privateKey else "",
      g.adminUsername, adminPassword, g.workerThreads, g.maxConnections,
      g.connectTimeout, g.idleTimeout, g.serverLifetime, g.shutdownTimeout)
  }

  function GeneratedAuthQuery(name: string, pool: PoolSpec, passwords: map<string, string>): Option<AuthQueryConfig> {
    if pool.authQuery.None? then None
    else
      var aq := pool.authQuery.value;
      Some(AuthQueryConfig(
        aq.query, aq.user, Lookup(passwords, PasswordKey(name, "auth_query", aq.user)), aq.database,
        aq.poolSize, pool.defaultPoolSize, "", "", ""))
  }

  function GeneratedUser(name: string, user: UserSpec, passwords: map<string, string>): UserConfig {
    UserConfig(user.username, Lookup(passwords, PasswordKey(name, "user", user.username)), user.poolSize)
  }

  function GeneratedUsers(name: string, users: seq<UserSpec>, passwords: map<string, string>): (r: seq<UserConfig>)
    ensures |r| == |users| && forall i | 0 <= i < |users| :: r[i] == GeneratedUser(name, users[i], passwords)
  {
    seq(|users|, i requires 0 <= i < |users| => GeneratedUser(name, users[i], passwords))
  }

  function GeneratedPool(name: string, pool: PoolSpec, passwords: map<string, string>): PoolConfig {
    PoolConfig("localhost", 5432, pool.poolMode,
               GeneratedUsers(name, pool.users, passwords), GeneratedAuthQuery(name, pool, passwords))
  }

  function GeneratedPools(pools: map<string, PoolSpec>, passwords: map<string, string>): map<string, PoolConfig> {
    map name | name in pools :: GeneratedPool(name, pools[name], passwords)
  }

  function GeneratedConfig(spec: Spec, poolerPort: int, metricsPort: int,
                           passwords: map<string, string>, tls: Option<TLSFiles>): DoormanConfig
  {
    var applied := Defaulted(spec);
    DoormanConfig(
      GeneratedGeneral(applied.general.value, poolerPort, Lookup(passwords, ADMIN_PASSWORD_KEY), tls),
      GeneratedPools(applied.pools, passwords),
      if applied.prometheus.value.enabled == Some(true) then Some(PrometheusConfig(true, "0.0.0.0", metricsPort)) else None)
  }

  // ------------------------------------------------- the configuration of a raw spec

  ghost predicate GeneralStands(general: Option<GeneralSpec>, g: GeneralConfig) {
    var wanted := if general.Some? then general.value else GeneralSpec(None, None, "", "", "", "", "", None);
    && FillsValue(wanted.maxConnections, g.maxConnections, 8192) && FillsValue(wanted.workerThreads, g.workerThreads, 4)
    && Fills(wanted.connectTimeout, g.connectTimeout, "3s") && Fills(wanted.idleTimeout, g.idleTimeout, "5m")
    && Fills(wanted.serverLifetime, g.serverLifetime, "5m") && Fills(wanted.shutdownTimeout, g.shutdownTimeout, "10s")
    && Fills(wanted.adminUsername, g.adminUsername, "admin")
  }

  ghost predicate AuthQueryStands(name: string, pool: PoolSpec, aq: AuthQuerySpec, c: AuthQueryConfig, passwords: map<string, string>) {
    && c.user == aq.user && c.password == Lookup(passwords, name + "/" + "auth_query" + "/" + aq.user)
    && Fills(aq.query, c.query, "SELECT * FROM public.doorman_auth_query($1)")
    && Fills(aq.database, c.database, "postgres")
    && FillsValue(aq.poolSize, c.workers, 2) && FillsValue(pool.defaultPoolSize, c.poolSize, 40)
    && c.cacheTtl == "" && c.cacheFailureTtl == "" && c.minInterval == ""
  }

  ghost predicate UserStands(name: string, user: UserSpec, c: UserConfig, passwords: map<string, string>) {
    && c.username == user.username && c.password == Lookup(passwords, name + "/" + "user" + "/" + user.username)
    && FillsValue(user.poolSize, c.poolSize, 20)
  }

  ghost predicate PoolStands(name: string, pool: PoolSpec, c: PoolConfig, passwords: map<string, string>) {
    && c.serverHost == "localhost" && c.serverPort == 5432 && Fills(pool.poolMode, c.poolMode, "transaction")
    && (c.authQuery.Some? <==> pool.authQuery.Some?)
    && (pool.authQuery.Some? ==> AuthQueryStands(name, pool, pool.authQuery.value, c.authQuery.value, passwords))
    && |c.users| == |pool.users|
    && forall i | 0 <= i < |pool.users| :: UserStands(name, pool.users[i], c.users[i], passwords)
  }

  /** Every value set in the spec stands in the field of its name, every unset one is its
      documented default, and the rest is fixed: the listener on the pooler port, the metrics on
      theirs, the certificate pair, and the database beside the pooler. */
  ghost predicate Stands(spec: Spec, poolerPort: int, metricsPort: int,
                         passwords: map<string, string>, tls: Option<TLSFiles>, cfg: DoormanConfig)
  {
    && cfg.general.host == "0.0.0.0" && cfg.general.port == poolerPort
    && cfg.general.tlsCertificate == (if tls.Some? then tls.value.certificate else "")
    && cfg.general.tlsPrivateKey == (if tls.Some? then tls.value.privateKey else "")
    && cfg.general.adminPassword == Lookup(passwords, ADMIN_PASSWORD_KEY)
    && GeneralStands(spec.general, cfg.general)
    && cfg.prometheus == (if spec.prometheus.Some? && spec.prometheus.value.enabled == Some(false) then None
                          else Some(PrometheusConfig(true, "0.0.0.0", metricsPort)))
    && cfg.pools.Keys == spec.pools.Keys
    && forall name | name in spec.pools :: PoolStands(name, spec.pools[name], cfg.pools[name], passwords)
  }

  lemma PoolAsSpecified(name: string, pool: PoolSpec, passwords: map<string, string>)
    ensures PoolStands(name, pool, GeneratedPool(name, DefaultedPool(pool), passwords), passwords)
  {
    var applied := DefaultedPool(pool);
    var c := GeneratedPool(name, applied, passwords);
    forall i | 0 <= i < |pool.users| ensures UserStands(name, pool.users[i], c.users[i], passwords) {
      assert applied.users[i] == DefaultedUser(pool.users[i]);
      assert c.users[i] == GeneratedUser(name, applied.users[i], passwords);
    }
  }

  lemma GeneralAsSpecified(general: Option<GeneralSpec>, poolerPort: int, admin: string, tls: Option<TLSFiles>)
    ensures GeneralStands(general, GeneratedGeneral(DefaultedGeneral(general), poolerPort, admin, tls))
  {
  }

  lemma PrometheusAsSpecified(prometheus: Option<PrometheusSpec>)
    ensures DefaultedPrometheus(prometheus).enabled == Some(true)
      <==> !(prometheus.Some? && prometheus.value.enabled == Some(false))
  {
    if prometheus.Some? && prometheus.value.enabled.Some? {
      var enabled := prometheus.value.enabled;
      assert if enabled.value then enabled == Some(true) else enabled == Some(false);
    }
  }

  /** Main result: the generated configuration says what the raw spec says. */
  lemma ConfigAsSpecified(spec: Spec, poolerPort: int, metricsPort: int, passwords: map<string, string>, tls: Option<TLSFiles>)
    ensures Stands(spec, poolerPort, metricsPort, passwords, tls, GeneratedConfig(spec, poolerPort, metricsPort, passwords, tls))
  {
    forall name | name in spec.pools
      ensures PoolStands(name, spec.pools[name], GeneratedPool(name, DefaultedPool(spec.pools[name]), passwords), passwords)
    {
      PoolAsSpecified(name, spec.pools[name], passwords);
    }
    GeneralAsSpecified(spec.general, poolerPort, Lookup(passwords, ADMIN_PASSWORD_KEY), tls);
    PrometheusAsSpecified(spec.prometheus);
  }

  method EnsureAdminPassword(passwords: map<string, string>, fallback: string) returns (r: map<string, string>)
    ensures ADMIN_PASSWORD_KEY in r && r.Keys == passwords.Keys + {ADMIN_PASSWORD_KEY}
    ensures forall k | k in passwords :: r[k] == passwords[k]
    ensures ADMIN_PASSWORD_KEY !in passwords ==> r[ADMIN_PASSWORD_KEY] == fallback
    ensures r == WithAdminPassword(passwords, fallback)
  {
    r := passwords;
    if ADMIN_PASSWORD_KEY in r { return; }
    r := r[ADMIN_PASSWORD_KEY := fallback];
  }

  /** Defaults a copy of the spec and fills the configuration, in any order of the pools. */
  method Generate(spec: Spec, poolerPort: int, metricsPort: int,
                  passwords: map<string, string>, tls: Option<TLSFiles>) returns (cfg: DoormanConfig)
    ensures cfg == GeneratedConfig(spec, poolerPort, metricsPort, passwords, tls)
    ensures Stands(spec, poolerPort, metricsPort, passwords, tls, cfg)
  {
    ConfigAsSpecified(spec, poolerPort, metricsPort, passwords, tls);
    var applied := new PgDoormanSpec.DeepCopy(spec);
    applied.ApplyDefaults();
    var g := applied.general.value;
    var general := GeneralConfig(
      "0.0.0.0", poolerPort, "", "", g.adminUsername, Lookup(passwords, ADMIN_PASSWORD_KEY),
      g.workerThreads, g.maxConnections, g.connectTimeout, g.idleTimeout, g.serverLifetime, g.shutdownTimeout);
    if tls.Some? {
      general := general.(tlsCertificate := tls.value.certificate, tlsPrivateKey := tls.value.privateKey);
    }
    var prometheus := None;
    if applied.prometheus.Some? && applied.prometheus.value.enabled == Some(true) {
      prometheus := Some(PrometheusConfig(true, "0.0.0.0", metricsPort));
    }
    var pools := GeneratePools(applied.pools, passwords);
    cfg := DoormanConfig(general, pools, prometheus);
  }

  method GeneratePools(applied: map<string, PoolSpec>, passwords: map<string, string>)
    returns (pools: map<string, PoolConfig>)
    ensures pools == GeneratedPools(applied, passwords)
  {
    pools := map[];
    var left := applied.Keys;
    while left != {}
      invariant left <= applied.Keys && pools.Keys == applied.Keys - left
      invariant forall n | n in pools :: pools[n] == GeneratedPool(n, applied[n], passwords)
      decreases |left|
    {
      var name :| name in left;
      left := left - {name};
      var pool := applied[name];
      var pc := PoolConfig("localhost", 5432, pool.poolMode, [], None);
      if pool.authQuery.Some? {
        var aq := pool.authQuery.value;
        pc := pc.(authQuery := Some(AuthQueryConfig(
          aq.query, aq.user, Lookup(passwords, PasswordKey(name, "auth_query", aq.user)), aq.database,
          aq.poolSize, pool.defaultPoolSize, "", "", "")));
      }
      var users := [];
      for i := 0 to |pool.users|
        invariant |users| == i
        invariant forall k | 0 <= k < i :: users[k] == GeneratedUser(name, pool.users[k], passwords)
      {
        var user := pool.users[i];
        users := users
          + [UserConfig(user.username, Lookup(passwords, PasswordKey(name, "user", user.username)), user.poolSize)];
      }
      assert users == GeneratedUsers(name, pool.users, passwords);
      pools := pools[name := pc.(users := users)];
    }
  }

  // ----------------------------------------------------------------- password keys

  predicate SlashFree(s: string) { forall i | 0 <= i < |s| :: s[i] != '/' }

  /** Pool names without a slash and no username twice in a pool. */
  ghost predicate CleanNames(spec: Spec) {
    && (forall p | p in spec.pools :: SlashFree(p))
    && forall p, i, j | p in spec.pools && 0 <= i < j < |spec.pools[p].users| ::
         spec.pools[p].users[i].username != spec.pools[p].users[j].username
  }

  /** The text before the first slash is determined. */
  lemma FirstSlash(p: string, q: string, a: string, b: string)
    requires SlashFree(p) && SlashFree(q) && p + "/" + a == q + "/" + b
    ensures p == q && a == b
  {
    var s, t := p + "/" + a, q + "/" + b;
    assert s[|p|] == '/' && t[|q|] == '/';
    assert forall i | 0 <= i < |p| :: s[i] != '/';
    assert forall i | 0 <= i < |q| :: t[i] != '/';
    assert p == s[..|p|] == t[..|q|] == q;
    assert a == s[|p| + 1..] == t[|q| + 1..] == b;
  }

  lemma KeyParts(p: string, kind: string, user: string)
    ensures PasswordKey(p, kind, user) == p + "/" + (kind + "/" + user)
  {
    assert p + "/" + kind + "/" + user == p + "/" + (kind + "/" + user);
  }

  /** Whatever the names, the admin key is no entry's key. */
  lemma AdminKeyIsItsOwn(p: string, kind: string, user: string)
    ensures PasswordKey(p, kind, user) != ADMIN_PASSWORD_KEY
  {
    var key := PasswordKey(p, kind, user);
    assert key[|p|] == '/' && key[|p| + 1 + |kind|] == '/';
    if key == ADMIN_PASSWORD_KEY {
      assert forall i | 0 <= i < |ADMIN_PASSWORD_KEY| && i != 6 :: ADMIN_PASSWORD_KEY[i] != '/';
      assert false;
    }
  }

  lemma KindsDiffer(p: string, user: string, q: string, username: string)
    requires SlashFree(p) && SlashFree(q)
    ensures PasswordKey(p, "auth_query", user) != PasswordKey(q, "user", username)
  {
    KeyParts(p, "auth_query", user);
    KeyParts(q, "user", username);
    var a, b := "auth_query/" + user, "user/" + username;
    assert a == "auth_query" + "/" + user && b == "user" + "/" + username;
    assert a[0] == 'a' && b[0] == 'u';
    if PasswordKey(p, "auth_query", user) == PasswordKey(q, "user", username) {
      FirstSlash(p, q, a, b);
    }
  }

  lemma SameKind(p: string, q: string, kind: string, user: string, username: string)
    requires SlashFree(p) && SlashFree(q) && PasswordKey(p, kind, user) == PasswordKey(q, kind, username)
    ensures p == q && user == username
  {
    KeyParts(p, kind, user);
    KeyParts(q, kind, username);
    var a, b := kind + "/" + user, kind + "/" + username;
    FirstSlash(p, q, a, b);
    assert user == a[|kind| + 1..] && username == b[|kind| + 1..];
  }

  /** With clean names no two entries share a key. */
  lemma KeysAreInjective(spec: Spec, e: Entry, f: Entry)
    requires CleanNames(spec) && HasRef(spec, e) && HasRef(spec, f)
    requires KeyOf(spec, e) == KeyOf(spec, f)
    ensures e == f
  {
    match (e, f)
    case (AdminEntry, AdminEntry) =>
    case (AuthEntry(p), AuthEntry(q)) =>
      SameKind(p, q, "auth_query", spec.pools[p].authQuery.value.user, spec.pools[q].authQuery.value.user);
    case (UserEntry(p, i), UserEntry(q, j)) =>
      SameKind(p, q, "user", spec.pools[p].users[i].username, spec.pools[q].users[j].username);
      assert i < j || j < i || i == j;
    case (AuthEntry(p), UserEntry(q, j)) =>
      KindsDiffer(p, spec.pools[p].authQuery.value.user, q, spec.pools[q].users[j].username);
    case (UserEntry(q, j), AuthEntry(p)) =>
      KindsDiffer(p, spec.pools[p].authQuery.value.user, q, spec.pools[q].users[j].username);
    case (AdminEntry, AuthEntry(p)) => AdminKeyIsItsOwn(p, "auth_query", spec.pools[p].authQuery.value.user);
    case (AuthEntry(p), AdminEntry) => AdminKeyIsItsOwn(p, "auth_query", spec.pools[p].authQuery.value.user);
    case (AdminEntry, UserEntry(p, i)) => AdminKeyIsItsOwn(p, "user", spec.pools[p].users[i].username);
    case (UserEntry(p, i), AdminEntry) => AdminKeyIsItsOwn(p, "user", spec.pools[p].users[i].username);
  }

  /** Without slash-free pool names two entries of different pools can share a key. */
  lemma SlashesCollide(q: PoolSpec, r: PoolSpec, clusterRef: string, i: nat, j: nat)
    requires i < |q.users| && q.users[i].username == "b/user/c"
    requires j < |r.users| && r.users[j].username == "c"
    ensures var spec := Spec(clusterRef, map["a" := q, "a/user/b" := r], None, None);
      && HasRef(spec, UserEntry("a", i)) && HasRef(spec, UserEntry("a/user/b", j))
      && KeyOf(spec, UserEntry("a", i)) == KeyOf(spec, UserEntry("a/user/b", j))
  {
    assert "a" + "/" + "user" + "/" + "b/user/c" == "a/user/b" + "/" + "user" + "/" + "c";
  }

  // ------------------------------------------------------- what the entries receive

  /** The password the configuration carries at an entry. */
  function EntryPassword(spec: Spec, cfg: DoormanConfig, e: Entry): string
    requires HasRef(spec, e)
  {
    match e
    case AuthEntry(p) =>
      if p in cfg.pools && cfg.pools[p].authQuery.Some? then cfg.pools[p].authQuery.value.password else ""
    case UserEntry(p, i) => if p in cfg.pools && i < |cfg.pools[p].users| then cfg.pools[p].users[i].password else ""
    case AdminEntry => cfg.general.adminPassword
  }

  lemma EntriesReadTheirKey(spec: Spec, poolerPort: int, metricsPort: int,
                            passwords: map<string, string>, tls: Option<TLSFiles>, e: Entry)
    requires HasRef(spec, e)
    ensures EntryPassword(spec, GeneratedConfig(spec, poolerPort, metricsPort, passwords, tls), e)
      == Lookup(passwords, KeyOf(spec, e))
  {
    if e.UserEntry? {
      var applied := Defaulted(spec);
      assert applied.pools[e.pool].users[e.index].username == spec.pools[e.pool].users[e.index].username;
    }
  }

  // --------------------------------------------------- admission implies validity

  predicate AdmittedDuration(value: string) { value == "" || Duration.MatchesPattern(value) }

  predicate AdmittedUser(user: UserSpec) { user.username != "" && Positive(user.poolSize) }

  /** The schema markers of a pool. */
  predicate AdmittedPool(pool: PoolSpec) {
    && (pool.poolMode == "" || pool.poolMode == "session" || pool.poolMode == "transaction")
    && Positive(pool.defaultPoolSize)
    && (pool.users != [] || pool.authQuery.Some?)
    && (pool.authQuery.Some? ==> pool.authQuery.value.user != "" && Positive(pool.authQuery.value.poolSize))
    && forall i | 0 <= i < |pool.users| :: AdmittedUser(pool.users[i])
  }

  predicate AdmittedGeneral(g: GeneralSpec) {
    && Positive(g.maxConnections) && Positive(g.workerThreads)
    && AdmittedDuration(g.connectTimeout) && AdmittedDuration(g.idleTimeout)
    && AdmittedDuration(g.serverLifetime) && AdmittedDuration(g.shutdownTimeout)
  }

  /** The schema markers of a spec. */
  ghost predicate Admitted(spec: Spec) {
    && spec.pools != map[]
    && (spec.general.Some? ==> AdmittedGeneral(spec.general.value))
    && forall p | p in spec.pools :: AdmittedPool(spec.pools[p])
  }

  /** Every static user has a non-empty password. */
  ghost predicate StaticPasswordsSet(spec: Spec, passwords: map<string, string>) {
    forall p, i: nat | p in spec.pools && i < |spec.pools[p].users| ::
      Lookup(passwords, KeyOf(spec, UserEntry(p, i))) != ""
  }

  lemma AdmittedDurationIsValid(value: string, fallback: string)
    requires AdmittedDuration(value) && Duration.MatchesPattern(fallback)
    ensures Duration.ValidDuration(OrText(value, fallback))
  {
    Duration.PatternIsTrimmed(OrText(value, fallback));
  }

  lemma DefaultDurationsMatch()
    ensures Duration.MatchesPattern(DEFAULT_CONNECT_TIMEOUT) && Duration.MatchesPattern(DEFAULT_IDLE_TIMEOUT)
    ensures Duration.MatchesPattern(DEFAULT_SERVER_LIFETIME) && Duration.MatchesPattern(DEFAULT_SHUTDOWN_TIMEOUT)
  {
    Duration.DigitPrefixIs("3s", 1);
    Duration.DigitPrefixIs("5m", 1);
    Duration.DigitPrefixIs("10s", 2);
    assert "3s"[1..] == "s" && "5m"[1..] == "m" && "10s"[2..] == "s";
  }

  lemma AdmittedGeneralIsValid(general: Option<GeneralSpec>, poolerPort: int, admin: string, tls: Option<TLSFiles>)
    requires general.Some? ==> AdmittedGeneral(general.value)
    ensures ValidGeneral(GeneratedGeneral(DefaultedGeneral(general), poolerPort, admin, tls))
  {
    var g := if general.None? then GeneralSpec(None, None, "", "", "", "", "", None) else general.value;
    DefaultDurationsMatch();
    AdmittedDurationIsValid(g.connectTimeout, DEFAULT_CONNECT_TIMEOUT);
    AdmittedDurationIsValid(g.idleTimeout, DEFAULT_IDLE_TIMEOUT);
    AdmittedDurationIsValid(g.serverLifetime, DEFAULT_SERVER_LIFETIME);
    AdmittedDurationIsValid(g.shutdownTimeout, DEFAULT_SHUTDOWN_TIMEOUT);
  }

  lemma AdmittedPoolIsValid(name: string, pool: PoolSpec, passwords: map<string, string>)
    requires AdmittedPool(pool)
    ensures ValidPool(GeneratedPool(name, DefaultedPool(pool), passwords)) <==>
      forall i | 0 <= i < |pool.users| :: Lookup(passwords, PasswordKey(name, "user", pool.users[i].username)) != ""
  {
    var pc, applied := GeneratedPool(name, DefaultedPool(pool), passwords), DefaultedPool(pool);
    forall i | 0 <= i < |pool.users|
      ensures ValidUser(pc.users[i]) <==> Lookup(passwords, PasswordKey(name, "user", pool.users[i].username)) != ""
    {
      assert applied.users[i] == DefaultedUser(pool.users[i]);
      assert pc.users[i] == GeneratedUser(name, applied.users[i], passwords);
    }
  }

  lemma AdmittedPoolsAreValid(spec: Spec, passwords: map<string, string>)
    requires forall p | p in spec.pools :: AdmittedPool(spec.pools[p])
    ensures (forall p | p in spec.pools :: ValidPool(GeneratedPool(p, DefaultedPool(spec.pools[p]), passwords)))
      <==> StaticPasswordsSet(spec, passwords)
  {
    forall p | p in spec.pools
      ensures ValidPool(GeneratedPool(p, DefaultedPool(spec.pools[p]), passwords)) <==>
        forall i: nat | i < |spec.pools[p].users| :: Lookup(passwords, KeyOf(spec, UserEntry(p, i))) != ""
    {
      AdmittedPoolIsValid(p, spec.pools[p], passwords);
      assert forall i: nat | i < |spec.pools[p].users| ::
        KeyOf(spec, UserEntry(p, i)) == PasswordKey(p, "user", spec.pools[p].users[i].username);
    }
  }

  lemma GeneratedPoolsAreValid(spec: Spec, passwords: map<string, string>)
    requires spec.pools != map[] && forall p | p in spec.pools :: AdmittedPool(spec.pools[p])
    ensures var pools := GeneratedPools(DefaultedPools(spec.pools), passwords);
      && pools != map[]
      && ((forall p | p in pools :: ValidPool(pools[p])) <==> StaticPasswordsSet(spec, passwords))
  {
    AdmittedPoolsAreValid(spec, passwords);
    var pools := GeneratedPools(DefaultedPools(spec.pools), passwords);
    var p :| p in spec.pools;
    assert p in pools;
    assert forall p | p in pools :: pools[p] == GeneratedPool(p, DefaultedPool(spec.pools[p]), passwords);
  }

  /** The configuration of an admitted spec passes the validator exactly when every static
      user has a non-empty password. */
  lemma AdmissionImpliesRendering(spec: Spec, poolerPort: int, metricsPort: int,
                                  passwords: map<string, string>, tls: Option<TLSFiles>)
    requires Admitted(spec)
    ensures ValidConfig(GeneratedConfig(spec, poolerPort, metricsPort, passwords, tls))
      <==> StaticPasswordsSet(spec, passwords)
  {
    AdmittedGeneralIsValid(spec.general, poolerPort, Lookup(passwords, ADMIN_PASSWORD_KEY), tls);
    GeneratedPoolsAreValid(spec, passwords);
  }

  /** Defaulting the auth references keeps a spec admitted, and its static users. */
  lemma AuthDefaultsKeepAdmission(spec: Spec)
    requires Admitted(spec)
    ensures !Mixed(spec)
    ensures Admitted(spec.(pools := FilledPools(spec, spec.pools.Keys)))
  {
    var done := spec.(pools := FilledPools(spec, spec.pools.Keys));
    forall p | p in done.pools ensures AdmittedPool(done.pools[p]) {
      assert AdmittedPool(spec.pools[p]);
    }
    if p :| p in spec.pools { assert p in done.pools; }
  }

  /** From the admitted spec to the validator, through both defaulting steps: the auth
      references default under every map order or under none, and then the configuration is
      valid exactly when every static user has a non-empty password. */
  lemma AdmittedSpecRenders(spec: Spec, order: seq<string>, poolerPort: int, metricsPort: int,
                            passwords: map<string, string>, tls: Option<TLSFiles>)
    requires Admitted(spec) && Enumerates(order, spec.pools.Keys)
    ensures VisitPools(spec, order).Ok? <==> Agree(spec)
    ensures Agree(spec) ==>
      var cfg := GeneratedConfig(VisitPools(spec, order).value.spec, poolerPort, metricsPort, passwords, tls);
      ValidConfig(cfg) <==> StaticPasswordsSet(spec, passwords)
  {
    AuthDefaultsKeepAdmission(spec);
    OrderIrrelevant(spec, order);
    var normalized := spec.(pools := FilledPools(spec, spec.pools.Keys));
    AdmissionImpliesRendering(normalized, poolerPort, metricsPort, passwords, tls);
    SameStaticUsers(spec, passwords);
  }

  lemma SameStaticUsers(spec: Spec, passwords: map<string, string>)
    ensures StaticPasswordsSet(spec.(pools := FilledPools(spec, spec.pools.Keys)), passwords)
      <==> StaticPasswordsSet(spec, passwords)
  {
    var done := spec.(pools := FilledPools(spec, spec.pools.Keys));
    assert forall p | p in spec.pools :: done.pools[p].users == spec.pools[p].users;
    assert forall p, i: nat | p in spec.pools && i < |spec.pools[p].users| ::
      KeyOf(done, UserEntry(p, i)) == KeyOf(spec, UserEntry(p, i));
  }
}
