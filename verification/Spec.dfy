/** The PgDoorman spec and its defaults. */
module Spec {
  import opened Wrappers

  datatype SecretRef = SecretRef(name: string, key: string)

  datatype AuthQuerySpec = AuthQuerySpec(
    user: string, query: string, passwordRef: Option<SecretRef>, database: string, poolSize: Option<int>)

  datatype UserSpec = UserSpec(username: string, passwordRef: SecretRef, poolSize: Option<int>)

  datatype PoolSpec = PoolSpec(
    poolMode: string, defaultPoolSize: Option<int>, authQuery: Option<AuthQuerySpec>, users: seq<UserSpec>)

  datatype GeneralSpec = GeneralSpec(
    maxConnections: Option<int>, workerThreads: Option<int>,
    connectTimeout: string, idleTimeout: string, serverLifetime: string, shutdownTimeout: string,
    adminUsername: string, adminPasswordRef: Option<SecretRef>)

  datatype PrometheusSpec = PrometheusSpec(enabled: Option<bool>)

  datatype Spec = Spec(
    clusterRef: string, pools: map<string, PoolSpec>,
    general: Option<GeneralSpec>, prometheus: Option<PrometheusSpec>)

  const DEFAULT_POOL_MODE := "transaction"
  const DEFAULT_DEFAULT_POOL_SIZE := 40
  const DEFAULT_USER_POOL_SIZE := 20
  const DEFAULT_AUTH_QUERY_QUERY := "SELECT * FROM public.doorman_auth_query($1)"
  const DEFAULT_AUTH_QUERY_DATABASE := "postgres"
  const DEFAULT_AUTH_QUERY_POOL_SIZE := 2
  const DEFAULT_MAX_CONNECTIONS := 8192
  const DEFAULT_WORKER_THREADS := 4
  const DEFAULT_CONNECT_TIMEOUT := "3s"
  const DEFAULT_IDLE_TIMEOUT := "5m"
  const DEFAULT_SERVER_LIFETIME := "5m"
  const DEFAULT_SHUTDOWN_TIMEOUT := "10s"
  const DEFAULT_ADMIN_USERNAME := "admin"

  function OrText(s: string, fallback: string): string { if s == "" then fallback else s }

  function OrInt(n: Option<int>, fallback: int): Option<int> { if n.None? then Some(fallback) else n }

  function DefaultedGeneral(general: Option<GeneralSpec>): GeneralSpec {
    var g := if general.None? then GeneralSpec(None, None, "", "", "", "", "", None) else general.value;
    GeneralSpec(
      OrInt(g.maxConnections, DEFAULT_MAX_CONNECTIONS), OrInt(g.workerThreads, DEFAULT_WORKER_THREADS),
      OrText(g.connectTimeout, DEFAULT_CONNECT_TIMEOUT), OrText(g.idleTimeout, DEFAULT_IDLE_TIMEOUT),
      OrText(g.serverLifetime, DEFAULT_SERVER_LIFETIME), OrText(g.shutdownTimeout, DEFAULT_SHUTDOWN_TIMEOUT),
      OrText(g.adminUsername, DEFAULT_ADMIN_USERNAME), g.adminPasswordRef)
  }

  function DefaultedPrometheus(prometheus: Option<PrometheusSpec>): PrometheusSpec {
    if prometheus.None? || prometheus.value.enabled.None? then PrometheusSpec(Some(true)) else prometheus.value
  }

  function DefaultedAuthQuery(aq: AuthQuerySpec): AuthQuerySpec {
    aq.(query := OrText(aq.query, DEFAULT_AUTH_QUERY_QUERY),
        database := OrText(aq.database, DEFAULT_AUTH_QUERY_DATABASE),
        poolSize := OrInt(aq.poolSize, DEFAULT_AUTH_QUERY_POOL_SIZE))
  }

  function DefaultedUser(u: UserSpec): UserSpec { u.(poolSize := OrInt(u.poolSize, DEFAULT_USER_POOL_SIZE)) }

  function DefaultedUsers(users: seq<UserSpec>): (r: seq<UserSpec>)
    ensures |r| == |users| && forall i | 0 <= i < |users| :: r[i] == DefaultedUser(users[i])
  {
    seq(|users|, i requires 0 <= i < |users| => DefaultedUser(users[i]))
  }

  function DefaultedPool(pool: PoolSpec): PoolSpec {
    PoolSpec(OrText(pool.poolMode, DEFAULT_POOL_MODE),
             OrInt(pool.defaultPoolSize, DEFAULT_DEFAULT_POOL_SIZE),
             if pool.authQuery.None? then None else Some(DefaultedAuthQuery(pool.authQuery.value)),
             DefaultedUsers(pool.users))
  }

  function DefaultedPools(pools: map<string, PoolSpec>): map<string, PoolSpec> {
    map name | name in pools :: DefaultedPool(pools[name])
  }

  function Defaulted(spec: Spec): Spec {
    Spec(spec.clusterRef, DefaultedPools(spec.pools),
         Some(DefaultedGeneral(spec.general)), Some(DefaultedPrometheus(spec.prometheus)))
  }

  // ------------------------------------------------------- what defaulting has to do

  /** A text that is set stays, an empty one becomes the fallback. */
  ghost predicate Fills(before: string, after: string, fallback: string) {
    (before != "" ==> after == before) && (before == "" ==> after == fallback)
  }

  ghost predicate FillsValue<T>(before: Option<T>, after: Option<T>, fallback: T) {
    (before.Some? ==> after == before) && (before.None? ==> after == Some(fallback))
  }

  ghost predicate FillsGeneral(before: Option<GeneralSpec>, after: GeneralSpec) {
    var g := if before.Some? then before.value else GeneralSpec(None, None, "", "", "", "", "", None);
    && FillsValue(g.maxConnections, after.maxConnections, 8192) && FillsValue(g.workerThreads, after.workerThreads, 4)
    && Fills(g.connectTimeout, after.connectTimeout, "3s") && Fills(g.idleTimeout, after.idleTimeout, "5m")
    && Fills(g.serverLifetime, after.serverLifetime, "5m") && Fills(g.shutdownTimeout, after.shutdownTimeout, "10s")
    && Fills(g.adminUsername, after.adminUsername, "admin") && after.adminPasswordRef == g.adminPasswordRef
  }

  ghost predicate FillsAuthQuery(before: AuthQuerySpec, after: AuthQuerySpec) {
    && after.user == before.user && after.passwordRef == before.passwordRef
    && Fills(before.query, after.query, "SELECT * FROM public.doorman_auth_query($1)")
    && Fills(before.database, after.database, "postgres") && FillsValue(before.poolSize, after.poolSize, 2)
  }

  ghost predicate FillsUser(before: UserSpec, after: UserSpec) {
    && after.username == before.username && after.passwordRef == before.passwordRef
    && FillsValue(before.poolSize, after.poolSize, 20)
  }

  ghost predicate FillsPool(before: PoolSpec, after: PoolSpec) {
    && Fills(before.poolMode, after.poolMode, "transaction")
    && FillsValue(before.defaultPoolSize, after.defaultPoolSize, 40)
    && (before.authQuery.None? <==> after.authQuery.None?)
    && (before.authQuery.Some? ==> FillsAuthQuery(before.authQuery.value, after.authQuery.value))
    && |after.users| == |before.users|
    && forall i | 0 <= i < |before.users| :: FillsUser(before.users[i], after.users[i])
  }

  /** Every field is set after defaulting: one that was set keeps its value, an unset one has its
      documented default; names and references are untouched. */
  lemma DefaultsFillOnlyGaps(spec: Spec)
    ensures var d := Defaulted(spec);
      && d.clusterRef == spec.clusterRef && d.pools.Keys == spec.pools.Keys
      && d.general.Some? && FillsGeneral(spec.general, d.general.value)
      && d.prometheus.Some?
      && FillsValue(if spec.prometheus.Some? then spec.prometheus.value.enabled else None, d.prometheus.value.enabled, true)
      && forall name | name in spec.pools :: FillsPool(spec.pools[name], d.pools[name])
  {
    forall name | name in spec.pools ensures FillsPool(spec.pools[name], DefaultedPool(spec.pools[name])) {
      var before, after := spec.pools[name], DefaultedPool(spec.pools[name]);
      forall i | 0 <= i < |before.users| ensures FillsUser(before.users[i], after.users[i]) {
        assert after.users[i] == DefaultedUser(before.users[i]);
      }
    }
  }

  lemma PoolDefaultsTwice(pool: PoolSpec)
    ensures DefaultedPool(DefaultedPool(pool)) == DefaultedPool(pool)
  {
    assert DefaultedUsers(DefaultedUsers(pool.users)) == DefaultedUsers(pool.users);
  }

  /** Defaulting again changes nothing. */
  lemma DefaultsAreIdempotent(spec: Spec)
    ensures Defaulted(Defaulted(spec)) == Defaulted(spec)
  {
    var d := Defaulted(spec);
    forall name | name in spec.pools ensures DefaultedPool(d.pools[name]) == d.pools[name] {
      PoolDefaultsTwice(spec.pools[name]);
    }
    assert Defaulted(d).pools == d.pools;
  }

  /** The spec object the source fills in place. */
  class PgDoormanSpec {
    var clusterRef: string
    var pools: map<string, PoolSpec>
    var general: Option<GeneralSpec>
    var prometheus: Option<PrometheusSpec>

    constructor DeepCopy(spec: Spec)
      ensures View() == spec
    {
      clusterRef, pools, general, prometheus := spec.clusterRef, spec.pools, spec.general, spec.prometheus;
    }

    function View(): Spec
      reads this
    {
      Spec(clusterRef, pools, general, prometheus)
    }

    /** Fills unset fields, going over the pools in any order. */
    method ApplyDefaults()
      modifies this
      ensures View() == Defaulted(old(View()))
    {
      var g := ApplyGeneralDefaults(general);
      general := Some(g);
      if prometheus.None? { prometheus := Some(PrometheusSpec(None)); }
      if prometheus.value.enabled.None? { prometheus := Some(PrometheusSpec(Some(true))); }
      FillPools();
    }

    method FillPools()
      modifies `pools
      ensures pools == DefaultedPools(old(pools))
    {
      ghost var before := pools;
      var left := pools.Keys;
      while left != {}
        invariant left <= before.Keys == pools.Keys
        invariant forall n | n in before && n in left :: pools[n] == before[n]
        invariant forall n | n in before && n !in left :: pools[n] == DefaultedPool(before[n])
        decreases |left|
      {
        var name :| name in left;
        left := left - {name};
        var pool := ApplyPoolDefaults(pools[name]);
        pools := pools[name := pool];
      }
    }
  }

  method ApplyGeneralDefaults(before: Option<GeneralSpec>) returns (g: GeneralSpec)
    ensures g == DefaultedGeneral(before)
  {
    g := if before.None? then GeneralSpec(None, None, "", "", "", "", "", None) else before.value;
    if g.maxConnections.None? { g := g.(maxConnections := Some(DEFAULT_MAX_CONNECTIONS)); }
    if g.workerThreads.None? { g := g.(workerThreads := Some(DEFAULT_WORKER_THREADS)); }
    if g.connectTimeout == "" { g := g.(connectTimeout := DEFAULT_CONNECT_TIMEOUT); }
    if g.idleTimeout == "" { g := g.(idleTimeout := DEFAULT_IDLE_TIMEOUT); }
    if g.serverLifetime == "" { g := g.(serverLifetime := DEFAULT_SERVER_LIFETIME); }
    if g.shutdownTimeout == "" { g := g.(shutdownTimeout := DEFAULT_SHUTDOWN_TIMEOUT); }
    if g.adminUsername == "" { g := g.(adminUsername := DEFAULT_ADMIN_USERNAME); }
  }

  method ApplyPoolDefaults(before: PoolSpec) returns (pool: PoolSpec)
    ensures pool == DefaultedPool(before)
  {
    pool := before;
    if pool.poolMode == "" { pool := pool.(poolMode := DEFAULT_POOL_MODE); }
    if pool.defaultPoolSize.None? { pool := pool.(defaultPoolSize := Some(DEFAULT_DEFAULT_POOL_SIZE)); }
    if pool.authQuery.Some? {
      var aq := pool.authQuery.value;
      if aq.query == "" { aq := aq.(query := DEFAULT_AUTH_QUERY_QUERY); }
      if aq.database == "" { aq := aq.(database := DEFAULT_AUTH_QUERY_DATABASE); }
      if aq.poolSize.None? { aq := aq.(poolSize := Some(DEFAULT_AUTH_QUERY_POOL_SIZE)); }
      pool := pool.(authQuery := Some(aq));
    }
    var users := pool.users;
    for i := 0 to |users|
      invariant |users| == |before.users|
      invariant forall k | 0 <= k < |users| ::
        users[k] == if k < i then DefaultedUser(before.users[k]) else before.users[k]
    {
      if users[i].poolSize.None? { users := users[i := users[i].(poolSize := Some(DEFAULT_USER_POOL_SIZE))]; }
    }
    assert users == DefaultedUsers(before.users);
    pool := pool.(users := users);
  }
}
