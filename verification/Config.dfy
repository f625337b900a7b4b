/** The pg_doorman configuration, its structural validation, and the fields a running
    pooler cannot reload. */
module Config {
  import opened Wrappers
  import opened Duration

  datatype GeneralConfig = GeneralConfig(
    host: string, port: int, tlsCertificate: string, tlsPrivateKey: string,
    adminUsername: string, adminPassword: string,
    workerThreads: Option<int>, maxConnections: Option<int>,
    connectTimeout: string, idleTimeout: string, serverLifetime: string, shutdownTimeout: string)

  datatype UserConfig = UserConfig(username: string, password: string, poolSize: Option<int>)

  datatype AuthQueryConfig = AuthQueryConfig(
    query: string, user: string, password: string, database: string,
    workers: Option<int>, poolSize: Option<int>,
    cacheTtl: string, cacheFailureTtl: string, minInterval: string)

  datatype PoolConfig = PoolConfig(
    serverHost: string, serverPort: int, poolMode: string,
    users: seq<UserConfig>, authQuery: Option<AuthQueryConfig>)

  datatype PrometheusConfig = PrometheusConfig(enabled: bool, host: string, port: int)

  datatype DoormanConfig = DoormanConfig(
    general: GeneralConfig, pools: map<string, PoolConfig>, prometheus: Option<PrometheusConfig>)

  predicate Positive(value: Option<int>) { value.Some? ==> value.value >= 1 }

  predicate ValidGeneral(g: GeneralConfig) {
    && Positive(g.workerThreads) && Positive(g.maxConnections)
    && ValidDuration(g.connectTimeout) && ValidDuration(g.idleTimeout)
    && ValidDuration(g.serverLifetime) && ValidDuration(g.shutdownTimeout)
  }

  predicate ValidAuthQuery(aq: AuthQueryConfig) {
    && aq.query != "" && aq.user != ""
    && Positive(aq.workers) && Positive(aq.poolSize)
    && ValidDuration(aq.cacheTtl) && ValidDuration(aq.cacheFailureTtl) && ValidDuration(aq.minInterval)
  }

  predicate ValidUser(u: UserConfig) {
    u.username != "" && u.password != "" && Positive(u.poolSize)
  }

  predicate ValidPool(pool: PoolConfig) {
    && (pool.poolMode == "" || pool.poolMode == "session" || pool.poolMode == "transaction")
    && (pool.users != [] || pool.authQuery.Some?)
    && (pool.authQuery.Some? ==> ValidAuthQuery(pool.authQuery.value))
    && forall i | 0 <= i < |pool.users| :: ValidUser(pool.users[i])
  }

  predicate ValidConfig(cfg: DoormanConfig) {
    && cfg.pools != map[]
    && ValidGeneral(cfg.general)
    && forall name | name in cfg.pools :: ValidPool(cfg.pools[name])
  }

  /** The validator on bytes, over any decoder of the file format. */
  function ValidateConfigBytes(decode: string -> Option<DoormanConfig>, data: string): (r: Option<DoormanConfig>)
    ensures r.Some? <==> decode(data).Some? && ValidConfig(decode(data).value)
    ensures r.Some? ==> r == decode(data)
  {
    var cfg := decode(data);
    if cfg.None? || !ValidConfig(cfg.value) then None else cfg
  }

  /** Wherever a size stands in the configuration. */
  ghost predicate HasSize(cfg: DoormanConfig, n: int) {
    || cfg.general.workerThreads == Some(n) || cfg.general.maxConnections == Some(n)
    || (exists p, i :: p in cfg.pools && 0 <= i < |cfg.pools[p].users| && cfg.pools[p].users[i].poolSize == Some(n))
    || (exists p :: p in cfg.pools && cfg.pools[p].authQuery.Some?
          && (cfg.pools[p].authQuery.value.workers == Some(n) || cfg.pools[p].authQuery.value.poolSize == Some(n)))
  }

  /** Wherever a duration stands. */
  ghost predicate HasDuration(cfg: DoormanConfig, text: string) {
    || text == cfg.general.connectTimeout || text == cfg.general.idleTimeout
    || text == cfg.general.serverLifetime || text == cfg.general.shutdownTimeout
    || (exists p :: p in cfg.pools && cfg.pools[p].authQuery.Some?
          && (var aq := cfg.pools[p].authQuery.value;
              text == aq.cacheTtl || text == aq.cacheFailureTtl || text == aq.minInterval))
  }

  /** The pool has a known mode, somebody to log in, and no login that lacks a part. */
  ghost predicate LogsIn(pool: PoolConfig) {
    && (pool.poolMode != "" && pool.poolMode != "session" ==> pool.poolMode == "transaction")
    && (pool.users == [] ==> pool.authQuery.Some?)
    && (pool.authQuery.Some? ==> pool.authQuery.value.query != "" && pool.authQuery.value.user != "")
    && forall i | 0 <= i < |pool.users| :: pool.users[i].username != "" && pool.users[i].password != ""
  }

  /** Main result: a configuration is accepted exactly when it has a pool, every size in it is at
      least one, every duration in it is empty or written as digits with a unit, and every pool
      lets somebody log in. */
  lemma AcceptedConfigsExactly(cfg: DoormanConfig)
    ensures ValidConfig(cfg) <==>
      && cfg.pools != map[]
      && (forall n | HasSize(cfg, n) :: 1 <= n)
      && (forall text | HasDuration(cfg, text) :: text == "" || exists k, n, m :: WrittenAs(text, k, n, m))
      && forall p | p in cfg.pools :: LogsIn(cfg.pools[p])
  {
    forall text: string ensures ValidDuration(text) <==> text == "" || exists k, n, m :: WrittenAs(text, k, n, m) {
      AcceptedExactly(text);
    }
    SizesExactly(cfg);
    DurationsExactly(cfg);
    PoolsExactly(cfg);
  }

  lemma SizesExactly(cfg: DoormanConfig)
    ensures (forall n | HasSize(cfg, n) :: 1 <= n) <==>
      && Positive(cfg.general.workerThreads) && Positive(cfg.general.maxConnections)
      && (forall p | p in cfg.pools :: PoolSizes(cfg.pools[p]))
  {
    if forall n | HasSize(cfg, n) :: 1 <= n {
      if cfg.general.workerThreads.Some? { assert HasSize(cfg, cfg.general.workerThreads.value); }
      if cfg.general.maxConnections.Some? { assert HasSize(cfg, cfg.general.maxConnections.value); }
      forall p | p in cfg.pools ensures PoolSizes(cfg.pools[p]) {
        var pool := cfg.pools[p];
        forall i | 0 <= i < |pool.users| ensures Positive(pool.users[i].poolSize) {
          if pool.users[i].poolSize.Some? { assert HasSize(cfg, pool.users[i].poolSize.value); }
        }
        if pool.authQuery.Some? {
          var aq := pool.authQuery.value;
          if aq.workers.Some? { assert HasSize(cfg, aq.workers.value); }
          if aq.poolSize.Some? { assert HasSize(cfg, aq.poolSize.value); }
        }
      }
    }
  }

  predicate PoolSizes(pool: PoolConfig) {
    && (forall i | 0 <= i < |pool.users| :: Positive(pool.users[i].poolSize))
    && (pool.authQuery.Some? ==> Positive(pool.authQuery.value.workers) && Positive(pool.authQuery.value.poolSize))
  }

  predicate PoolDurations(pool: PoolConfig) {
    pool.authQuery.Some? ==>
      var aq := pool.authQuery.value;
      ValidDuration(aq.cacheTtl) && ValidDuration(aq.cacheFailureTtl) && ValidDuration(aq.minInterval)
  }

  lemma DurationsExactly(cfg: DoormanConfig)
    ensures (forall text | HasDuration(cfg, text) :: ValidDuration(text)) <==>
      && ValidDuration(cfg.general.connectTimeout) && ValidDuration(cfg.general.idleTimeout)
      && ValidDuration(cfg.general.serverLifetime) && ValidDuration(cfg.general.shutdownTimeout)
      && (forall p | p in cfg.pools :: PoolDurations(cfg.pools[p]))
  {
    if forall text | HasDuration(cfg, text) :: ValidDuration(text) {
      forall p | p in cfg.pools ensures PoolDurations(cfg.pools[p]) {
        if cfg.pools[p].authQuery.Some? {
          var aq := cfg.pools[p].authQuery.value;
          assert HasDuration(cfg, aq.cacheTtl) && HasDuration(cfg, aq.cacheFailureTtl) && HasDuration(cfg, aq.minInterval);
        }
      }
    }
  }

  lemma PoolsExactly(cfg: DoormanConfig)
    ensures (forall p | p in cfg.pools :: ValidPool(cfg.pools[p])) <==>
      forall p | p in cfg.pools :: PoolSizes(cfg.pools[p]) && PoolDurations(cfg.pools[p]) && LogsIn(cfg.pools[p])
  {
    forall p | p in cfg.pools
      ensures ValidPool(cfg.pools[p]) <==> PoolSizes(cfg.pools[p]) && PoolDurations(cfg.pools[p]) && LogsIn(cfg.pools[p])
    {
      PoolExactly(cfg.pools[p]);
    }
  }

  lemma PoolExactly(pool: PoolConfig)
    ensures ValidPool(pool) <==> PoolSizes(pool) && PoolDurations(pool) && LogsIn(pool)
  {
    assert forall i | 0 <= i < |pool.users| :: ValidUser(pool.users[i]) <==>
      pool.users[i].username != "" && pool.users[i].password != "" && Positive(pool.users[i].poolSize);
  }

  /** Somebody can log in through the pool: a static user with a password, or an auth query
      that has a user and a statement. */
  ghost predicate Usable(pool: PoolConfig) {
    || (exists i :: 0 <= i < |pool.users| && pool.users[i].username != "" && pool.users[i].password != "")
    || (pool.authQuery.Some? && pool.authQuery.value.user != "" && pool.authQuery.value.query != "")
  }

  /** What an accepted configuration offers: a pool, every pool usable, no user without a
      password, and no size below one; and dropping any one pool of several keeps it accepted. */
  lemma AcceptedConfigServes(decode: string -> Option<DoormanConfig>, data: string)
    requires ValidateConfigBytes(decode, data).Some?
    ensures var cfg := ValidateConfigBytes(decode, data).value;
      && (exists name :: name in cfg.pools)
      && (forall name | name in cfg.pools :: Usable(cfg.pools[name]))
      && (forall name, i | name in cfg.pools && 0 <= i < |cfg.pools[name].users| ::
            cfg.pools[name].users[i].password != "" && cfg.pools[name].users[i].poolSize != Some(0))
      && forall name | name in cfg.pools && cfg.pools - {name} != map[] ::
           ValidConfig(cfg.(pools := cfg.pools - {name}))
  {
    var cfg := ValidateConfigBytes(decode, data).value;
    var some :| some in cfg.pools.Keys;
    assert some in cfg.pools;
    forall name | name in cfg.pools ensures Usable(cfg.pools[name]) {
      assert ValidPool(cfg.pools[name]);
      if cfg.pools[name].authQuery.None? { assert ValidUser(cfg.pools[name].users[0]); }
    }
    forall name, i | name in cfg.pools && 0 <= i < |cfg.pools[name].users|
      ensures cfg.pools[name].users[i].password != "" && cfg.pools[name].users[i].poolSize != Some(0)
    {
      assert ValidUser(cfg.pools[name].users[i]);
    }
  }

  // --------------------------------------------------- fields fixed at process start

  predicate IntPtrEqual(a: Option<int>, b: Option<int>) {
    if a.None? || b.None? then a.None? && b.None? else a.value == b.value
  }

  predicate NeedsProcessRestart(before: DoormanConfig, after: DoormanConfig) {
    || !IntPtrEqual(before.general.workerThreads, after.general.workerThreads)
    || !IntPtrEqual(before.general.maxConnections, after.general.maxConnections)
    || before.general.host != after.general.host
    || before.general.port != after.general.port
  }

  datatype FixedFields = FixedFields(workerThreads: Option<int>, maxConnections: Option<int>, host: string, port: int)

  function FixedOf(cfg: DoormanConfig): FixedFields {
    FixedFields(cfg.general.workerThreads, cfg.general.maxConnections, cfg.general.host, cfg.general.port)
  }

  /** A restart is needed exactly when one of the four fixed fields changes; so "no restart
      needed" is an equivalence, and changes that need none can be chained. */
  lemma RestartExactlyOnFixedFields(before: DoormanConfig, after: DoormanConfig)
    ensures NeedsProcessRestart(before, after) <==> FixedOf(before) != FixedOf(after)
  {
    assert IntPtrEqual(before.general.workerThreads, after.general.workerThreads)
      <==> before.general.workerThreads == after.general.workerThreads;
    assert IntPtrEqual(before.general.maxConnections, after.general.maxConnections)
      <==> before.general.maxConnections == after.general.maxConnections;
  }
}
