/** Auth queries without a password reference fall back to one generated secret; the
    secrets a spec refers to. */
module AuthSecrets {
  import opened Wrappers
  import opened Spec

  function GeneratedAuthSecretName(clusterName: string): string { clusterName + "-doorman-auth" }

  /** An auth query without an explicit password reference. */
  predicate RefLess(pool: PoolSpec) { pool.authQuery.Some? && pool.authQuery.value.passwordRef.None? }

  function WithGeneratedRef(pool: PoolSpec, clusterRef: string): PoolSpec
    requires RefLess(pool)
  {
    pool.(authQuery := Some(pool.authQuery.value.(
      passwordRef := Some(SecretRef(GeneratedAuthSecretName(clusterRef), "password")))))
  }

  datatype Normalized = Normalized(spec: Spec, user: string)

  /** One turn of the source's loop over the pools. */
  function VisitPool(n: Normalized, name: string): Result<Normalized>
    requires name in n.spec.pools
  {
    var pool := n.spec.pools[name];
    if !RefLess(pool) then Ok(n)
    else if n.user != "" && pool.authQuery.value.user != n.user then Err
    else Ok(Normalized(n.spec.(pools := n.spec.pools[name := WithGeneratedRef(pool, n.spec.clusterRef)]),
                       pool.authQuery.value.user))
  }

  /** The loop over the pools in a given order, stopping at the first disagreement. */
  function VisitPools(spec: Spec, order: seq<string>): (r: Result<Normalized>)
    requires forall name | name in order :: name in spec.pools
    ensures r.Ok? ==> r.value.spec.pools.Keys == spec.pools.Keys
  {
    if order == [] then Ok(Normalized(spec, ""))
    else
      var before := VisitPools(spec, order[..|order| - 1]);
      assert order[|order| - 1] in order;
      if before.Err? then Err else VisitPool(before.value, order[|order| - 1])
  }

  function Visited(order: seq<string>): set<string> { set name | name in order }

  ghost predicate Distinct(order: seq<string>) { forall i, j | 0 <= i < j < |order| :: order[i] != order[j] }

  ghost predicate Enumerates(order: seq<string>, names: set<string>) {
    Distinct(order) && forall name :: name in order <==> name in names
  }

  predicate IsRefLess(spec: Spec, name: string) { name in spec.pools && RefLess(spec.pools[name]) }

  function UserOf(spec: Spec, name: string): string
    requires IsRefLess(spec, name)
  {
    spec.pools[name].authQuery.value.user
  }

  /** A later ref-less pool may only differ from an earlier one whose user is empty. */
  ghost predicate Compatible(spec: Spec, order: seq<string>) {
    forall i, j | 0 <= i < j < |order| && IsRefLess(spec, order[i]) && IsRefLess(spec, order[j]) ::
      UserOf(spec, order[i]) == "" || UserOf(spec, order[i]) == UserOf(spec, order[j])
  }

  /** The pools with the reference filled in for those in `done`. */
  function FilledPools(spec: Spec, done: set<string>): map<string, PoolSpec> {
    map name | name in spec.pools ::
      if name in done && RefLess(spec.pools[name]) then WithGeneratedRef(spec.pools[name], spec.clusterRef)
      else spec.pools[name]
  }

  /** The user the loop carries: that of the last ref-less pool. */
  function LastUser(spec: Spec, order: seq<string>): string {
    if order == [] then ""
    else
      var name := order[|order| - 1];
      if IsRefLess(spec, name) then UserOf(spec, name) else LastUser(spec, order[..|order| - 1])
  }

  // --------------------------------------------------------- what the loop computes

  /** In an admissible order the users are first empty, then all the same. */
  lemma {:induction false} EarlierUsers(spec: Spec, order: seq<string>)
    requires Compatible(spec, order)
    ensures forall i | 0 <= i < |order| && IsRefLess(spec, order[i]) ::
      UserOf(spec, order[i]) == "" || UserOf(spec, order[i]) == LastUser(spec, order)
    ensures LastUser(spec, order) == "" ||
      exists i :: 0 <= i < |order| && IsRefLess(spec, order[i]) && UserOf(spec, order[i]) == LastUser(spec, order)
  {
    if order != [] {
      var rest, last := order[..|order| - 1], |order| - 1;
      assert forall i | 0 <= i < last :: rest[i] == order[i];
      if !IsRefLess(spec, order[last]) {
        EarlierUsers(spec, rest);
      }
    }
  }

  /** For every order the loop succeeds exactly when no pool contradicts an earlier one, and
      then leaves every visited ref-less pool pointing at the generated secret, every other
      pool as it was, and the user of the last ref-less pool. */
  lemma {:induction false} VisitPoolsExactly(spec: Spec, order: seq<string>)
    requires forall name | name in order :: name in spec.pools
    requires Distinct(order)
    ensures VisitPools(spec, order).Ok? <==> Compatible(spec, order)
    ensures VisitPools(spec, order).Ok? ==>
      VisitPools(spec, order).value
        == Normalized(spec.(pools := FilledPools(spec, Visited(order))), LastUser(spec, order))
  {
    if order == [] {
      assert FilledPools(spec, {}) == spec.pools;
      assert Visited(order) == {};
    } else {
      var rest, last := order[..|order| - 1], order[|order| - 1];
      assert forall i | 0 <= i < |rest| :: rest[i] == order[i];
      VisitPoolsExactly(spec, rest);
      if Compatible(spec, rest) {
        EarlierUsers(spec, rest);
        LastDecides(spec, order);
        FillOneMore(spec, Visited(rest), last, LastUser(spec, rest));
        assert Visited(order) == Visited(rest) + {last};
      }
    }
  }

  lemma FillOneMore(spec: Spec, done: set<string>, name: string, user: string)
    requires name in spec.pools && name !in done
    ensures var n, after := Normalized(spec.(pools := FilledPools(spec, done)), user), FilledPools(spec, done + {name});
      VisitPool(n, name) ==
        if !RefLess(spec.pools[name]) then Ok(Normalized(spec.(pools := after), user))
        else if user != "" && UserOf(spec, name) != user then Err
        else Ok(Normalized(spec.(pools := after), UserOf(spec, name)))
  {
    var pools, after := FilledPools(spec, done), FilledPools(spec, done + {name});
    if RefLess(spec.pools[name]) {
      assert pools[name := WithGeneratedRef(spec.pools[name], spec.clusterRef)] == after;
    } else {
      assert pools == after;
    }
  }

  /** Comparing with the carried user is comparing with every earlier pool. */
  lemma LastDecides(spec: Spec, order: seq<string>)
    requires order != []
    requires Compatible(spec, order[..|order| - 1])
    ensures var last, carried := order[|order| - 1], LastUser(spec, order[..|order| - 1]);
      Compatible(spec, order) <==>
        (IsRefLess(spec, last) ==> carried == "" || carried == UserOf(spec, last))
  {
    var rest := order[..|order| - 1];
    var last, carried := order[|order| - 1], LastUser(spec, rest);
    assert forall i | 0 <= i < |rest| :: rest[i] == order[i];
    EarlierUsers(spec, rest);
    if IsRefLess(spec, last) && carried != "" && carried != UserOf(spec, last) {
      var i :| 0 <= i < |rest| && IsRefLess(spec, rest[i]) && UserOf(spec, rest[i]) == carried;
      assert order[i] == rest[i] && IsRefLess(spec, order[i]);
      assert !Compatible(spec, order);
    }
  }

  // ------------------------------------------------------ independence of map order

  ghost predicate Agree(spec: Spec) {
    forall a, b | IsRefLess(spec, a) && IsRefLess(spec, b) :: UserOf(spec, a) == UserOf(spec, b)
  }

  ghost predicate NonEmptyAgree(spec: Spec) {
    forall a, b | IsRefLess(spec, a) && IsRefLess(spec, b) && UserOf(spec, a) != "" && UserOf(spec, b) != "" ::
      UserOf(spec, a) == UserOf(spec, b)
  }

  /** Some ref-less pools have a user and some do not. */
  ghost predicate Mixed(spec: Spec) {
    exists a, b :: IsRefLess(spec, a) && IsRefLess(spec, b) && UserOf(spec, a) == "" && UserOf(spec, b) != ""
  }

  ghost predicate NonEmptyUsers(spec: Spec) {
    forall name | name in spec.pools && spec.pools[name].authQuery.Some? :: spec.pools[name].authQuery.value.user != ""
  }

  /** The result without any order: it fails when two ref-less pools disagree. */
  ghost function AuthDefaulted(spec: Spec): Result<Normalized> {
    if !Agree(spec) then Err
    else Ok(Normalized(spec.(pools := FilledPools(spec, spec.pools.Keys)), AgreedUser(spec)))
  }

  ghost function AgreedUser(spec: Spec): string {
    if name :| IsRefLess(spec, name) then UserOf(spec, name) else ""
  }

  lemma VisitAll(spec: Spec, order: seq<string>)
    requires Enumerates(order, spec.pools.Keys)
    ensures VisitPools(spec, order) ==
      if Compatible(spec, order)
      then Ok(Normalized(spec.(pools := FilledPools(spec, spec.pools.Keys)), LastUser(spec, order)))
      else Err
  {
    VisitPoolsExactly(spec, order);
    assert Visited(order) == spec.pools.Keys;
  }

  lemma CarriedUser(spec: Spec, order: seq<string>)
    requires Enumerates(order, spec.pools.Keys)
    requires Compatible(spec, order) && Agree(spec)
    ensures LastUser(spec, order) == AgreedUser(spec)
  {
    EarlierUsers(spec, order);
    if name :| IsRefLess(spec, name) {
      var k :| 0 <= k < |order| && order[k] == name;
      assert AgreedUser(spec) == UserOf(spec, order[k]);
      if LastUser(spec, order) != "" {
        var i :| 0 <= i < |order| && IsRefLess(spec, order[i]) && UserOf(spec, order[i]) == LastUser(spec, order);
        assert IsRefLess(spec, order[i]);
      }
    }
  }

  /** Unless users are mixed, every iteration order gives the one order-free result. */
  lemma OrderIrrelevant(spec: Spec, order: seq<string>)
    requires Enumerates(order, spec.pools.Keys)
    requires !Mixed(spec)
    ensures VisitPools(spec, order) == AuthDefaulted(spec)
  {
    VisitAll(spec, order);
    AdmissibleOrdersAgree(spec, order);
    if Agree(spec) { CarriedUser(spec, order); }
  }

  lemma AgreedUserIsEverybodys(spec: Spec)
    requires Agree(spec)
    ensures forall p | IsRefLess(spec, p) :: UserOf(spec, p) == AgreedUser(spec)
    ensures (forall p :: !IsRefLess(spec, p)) ==> AgreedUser(spec) == ""
  {
  }

  /** With non-empty users, which the schema demands, every iteration order succeeds exactly
      when all ref-less pools agree on the user; then each of them refers to the generated
      secret, and a secret is asked for exactly when there is one. */
  lemma NonEmptyUsersDecide(spec: Spec, order: seq<string>)
    requires Enumerates(order, spec.pools.Keys) && NonEmptyUsers(spec)
    ensures VisitPools(spec, order).Ok? <==> Agree(spec)
    ensures Agree(spec) ==>
      && VisitPools(spec, order).value.spec == spec.(pools := FilledPools(spec, spec.pools.Keys))
      && (VisitPools(spec, order).value.user != "" <==> exists p :: IsRefLess(spec, p))
      && forall p | IsRefLess(spec, p) :: UserOf(spec, p) == VisitPools(spec, order).value.user
  {
    OrderIrrelevant(spec, order);
    if Agree(spec) {
      AgreedUserIsEverybodys(spec);
      if p :| IsRefLess(spec, p) { assert UserOf(spec, p) != ""; }
    }
  }

  lemma AdmissibleOrdersAgree(spec: Spec, order: seq<string>)
    requires Enumerates(order, spec.pools.Keys)
    ensures Compatible(spec, order) ==> NonEmptyAgree(spec)
    ensures !Mixed(spec) ==> (Compatible(spec, order) <==> Agree(spec))
  {
    if Compatible(spec, order) {
      forall a, b | IsRefLess(spec, a) && IsRefLess(spec, b) && UserOf(spec, a) != "" && UserOf(spec, b) != ""
        ensures UserOf(spec, a) == UserOf(spec, b)
      {
        assert a in order && b in order;
        var i, j :| 0 <= i < |order| && 0 <= j < |order| && order[i] == a && order[j] == b;
        if i < j {} else if j < i {}
      }
    }
    if Agree(spec) {
      forall i, j | 0 <= i < j < |order| && IsRefLess(spec, order[i]) && IsRefLess(spec, order[j])
        ensures UserOf(spec, order[i]) == UserOf(spec, order[j])
      {
        assert IsRefLess(spec, order[i]) && IsRefLess(spec, order[j]);
      }
    }
  }

  lemma Joined(p: seq<string>, q: seq<string>, some: set<string>, others: set<string>)
    requires Enumerates(p, some) && Enumerates(q, others) && some !! others
    ensures Enumerates(p + q, some + others)
  {
    forall i, j | 0 <= i < j < |p + q| ensures (p + q)[i] != (p + q)[j] {
      if i < |p| <= j { assert p[i] in p && q[j - |p|] in q; }
    }
  }

  lemma {:induction false} SomeEnumeration(names: set<string>) returns (order: seq<string>)
    ensures Enumerates(order, names)
    ensures names == {} ==> order == []
    decreases |names|
  {
    if names == {} {
      order := [];
    } else {
      var name :| name in names;
      var rest := SomeEnumeration(names - {name});
      order := [name] + rest;
    }
  }

  ghost predicate OrderMatters(spec: Spec) {
    exists p, q ::
      Enumerates(p, spec.pools.Keys) && Enumerates(q, spec.pools.Keys) && VisitPools(spec, p) != VisitPools(spec, q)
  }

  /** The iteration order matters exactly when some ref-less pools have no user while the
      others, at least one, all have the same. */
  lemma OrderMattersExactly(spec: Spec)
    ensures OrderMatters(spec) <==> Mixed(spec) && NonEmptyAgree(spec)
  {
    forall p, q | Enumerates(p, spec.pools.Keys) && Enumerates(q, spec.pools.Keys)
      && VisitPools(spec, p) != VisitPools(spec, q)
      ensures Mixed(spec) && NonEmptyAgree(spec)
    {
      VisitPoolsExactly(spec, p);
      VisitPoolsExactly(spec, q);
      AdmissibleOrdersAgree(spec, p);
      AdmissibleOrdersAgree(spec, q);
      if !Mixed(spec) {
        OrderIrrelevant(spec, p);
        OrderIrrelevant(spec, q);
      }
    }
    if Mixed(spec) && NonEmptyAgree(spec) {
      EmptyUsersFirst(spec);
      EmptyUserLate(spec);
    }
  }

  lemma EmptyUsersFirst(spec: Spec)
    requires NonEmptyAgree(spec)
    ensures exists order :: Enumerates(order, spec.pools.Keys) && VisitPools(spec, order).Ok?
  {
    var late := set name | name in spec.pools && IsRefLess(spec, name) && UserOf(spec, name) != "";
    var p := SomeEnumeration(spec.pools.Keys - late);
    var q := SomeEnumeration(late);
    var order := p + q;
    Joined(p, q, spec.pools.Keys - late, late);
    assert spec.pools.Keys == (spec.pools.Keys - late) + late;
    assert Compatible(spec, order) by {
      forall i, j | 0 <= i < j < |order| && IsRefLess(spec, order[i]) && IsRefLess(spec, order[j])
        ensures UserOf(spec, order[i]) == "" || UserOf(spec, order[i]) == UserOf(spec, order[j])
      {
        if |p| <= i {
          assert order[i] in q && order[j] in q;
        } else {
          assert order[i] in p && order[j] in p + q;
        }
      }
    }
    VisitAll(spec, order);
  }

  lemma EmptyUserLate(spec: Spec)
    requires Mixed(spec)
    ensures exists order :: Enumerates(order, spec.pools.Keys) && VisitPools(spec, order).Err?
  {
    var a, b :| IsRefLess(spec, a) && IsRefLess(spec, b) && UserOf(spec, a) == "" && UserOf(spec, b) != "";
    var rest := SomeEnumeration(spec.pools.Keys - {b});
    var order := [b] + rest;
    assert a in rest;
    var k :| 0 <= k < |rest| && rest[k] == a;
    assert order[0] == b && order[k + 1] == a;
    assert !Compatible(spec, order);
    VisitAll(spec, order);
  }

  lemma NoneLeft(spec: Spec)
    ensures var done := spec.(pools := FilledPools(spec, spec.pools.Keys));
      && (forall name | name in done.pools :: !RefLess(done.pools[name]))
      && FilledPools(done, done.pools.Keys) == done.pools
  {
    var done := spec.(pools := FilledPools(spec, spec.pools.Keys));
    forall name | name in done.pools ensures !RefLess(done.pools[name]) {}
  }

  /** On a spec already defaulted, every order changes nothing and asks for no secret. */
  lemma DefaultingRefsTwice(spec: Spec, order: seq<string>, again: seq<string>)
    requires Enumerates(order, spec.pools.Keys) && Enumerates(again, spec.pools.Keys)
    requires VisitPools(spec, order).Ok?
    ensures VisitPools(VisitPools(spec, order).value.spec, again)
      == Ok(Normalized(VisitPools(spec, order).value.spec, ""))
  {
    VisitAll(spec, order);
    var done := VisitPools(spec, order).value.spec;
    NoneLeft(spec);
    VisitAll(done, again);
    AllExplicit(done, again);
  }

  lemma {:induction false} AllExplicit(spec: Spec, order: seq<string>)
    requires forall name | name in order :: name in spec.pools && !RefLess(spec.pools[name])
    ensures LastUser(spec, order) == "" && Compatible(spec, order)
  {
    if order != [] {
      assert order[|order| - 1] in order;
      AllExplicit(spec, order[..|order| - 1]);
    }
  }

  /** Failing is final: whatever the remaining order, the loop has failed. */
  lemma {:induction false} FailureIsFinal(spec: Spec, seen: seq<string>, rest: seq<string>)
    requires forall name | name in seen + rest :: name in spec.pools
    requires forall name | name in seen :: name in spec.pools
    requires VisitPools(spec, seen).Err?
    ensures VisitPools(spec, seen + rest).Err?
  {
    if rest == [] {
      assert seen + rest == seen;
    } else {
      assert (seen + rest)[..|seen + rest| - 1] == seen + rest[..|rest| - 1];
      FailureIsFinal(spec, seen, rest[..|rest| - 1]);
    }
  }

  /** Works on a deep copy, leaving its argument alone; `order` is the iteration order the
      map happened to give. */
  method DefaultAuthSecretRefs(spec: PgDoormanSpec)
    returns (normalized: PgDoormanSpec, user: string, ok: bool, ghost order: seq<string>)
    ensures fresh(normalized)
    ensures Enumerates(order, spec.pools.Keys)
    ensures VisitPools(spec.View(), order) == if ok then Ok(Normalized(normalized.View(), user)) else Err
  {
    ghost var given := spec.View();
    normalized := new PgDoormanSpec.DeepCopy(spec.View());
    user, ok, order := "", true, [];
    var left := spec.pools.Keys;
    while left != {}
      invariant left <= given.pools.Keys
      invariant Enumerates(order, given.pools.Keys - left)
      invariant VisitPools(given, order) == Ok(Normalized(normalized.View(), user))
      decreases |left|
      modifies normalized
    {
      var name :| name in left;
      left := left - {name};
      ghost var seen := order;
      order := order + [name];
      assert order[..|order| - 1] == seen;
      var pool := normalized.pools[name];
      if pool.authQuery.None? || pool.authQuery.value.passwordRef.Some? { continue; }
      if user != "" && pool.authQuery.value.user != user {
        ok := false;
        break;
      }
      user := pool.authQuery.value.user;
      pool := WithGeneratedRef(pool, normalized.clusterRef);
      normalized.pools := normalized.pools[name := pool];
    }
    order := WholeOrder(given, order, left);
  }

  /** The order seen so far, continued over the pools the loop did not reach. */
  lemma WholeOrder(spec: Spec, seen: seq<string>, left: set<string>) returns (order: seq<string>)
    requires left <= spec.pools.Keys
    requires Enumerates(seen, spec.pools.Keys - left)
    requires VisitPools(spec, seen).Err? || left == {}
    ensures Enumerates(order, spec.pools.Keys)
    ensures VisitPools(spec, order) == VisitPools(spec, seen)
  {
    var rest := SomeEnumeration(left);
    order := seen + rest;
    Joined(seen, rest, spec.pools.Keys - left, left);
    assert spec.pools.Keys == (spec.pools.Keys - left) + left;
    if left == {} {
      assert order == seen;
    } else {
      FailureIsFinal(spec, seen, rest);
    }
  }

  // ----------------------------------------------------------- references to secrets

  /** A place of the spec that carries a password. */
  datatype Entry = AuthEntry(pool: string) | UserEntry(pool: string, index: nat) | AdminEntry

  predicate HasRef(spec: Spec, e: Entry) {
    match e
    case AuthEntry(p) =>
      p in spec.pools && spec.pools[p].authQuery.Some? && spec.pools[p].authQuery.value.passwordRef.Some?
    case UserEntry(p, i) => p in spec.pools && i < |spec.pools[p].users|
    case AdminEntry => spec.general.Some? && spec.general.value.adminPasswordRef.Some?
  }

  function RefOf(spec: Spec, e: Entry): SecretRef
    requires HasRef(spec, e)
  {
    match e
    case AuthEntry(p) => spec.pools[p].authQuery.value.passwordRef.value
    case UserEntry(p, i) => spec.pools[p].users[i].passwordRef
    case AdminEntry => spec.general.value.adminPasswordRef.value
  }

  ghost predicate Refers(spec: Spec, name: string) { exists e :: HasRef(spec, e) && RefOf(spec, e).name == name }

  /** The entries of the pools outside `left` have been seen. */
  ghost predicate Listed(spec: Spec, left: set<string>, names: seq<string>) {
    && (forall e | HasRef(spec, e) && !e.AdminEntry? && e.pool !in left :: RefOf(spec, e).name in names)
    && AllReferred(spec, names)
  }

  function Added(names: seq<string>, name: string): seq<string> { if name in names then names else names + [name] }

  /** Each referenced secret once, whatever the order of the pools. */
  method CollectSecretNames(spec: Spec) returns (result: seq<string>)
    ensures Distinct(result)
    ensures forall name :: name in result <==> Refers(spec, name)
  {
    result := [];
    var left := spec.pools.Keys;
    while left != {}
      invariant left <= spec.pools.Keys
      invariant Distinct(result) && Listed(spec, left, result)
      decreases |left|
    {
      var p :| p in left;
      left := left - {p};
      result := CollectPool(spec, p, left, result);
    }
    if spec.general.Some? && spec.general.value.adminPasswordRef.Some? {
      assert HasRef(spec, AdminEntry);
      result := Added(result, spec.general.value.adminPasswordRef.value.name);
    }
  }

  method CollectPool(spec: Spec, p: string, ghost left: set<string>, before: seq<string>) returns (result: seq<string>)
    requires p in spec.pools && p !in left
    requires Distinct(before) && Listed(spec, left + {p}, before)
    ensures Distinct(result) && Listed(spec, left, result)
  {
    result := before;
    var pool := spec.pools[p];
    if pool.authQuery.Some? && pool.authQuery.value.passwordRef.Some? {
      assert HasRef(spec, AuthEntry(p));
      result := Added(result, pool.authQuery.value.passwordRef.value.name);
    }
    ghost var some := result;
    result := CollectUsers(spec, p, result);
    PoolListed(spec, p, left, before, some, result);
  }

  method CollectUsers(spec: Spec, p: string, before: seq<string>) returns (result: seq<string>)
    requires p in spec.pools && Distinct(before) && AllReferred(spec, before)
    ensures Distinct(result) && AllReferred(spec, result) && before <= result
    ensures UsersListed(spec, p, |spec.pools[p].users|, result)
  {
    result := before;
    var users := spec.pools[p].users;
    for i := 0 to |users|
      invariant Distinct(result) && AllReferred(spec, result) && before <= result
      invariant UsersListed(spec, p, i, result)
    {
      assert HasRef(spec, UserEntry(p, i)) && RefOf(spec, UserEntry(p, i)) == users[i].passwordRef;
      result := Added(result, users[i].passwordRef.name);
    }
  }

  ghost predicate AllReferred(spec: Spec, names: seq<string>) { forall name | name in names :: Refers(spec, name) }

  ghost predicate UsersListed(spec: Spec, p: string, i: int, names: seq<string>)
    requires p in spec.pools && i <= |spec.pools[p].users|
  {
    forall k: nat | k < i :: RefOf(spec, UserEntry(p, k)).name in names
  }

  lemma PoolListed(spec: Spec, p: string, left: set<string>, before: seq<string>, some: seq<string>, names: seq<string>)
    requires p in spec.pools && p !in left && Listed(spec, left + {p}, before)
    requires before <= some <= names && AllReferred(spec, names)
    requires HasRef(spec, AuthEntry(p)) ==> RefOf(spec, AuthEntry(p)).name in some
    requires UsersListed(spec, p, |spec.pools[p].users|, names)
    ensures Listed(spec, left, names)
  {
    forall e | HasRef(spec, e) && !e.AdminEntry? && e.pool !in left ensures RefOf(spec, e).name in names {
      if e.pool != p { assert RefOf(spec, e).name in before; }
    }
  }
}
