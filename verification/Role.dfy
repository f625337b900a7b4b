/** The role watcher: restarting the pooler when the instance is demoted. */
module Role {
  import opened Text
  import opened Wrappers

  const PRIMARY := "primary"

  /** One poll: what the role file held, if it was readable, and whether a restart
      attempted at that moment would succeed. */
  datatype Poll = Poll(file: Option<string>, restartOk: bool)

  /** The role a poll reports; "" when it reports nothing. */
  function RoleOf(p: Poll): string {
    if p.file.None? then "" else TrimSpace(p.file.value)
  }

  /** Whether the poll attempts a restart, and the remembered role after it. */
  function Check(lastRole: string, p: Poll): (bool, string) {
    var role := RoleOf(p);
    if role == "" || role == lastRole then (false, lastRole)
    else if lastRole != PRIMARY then (false, role)
    else (true, if p.restartOk then role else PRIMARY)
  }

  class RoleWatcher {
    var lastRole: string
    var attempts: nat
    var restarts: nat

    constructor ()
      ensures lastRole == "" && attempts == 0 && restarts == 0
    {
      lastRole, attempts, restarts := "", 0, 0;
    }

    /** Asks the process to restart; `ok` is its answer. */
    method Restart(ok: bool)
      modifies `attempts, `restarts
      ensures attempts == old(attempts) + 1 && restarts == old(restarts) + if ok then 1 else 0
    {
      attempts := attempts + 1;
      if ok {
        restarts := restarts + 1;
      }
    }

    method CheckRole(p: Poll)
      modifies this
      ensures lastRole == Check(old(lastRole), p).1
      ensures attempts == old(attempts) + if Check(old(lastRole), p).0 then 1 else 0
      ensures restarts == old(restarts) + if Check(old(lastRole), p).0 && p.restartOk then 1 else 0
    {
      if p.file.None? {
        return;
      }
      var role := TrimSpace(p.file.value);
      if role == "" || role == lastRole {
        return;
      }
      var demoted := lastRole == PRIMARY && role != PRIMARY;
      lastRole := role;
      if !demoted {
        return;
      }
      Restart(p.restartOk);
      if !p.restartOk {
        lastRole := PRIMARY;
      }
    }

    /** The polling loop over any finite sequence of polls. */
    method Run(polls: seq<Poll>)
      requires lastRole == "" && attempts == 0 && restarts == 0
      modifies this
      ensures lastRole == Remembered(polls)
      ensures attempts == AttemptCount(polls, 0, |polls|) && restarts == RestartCount(polls, 0, |polls|)
    {
      for i := 0 to |polls|
        invariant lastRole == Remembered(polls[..i])
        invariant attempts == AttemptCount(polls, 0, i) && restarts == RestartCount(polls, 0, i)
      {
        assert polls[..i + 1][..i] == polls[..i];
        CheckRole(polls[i]);
      }
      assert polls[..|polls|] == polls;
    }
  }

  function Remembered(polls: seq<Poll>): string {
    if polls == [] then "" else Check(Remembered(polls[..|polls| - 1]), polls[|polls| - 1]).1
  }

  predicate Attempts(polls: seq<Poll>, i: nat)
    requires i < |polls|
  {
    Check(Remembered(polls[..i]), polls[i]).0
  }

  function AttemptFlags(polls: seq<Poll>): (flags: seq<bool>)
    ensures |flags| == |polls| && forall i | 0 <= i < |polls| :: flags[i] == Attempts(polls, i)
  {
    seq(|polls|, i requires 0 <= i < |polls| => Attempts(polls, i))
  }

  function RestartFlags(polls: seq<Poll>): (flags: seq<bool>)
    ensures |flags| == |polls| && forall i | 0 <= i < |polls| :: flags[i] == (Attempts(polls, i) && polls[i].restartOk)
  {
    seq(|polls|, i requires 0 <= i < |polls| => Attempts(polls, i) && polls[i].restartOk)
  }

  function CountTrue(flags: seq<bool>, first: nat, last: nat): nat
    requires first <= last <= |flags|
  {
    if first == last then 0 else CountTrue(flags, first, last - 1) + if flags[last - 1] then 1 else 0
  }

  /** How many of the polls from `first` up to `last` attempt a restart, and how many of
      them succeed. */
  function AttemptCount(polls: seq<Poll>, first: nat, last: nat): nat
    requires first <= last <= |polls|
  {
    CountTrue(AttemptFlags(polls), first, last)
  }

  function RestartCount(polls: seq<Poll>, first: nat, last: nat): nat
    requires first <= last <= |polls|
  {
    CountTrue(RestartFlags(polls), first, last)
  }

  // ------------------------------------------------- the independent description

  /** What a poll means for the pooler. */
  datatype Sight = Nothing | Primary | Demotion(restartOk: bool)

  function SightOf(p: Poll): Sight {
    var role := RoleOf(p);
    if role == "" then Nothing else if role == PRIMARY then Primary else Demotion(p.restartOk)
  }

  /** A poll sees the primary exactly when the file is that word with white space around it,
      and nothing exactly when the file cannot be read or is all white space. */
  lemma SightExactly(p: Poll)
    ensures SightOf(p) == Primary <==> p.file.Some? && exists k: nat :: Wraps(p.file.value, "primary", k)
    ensures SightOf(p) == Nothing <==> p.file.None? || AllSpace(p.file.value)
    ensures SightOf(p).Demotion? ==> SightOf(p).restartOk == p.restartOk
  {
    if p.file.Some? {
      var text := p.file.value;
      TrimsTo(text, "primary");
      TrimsTo(text, "");
      if AllSpace(text) { assert Wraps(text, "", 0); }
      if k: nat :| Wraps(text, "", k) { assert AllSpace(text); }
    }
  }

  function Sights(polls: seq<Poll>): (sights: seq<Sight>)
    ensures |sights| == |polls| && forall i | 0 <= i < |polls| :: sights[i] == SightOf(polls[i])
  {
    seq(|polls|, i requires 0 <= i < |polls| => SightOf(polls[i]))
  }

  /** Sight p is a primary and none follows before i. */
  ghost predicate LastPrimary(sights: seq<Sight>, p: nat, i: nat)
    requires p < i <= |sights|
  {
    sights[p] == Primary && forall j | p < j < i :: sights[j] != Primary
  }

  /** No restart attempted between p and i could succeed. */
  ghost predicate Fruitless(sights: seq<Sight>, p: nat, i: nat)
    requires p < i <= |sights|
  {
    Demotion(true) !in sights[p + 1..i]
  }

  /** The restart owed since the primary at p. */
  ghost predicate OwedSince(sights: seq<Sight>, p: int, i: nat)
    requires i <= |sights|
  {
    0 <= p < i && LastPrimary(sights, p, i) && Fruitless(sights, p, i)
  }

  /** A restart is owed: a primary was seen and nothing since could have paid it. */
  ghost predicate RestartOwed(sights: seq<Sight>, i: nat)
    requires i <= |sights|
  {
    exists p :: OwedSince(sights, p, i)
  }

  lemma CheckMeaning(lastRole: string, p: Poll)
    ensures Check(lastRole, p).0 <==> lastRole == PRIMARY && SightOf(p).Demotion?
    ensures Check(lastRole, p).1 == PRIMARY <==>
      SightOf(p) == Primary || (lastRole == PRIMARY && SightOf(p) != Demotion(true))
  {
  }

  lemma OwedSinceStep(sights: seq<Sight>, p: nat, i: nat)
    requires p < i < |sights|
    ensures OwedSince(sights, p, i + 1) <==>
      OwedSince(sights, p, i) && sights[i] != Primary && sights[i] != Demotion(true)
  {
    FruitlessStep(sights, p, i);
  }

  lemma OwedStep(sights: seq<Sight>, i: nat)
    requires i < |sights|
    ensures RestartOwed(sights, i + 1) <==>
      sights[i] == Primary || (RestartOwed(sights, i) && sights[i] != Demotion(true))
  {
    forall p: nat | p < i
      ensures OwedSince(sights, p, i + 1) <==>
        OwedSince(sights, p, i) && sights[i] != Primary && sights[i] != Demotion(true)
    {
      OwedSinceStep(sights, p, i);
    }
    assert OwedSince(sights, i, i + 1) <==> sights[i] == Primary;
    if RestartOwed(sights, i) {
      var p :| OwedSince(sights, p, i);
      assert OwedSince(sights, p, i + 1) <==> sights[i] != Primary && sights[i] != Demotion(true);
    }
    if RestartOwed(sights, i + 1) {
      var p :| OwedSince(sights, p, i + 1);
      assert p < i ==> OwedSince(sights, p, i);
    }
  }

  lemma {:induction false} RememberedPrimaryMeansOwed(polls: seq<Poll>, i: nat)
    requires i <= |polls|
    ensures Remembered(polls[..i]) == PRIMARY <==> RestartOwed(Sights(polls), i)
  {
    if i > 0 {
      RememberedPrimaryMeansOwed(polls, i - 1);
      assert polls[..i][..i - 1] == polls[..i - 1];
      CheckMeaning(Remembered(polls[..i - 1]), polls[i - 1]);
      OwedStep(Sights(polls), i - 1);
    }
  }

  /** Main result: a poll attempts a restart exactly when it sees a demotion, a primary was
      seen before it, and no attempt since the last primary could succeed. */
  lemma DemotionIsHandledOnce(polls: seq<Poll>, i: nat)
    requires i < |polls|
    ensures Attempts(polls, i) <==> SightOf(polls[i]).Demotion? && RestartOwed(Sights(polls), i)
  {
    RememberedPrimaryMeansOwed(polls, i);
    CheckMeaning(Remembered(polls[..i]), polls[i]);
  }

  /** Within a run of demotions only the restarts since its primary matter. */
  lemma OwedWithinRun(sights: seq<Sight>, p: nat, i: nat)
    requires p < i <= |sights| && LastPrimary(sights, p, i)
    ensures RestartOwed(sights, i) <==> Fruitless(sights, p, i)
  {
    assert OwedSince(sights, p, i) <==> Fruitless(sights, p, i);
    if RestartOwed(sights, i) {
      var q :| OwedSince(sights, q, i);
      assert sights[p] == Primary && sights[q] == Primary;
      assert q == p;
    }
  }

  lemma FruitlessStep(sights: seq<Sight>, p: nat, i: nat)
    requires p < i < |sights|
    ensures Fruitless(sights, p, i + 1) <==> Fruitless(sights, p, i) && sights[i] != Demotion(true)
  {
    assert sights[p + 1..i + 1] == sights[p + 1..i] + [sights[i]];
  }

  ghost predicate OwedAt(sights: seq<Sight>, i: nat, paid: bool)
    requires i < |sights|
  {
    RestartOwed(sights, i) && if paid then sights[i] == Demotion(true) else sights[i].Demotion?
  }

  /** Which sights are demotions while a restart is owed; with `paid`, only those whose
      restart succeeds. */
  ghost function OwedFlags(sights: seq<Sight>, paid: bool): (flags: seq<bool>)
    ensures |flags| == |sights| && forall i | 0 <= i < |sights| :: flags[i] == OwedAt(sights, i, paid)
  {
    seq(|sights|, i requires 0 <= i < |sights| => OwedAt(sights, i, paid))
  }

  /** Attempts and restarts are exactly the demotions seen while a restart is owed. */
  lemma FlagsAreOwed(polls: seq<Poll>)
    ensures AttemptFlags(polls) == OwedFlags(Sights(polls), false)
    ensures RestartFlags(polls) == OwedFlags(Sights(polls), true)
  {
    forall i | 0 <= i < |polls|
      ensures Attempts(polls, i) <==> OwedAt(Sights(polls), i, false)
      ensures Attempts(polls, i) && polls[i].restartOk <==> OwedAt(Sights(polls), i, true)
    {
      OwedAtExactly(polls, i);
    }
  }

  lemma OwedAtExactly(polls: seq<Poll>, i: nat)
    requires i < |polls|
    ensures Attempts(polls, i) <==> OwedAt(Sights(polls), i, false)
    ensures Attempts(polls, i) && polls[i].restartOk <==> OwedAt(Sights(polls), i, true)
  {
    DemotionIsHandledOnce(polls, i);
  }

  lemma {:induction false} OwedWithinDemotion(sights: seq<Sight>, p: nat, i: nat)
    requires p < i <= |sights| && LastPrimary(sights, p, i)
    ensures CountTrue(OwedFlags(sights, true), p, i) == if Fruitless(sights, p, i) then 0 else 1
    ensures Fruitless(sights, p, i) ==> CountTrue(OwedFlags(sights, false), p, i) == DemotionCount(sights, p, i)
  {
    if p < i - 1 {
      OwedWithinDemotion(sights, p, i - 1);
      OwedWithinRun(sights, p, i - 1);
      FruitlessStep(sights, p, i - 1);
    }
  }

  /** How many of the sights from `p` up to `i` are demotions. */
  function DemotionCount(sights: seq<Sight>, p: nat, i: nat): nat
    requires p <= i <= |sights|
  {
    if p == i then 0 else DemotionCount(sights, p, i - 1) + if sights[i - 1].Demotion? then 1 else 0
  }

  /** Main result: within one run of demotions, the polls after a primary up to the next one,
      there is exactly one successful restart if any attempt could succeed; otherwise there is
      none, and one attempt for every demotion seen. */
  lemma OneSuccessPerDemotion(polls: seq<Poll>, p: nat, i: nat)
    requires p < i <= |polls| && LastPrimary(Sights(polls), p, i)
    ensures RestartCount(polls, p, i) == if Fruitless(Sights(polls), p, i) then 0 else 1
    ensures Fruitless(Sights(polls), p, i) ==> AttemptCount(polls, p, i) == DemotionCount(Sights(polls), p, i)
  {
    FlagsAreOwed(polls);
    OwedWithinDemotion(Sights(polls), p, i);
  }

  /** Before any primary was seen nothing is restarted. */
  lemma NoPrimaryNoAttempt(polls: seq<Poll>, i: nat)
    requires i <= |polls| && forall j | 0 <= j < i :: Sights(polls)[j] != Primary
    ensures AttemptCount(polls, 0, i) == 0
  {
    FlagsAreOwed(polls);
    NothingOwed(Sights(polls), i);
  }

  lemma {:induction false} NothingOwed(sights: seq<Sight>, i: nat)
    requires i <= |sights| && forall j | 0 <= j < i :: sights[j] != Primary
    ensures CountTrue(OwedFlags(sights, false), 0, i) == 0
  {
    if i > 0 { NothingOwed(sights, i - 1); }
  }
}
