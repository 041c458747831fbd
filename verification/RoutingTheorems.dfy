/** What routing guarantees: the chain it picks, the answers it relies on, and what it leaves alone. */
module RoutingTheorems {
  import opened Basics
  import opened Ordering
  import opened PolicyCache
  import opened Router
  import Breaker
  import Catalog

  /*** Asking circuits for their state does not change what this call can see ***/

  lemma LookedTwice(env: Env, p: Provider)
    ensures Looked(env, Looked(env, p)) == Looked(env, p)
    ensures Admitted(env, Looked(env, p)) == Admitted(env, p)
  {}

  /** `reg` after some of its providers have been looked at. */
  ghost predicate LookedAt(env: Env, was: Registry, reg: Registry) {
    was.Keys == reg.Keys && forall k :: k in was ==> reg[k] == was[k] || reg[k] == Looked(env, was[k])
  }

  lemma LookKeepsLookedAt(env: Env, was: Registry, reg: Registry, name: string)
    requires LookedAt(env, was, reg)
    ensures LookedAt(env, was, Look(env, reg, name))
  {
    if name in reg {
      LookedTwice(env, was[name]);
    }
  }

  lemma {:induction false} ScanOnlyLooks(env: Env, policy: Policy, rows: seq<Catalog.Row>, s: Scan, was: Registry)
    requires LookedAt(env, was, s.registry)
    ensures LookedAt(env, was, ScanRows(env, policy, rows, s).registry)
    decreases |rows|
  {
    if rows != [] && |s.scored| < env.candidateCap {
      LookKeepsLookedAt(env, was, s.registry, rows[0].provider);
      ScanOnlyLooks(env, policy, rows[1..], Examine(env, policy, s, rows[0]), was);
    }
  }

  /** Looking at this provider now stores HALF_OPEN. */
  ghost predicate Flips(env: Env, reg: Registry, name: string) {
    name in reg && Looked(env, reg[name]) != reg[name]
  }

  /** A provider flips exactly when it is enabled, not disabled, and OPEN with its open period over. */
  lemma FlipsIffOpenPeriodOver(env: Env, reg: Registry, name: string)
    requires name in reg
    ensures Flips(env, reg, name) <==>
      var p := reg[name];
      && p.enabled && !p.runtimeDisabled
      && p.circuit.state.Open? && p.circuit.openedAt.Some?
      && env.now - p.circuit.openedAt.value >= env.breaker.openSeconds
  {}

  lemma {:induction false} ScanExaminesAPrefix(env: Env, policy: Policy, rows: seq<Catalog.Row>, s: Scan)
    ensures s.examined <= ScanRows(env, policy, rows, s).examined <= s.examined + |rows|
    decreases |rows|
  {
    if rows != [] && |s.scored| < env.candidateCap {
      ScanExaminesAPrefix(env, policy, rows[1..], Examine(env, policy, s, rows[0]));
    }
  }

  /** A scan leaves the registry as it was exactly when no row it examined belongs to a provider that flips. */
  lemma {:induction false} ScanUntouchedIffNothingFlips(env: Env, policy: Policy, rows: seq<Catalog.Row>, s: Scan)
    ensures var t := ScanRows(env, policy, rows, s);
      && s.examined <= t.examined <= s.examined + |rows|
      && (t.registry == s.registry <==>
            forall i :: 0 <= i < t.examined - s.examined ==> !Flips(env, s.registry, rows[i].provider))
    decreases |rows|
  {
    if rows != [] && |s.scored| < env.candidateCap {
      var name := rows[0].provider;
      var s1 := Examine(env, policy, s, rows[0]);
      var t := ScanRows(env, policy, rows[1..], s1);
      ScanUntouchedIffNothingFlips(env, policy, rows[1..], s1);
      assert s1.registry == Look(env, s.registry, name);
      if Flips(env, s.registry, name) {
        ScanOnlyLooks(env, policy, rows[1..], s1, s1.registry);
        LookedTwice(env, s.registry[name]);
        assert t.registry[name] == Looked(env, s.registry[name]);
        assert rows[0].provider == name;
      } else {
        assert s1.registry == s.registry;
        assert forall i :: 0 < i < t.examined - s.examined ==> rows[i] == rows[1..][i - 1];
        assert forall i :: 0 <= i < t.examined - s1.examined ==> rows[1..][i] == rows[i + 1];
      }
    }
  }

  /*** Which candidates are accepted, when the policy is constant ***/

  /** Every question has one fixed answer, and the cache has never heard another. */
  ghost predicate Constant(policy: Policy, base: PolicyKey -> Answer) {
    forall key, n :: policy(key, n) == base(key)
  }

  ghost predicate Agrees(d: Data, base: PolicyKey -> Answer) {
    forall e :: e in d ==> e.answer == base(e.key)
  }

  lemma AskAgrees(m: Memory, env: Env, key: PolicyKey, policy: Policy, base: PolicyKey -> Answer)
    requires Constant(policy, base) && Agrees(m.data, base)
    ensures AnswerTo(m, env, key, policy) == base(key)
    ensures Agrees(Ask(m, env, key, policy).data, base)
  {
    LookupFinds(m.data, key);
    var data := GetData(m.data, key, env.now);
    assert Agrees(data, base);
    var stored := Remove(data, key) + [Entry(key, env.now + env.ttl, base(key))];
    assert Agrees(stored, base);
    EvictKeepsAgreement(stored, env.maxEntries, base);
  }

  lemma EvictKeepsAgreement(d: Data, max: nat, base: PolicyKey -> Answer)
    requires Agrees(d, base)
    ensures Agrees(Evict(d, max), base)
  {
    assert forall e :: e in Evict(d, max) ==> e in d;
  }

  predicate Eligible(env: Env, reg: Registry, base: PolicyKey -> Answer, row: Catalog.Row) {
    row.provider in reg && Admitted(env, reg[row.provider]) && base(QuestionFor(env.request, row)).Allow?
  }

  /**
   What admits a row, read off the provider, the request and the policy: the provider is registered,
   enabled and not disabled at run time; its circuit is not OPEN, or its open period is over; no
   cooldown runs and its health is not UNAVAILABLE; it is cleared for the sensitivity of the request;
   and the policy allows exactly this provider, model, capability, actor and scope.
   */
  lemma EligibleIffCleared(env: Env, reg: Registry, base: PolicyKey -> Answer, row: Catalog.Row)
    ensures Eligible(env, reg, base, row) <==>
      && row.provider in reg
      && var p, q := reg[row.provider], env.request;
         && p.enabled && !p.runtimeDisabled
         && (p.circuit.state == Breaker.Open ==>
               p.circuit.openedAt.Some? && env.now - p.circuit.openedAt.value >= env.breaker.openSeconds)
         && (p.cooldownUntil.None? || p.cooldownUntil.value <= env.now)
         && p.health != Unavailable
         && (q.sensitivity == Restricted ==> p.maxSensitivity == Restricted)
         && (q.sensitivity == Confidential ==> p.maxSensitivity == Confidential || p.maxSensitivity == Restricted)
         && (q.sensitivity == Internal ==> p.maxSensitivity != Public)
         && base(PolicyKey(row.provider, row.model, if q.capability == Catalog.Chat then "chat" else "embedding",
                           q.actor, q.scopeType, q.scopeId)) == Allow
  {}

  /** The reference: all eligible rows, scored, judged against the registry as it was before the call. */
  function EligibleScores(env: Env, reg: Registry, base: PolicyKey -> Answer, rows: seq<Catalog.Row>): seq<Scored> {
    if rows == [] then []
    else if Eligible(env, reg, base, rows[0]) then
      [Scored(Score(env, rows[0].descriptor, reg[rows[0].provider]), rows[0].provider, rows[0].model)]
        + EligibleScores(env, reg, base, rows[1..])
    else EligibleScores(env, reg, base, rows[1..])
  }

  function Take<T>(s: seq<T>, n: int): seq<T> {
    if n <= 0 then [] else if |s| <= n then s else s[..n]
  }

  lemma {:induction false} LookingKeepsEligible(
    env: Env, was: Registry, reg: Registry, base: PolicyKey -> Answer, rows: seq<Catalog.Row>)
    requires LookedAt(env, was, reg)
    ensures EligibleScores(env, reg, base, rows) == EligibleScores(env, was, base, rows)
  {
    if rows != [] {
      LookingKeepsEligible(env, was, reg, base, rows[1..]);
      var name := rows[0].provider;
      if name in was {
        LookedTwice(env, was[name]);
        assert Score(env, rows[0].descriptor, reg[name]) == Score(env, rows[0].descriptor, was[name]);
      }
    }
  }

  /** The score of a row if it is eligible, as a sequence of at most one element. */
  function HeadScore(env: Env, reg: Registry, base: PolicyKey -> Answer, row: Catalog.Row): (r: seq<Scored>)
    ensures |r| == if Eligible(env, reg, base, row) then 1 else 0
  {
    if Eligible(env, reg, base, row)
    then [Scored(Score(env, row.descriptor, reg[row.provider]), row.provider, row.model)] else []
  }

  lemma ExamineAddsHead(env: Env, policy: Policy, base: PolicyKey -> Answer, s: Scan, row: Catalog.Row)
    requires Constant(policy, base) && Agrees(s.memory.data, base)
    ensures var t := Examine(env, policy, s, row);
      && t.scored == s.scored + HeadScore(env, s.registry, base, row)
      && Agrees(t.memory.data, base)
      && LookedAt(env, s.registry, t.registry)
  {
    AskAgrees(s.memory, env, QuestionFor(env.request, row), policy, base);
  }

  lemma TakeAfterHead<T>(taken: seq<T>, head: seq<T>, rest: seq<T>, cap: int)
    requires |head| <= 1 && |taken| < cap
    ensures taken + Take(head + rest, cap - |taken|) == (taken + head) + Take(rest, cap - |taken + head|)
  {}

  lemma EligibleHead(env: Env, reg: Registry, base: PolicyKey -> Answer, rows: seq<Catalog.Row>)
    requires rows != []
    ensures EligibleScores(env, reg, base, rows) ==
      HeadScore(env, reg, base, rows[0]) + EligibleScores(env, reg, base, rows[1..])
  {}

  /** One turn of the loop, seen from the reference. */
  lemma OneTurn(env: Env, policy: Policy, base: PolicyKey -> Answer, rows: seq<Catalog.Row>, s: Scan)
    requires Constant(policy, base) && Agrees(s.memory.data, base) && rows != []
    ensures var s1, head := Examine(env, policy, s, rows[0]), HeadScore(env, s.registry, base, rows[0]);
      && s1.scored == s.scored + head && Agrees(s1.memory.data, base)
      && EligibleScores(env, s.registry, base, rows) == head + EligibleScores(env, s1.registry, base, rows[1..])
  {
    var s1 := Examine(env, policy, s, rows[0]);
    ExamineAddsHead(env, policy, base, s, rows[0]);
    LookingKeepsEligible(env, s.registry, s1.registry, base, rows[1..]);
    EligibleHead(env, s.registry, base, rows);
  }

  /** What remains to be taken after a turn that added at most one row. */
  lemma TakenAfterTurn(taken: seq<Scored>, head: seq<Scored>, rest: seq<Scored>, all: seq<Scored>, cap: int)
    requires |head| <= 1 && |taken| < cap && all == head + rest
    ensures taken + Take(all, cap - |taken|) == (taken + head) + Take(rest, cap - |taken + head|)
  {
    TakeAfterHead(taken, head, rest, cap);
  }

  lemma {:induction false} ScanKeepsAgreement(
    env: Env, policy: Policy, base: PolicyKey -> Answer, rows: seq<Catalog.Row>, s: Scan)
    requires Constant(policy, base) && Agrees(s.memory.data, base)
    ensures Agrees(ScanRows(env, policy, rows, s).memory.data, base)
    decreases |rows|
  {
    if rows != [] && |s.scored| < env.candidateCap {
      OneTurn(env, policy, base, rows, s);
      ScanKeepsAgreement(env, policy, base, rows[1..], Examine(env, policy, s, rows[0]));
    }
  }

  /** The loop accepts exactly the first eligible rows, up to the cap, whatever the cache holds or evicts. */
  lemma {:induction false} ScanTakesFirstEligible(
    env: Env, policy: Policy, base: PolicyKey -> Answer, rows: seq<Catalog.Row>, s: Scan)
    requires Constant(policy, base) && Agrees(s.memory.data, base)
    ensures ScanRows(env, policy, rows, s).scored ==
      s.scored + Take(EligibleScores(env, s.registry, base, rows), env.candidateCap - |s.scored|)
    decreases |rows|
  {
    if rows == [] || |s.scored| >= env.candidateCap {
      assert s.scored + [] == s.scored;
    } else {
      var s1 := Examine(env, policy, s, rows[0]);
      OneTurn(env, policy, base, rows, s);
      ScanTakesFirstEligible(env, policy, base, rows[1..], s1);
      TakenAfterTurn(s.scored, HeadScore(env, s.registry, base, rows[0]), EligibleScores(env, s1.registry, base, rows[1..]),
                     EligibleScores(env, s.registry, base, rows), env.candidateCap);
    }
  }

  /** A row is examined exactly when the rows before it do not fill the cap. */
  lemma {:induction false} ExaminedIffCapNotFilled(
    env: Env, policy: Policy, base: PolicyKey -> Answer, rows: seq<Catalog.Row>, s: Scan, i: nat)
    requires Constant(policy, base) && Agrees(s.memory.data, base) && i < |rows|
    ensures i < ScanRows(env, policy, rows, s).examined - s.examined <==>
      |s.scored| + |EligibleScores(env, s.registry, base, rows[..i])| < env.candidateCap
    decreases |rows|
  {
    if |s.scored| < env.candidateCap {
      var s1 := Examine(env, policy, s, rows[0]);
      ScanExaminesAPrefix(env, policy, rows[1..], s1);
      if i > 0 {
        ExamineAddsHead(env, policy, base, s, rows[0]);
        ExaminedIffCapNotFilled(env, policy, base, rows[1..], s1, i - 1);
        LookingKeepsEligible(env, s.registry, s1.registry, base, rows[1..][..i - 1]);
        assert rows[..i][1..] == rows[1..][..i - 1];
        EligibleHead(env, s.registry, base, rows[..i]);
      }
    }
  }

  /** No provider flips that has a row before which the eligible rows do not yet fill the cap. */
  ghost predicate NothingFlipsBeforeCap(env: Env, base: PolicyKey -> Answer, rows: seq<Catalog.Row>, reg: Registry) {
    forall i :: 0 <= i < |rows| && |EligibleScores(env, reg, base, rows[..i])| < env.candidateCap ==>
      !Flips(env, reg, rows[i].provider)
  }

  lemma UntouchedIffNothingFlips(
    env: Env, policy: Policy, base: PolicyKey -> Answer, rows: seq<Catalog.Row>, reg: Registry, m: Memory)
    requires Constant(policy, base) && Agrees(m.data, base)
    ensures ScanRows(env, policy, rows, Start(reg, m)).registry == reg <==> NothingFlipsBeforeCap(env, base, rows, reg)
  {
    var s := Start(reg, m);
    ScanUntouchedIffNothingFlips(env, policy, rows, s);
    forall i | 0 <= i < |rows|
      ensures i < ScanRows(env, policy, rows, s).examined <==>
        |EligibleScores(env, reg, base, rows[..i])| < env.candidateCap
    {
      ExaminedIffCapNotFilled(env, policy, base, rows, s, i);
    }
  }

  /**
   The router is documented as free of side effects on circuit state. Under a constant policy a call
   leaves the registry as it was exactly when no provider flips that has a row, in (provider, model)
   order, before which the eligible rows do not yet fill the cap.
   */
  lemma RegistryUntouchedIffNothingFlips(
    env: Env, policy: Policy, base: PolicyKey -> Answer, rows: seq<Catalog.Row>, reg: Registry, m: Memory)
    requires Constant(policy, base) && Agrees(m.data, base)
    ensures ScanCatalog(env, policy, rows, reg, m).registry == reg <==>
      NothingFlipsBeforeCap(env, base, Narrow(env.request, Sort(rows, Catalog.RowBefore)), reg)
  {
    UntouchedIffNothingFlips(env, policy, base, Narrow(env.request, Sort(rows, Catalog.RowBefore)), reg, m);
  }

  /**
   A routing call that moves a circuit from OPEN to HALF_OPEN, although its one candidate then wins. The
   circuit is what five failures make of a fresh breaker with the configuration the registry uses.
   */
  lemma RoutingFlipsACircuit(policy: Policy, w: Weights) returns (env: Env, row: Catalog.Row, reg: Registry)
    requires forall key, n :: policy(key, n) == Allow
    ensures env.breaker == Breaker.DEFAULT_CONFIG
    ensures row.provider in reg && reg[row.provider].circuit.state.Open?
    ensures reg[row.provider].circuit == Breaker.Run(env.breaker, seq(5, i => Breaker.Failed(0.0)))
    ensures var s := ScanCatalog(env, policy, [row], reg, Memory([], [], []));
      && Decide(env, [row], s).Ok?
      && row.provider in s.registry && s.registry[row.provider].circuit.state.HalfOpen?
  {
    var tripped := Breaker.FiveFailuresTrip(0.0);
    row := Catalog.Row("p", "m", Catalog.Descriptor(1.0, 1.0, 1, ""), {Catalog.Chat}, Catalog.Active, Catalog.YamlStatic);
    reg := map["p" := Provider(true, Restricted, Trusted, Healthy, tripped, None, false)];
    env := Env(Request("", "", false, Catalog.Chat, "alice", "TENANT", "a", Public), 30.0, 8, w, 1.0,
               Breaker.DEFAULT_CONFIG, 60.0, 256);
    assert Sort([row], Catalog.RowBefore) == [row];
    assert Narrow(env.request, [row]) == [row];
    var s1 := Examine(env, policy, Start(reg, Memory([], [], [])), row);
    assert |s1.scored| == 1 && s1.registry["p"].circuit.state.HalfOpen?;
    assert ScanRows(env, policy, [row][1..], s1) == s1;
  }

  /** Every examined row is either scored or dropped, so the three counts add up. */
  lemma {:induction false} ScanCountsAddUp(env: Env, policy: Policy, rows: seq<Catalog.Row>, s: Scan)
    requires |s.scored| + s.dropped == s.examined
    ensures var t := ScanRows(env, policy, rows, s);
      && |t.scored| + t.dropped == t.examined
      && t.examined <= s.examined + |rows|
      && (t.examined < s.examined + |rows| ==> |t.scored| >= env.candidateCap)
    decreases |rows|
  {
    if rows != [] && |s.scored| < env.candidateCap {
      ScanCountsAddUp(env, policy, rows[1..], Examine(env, policy, s, rows[0]));
    }
  }

  /** Considered candidates = filtered ones + the chain + the rows the cap left unexamined. */
  lemma ConsideredIsAccountedFor(env: Env, policy: Policy, rows: seq<Catalog.Row>, reg: Registry, m: Memory)
    ensures var s := ScanCatalog(env, policy, rows, reg, m);
      var d := Decide(env, rows, s);
      d.Ok? ==>
        var unexamined := |Narrow(env.request, Sort(rows, Catalog.RowBefore))| - s.examined;
        && d.value.considered == |rows|
        && d.value.considered == d.value.filtered + |d.value.chain| + unexamined
        && unexamined >= 0
        && (unexamined > 0 ==> |d.value.chain| >= env.candidateCap)
  {
    ScanCountsAddUp(env, policy, Narrow(env.request, Sort(rows, Catalog.RowBefore)), Start(reg, m));
  }

  /*** The chain ***/

  ghost predicate DistinctRows(rows: seq<Catalog.Row>) {
    forall i, j :: 0 <= i < j < |rows| ==> Catalog.KeyOf(rows[i]) != Catalog.KeyOf(rows[j])
  }

  lemma OrdersAreStrict()
    ensures StrictOrder(Catalog.RowBefore) && StrictOrder(ScoredBefore)
  {
    KeyLessIsStrictTotal();
    forall a, b, c | ScoredBefore(a, b) && ScoredBefore(b, c) ensures ScoredBefore(a, c) {
      var ka, kb, kc := (a.provider, a.model), (b.provider, b.model), (c.provider, c.model);
      assert KeyLess(ka, kb) && KeyLess(kb, kc) ==> KeyLess(ka, kc);
    }
  }

  lemma DistinctRowsCompare(rows: seq<Catalog.Row>)
    requires DistinctRows(rows)
    ensures Comparable(rows, Catalog.RowBefore)
  {
    KeyLessIsStrictTotal();
  }

  lemma {:induction false} NarrowKeepsSorted(q: Request, rows: seq<Catalog.Row>)
    requires Sorted(rows, Catalog.RowBefore)
    ensures Sorted(Narrow(q, rows), Catalog.RowBefore)
  {
    if rows != [] {
      assert Sorted(rows[1..], Catalog.RowBefore);
      NarrowKeepsSorted(q, rows[1..]);
      var rest := Narrow(q, rows[1..]);
      forall i | 0 <= i < |rest| ensures Catalog.RowBefore(rows[0], rest[i]) {
        assert rest[i] in rows[1..];
        var j :| 0 <= j < |rows[1..]| && rows[1..][j] == rest[i];
        assert rows[j + 1] == rest[i];
      }
    }
  }

  ghost predicate DistinctScored(s: seq<Scored>) {
    forall i, j :: 0 <= i < j < |s| ==> (s[i].provider, s[i].model) != (s[j].provider, s[j].model)
  }

  lemma {:induction false} EligibleAreDistinct(env: Env, reg: Registry, base: PolicyKey -> Answer, rows: seq<Catalog.Row>)
    requires DistinctRows(rows)
    ensures DistinctScored(EligibleScores(env, reg, base, rows))
    ensures forall x :: x in EligibleScores(env, reg, base, rows) ==>
      exists i :: 0 <= i < |rows| && Catalog.KeyOf(rows[i]) == (x.provider, x.model)
  {
    if rows != [] {
      assert DistinctRows(rows[1..]);
      EligibleAreDistinct(env, reg, base, rows[1..]);
      var rest := EligibleScores(env, reg, base, rows[1..]);
      forall x | x in rest
        ensures exists i :: 0 < i < |rows| && Catalog.KeyOf(rows[i]) == (x.provider, x.model)
      {
        var j :| 0 <= j < |rows[1..]| && Catalog.KeyOf(rows[1..][j]) == (x.provider, x.model);
        assert rows[j + 1] == rows[1..][j];
      }
      assert Catalog.KeyOf(rows[0]) == (rows[0].provider, rows[0].model);
      forall i | 0 <= i < |rest| ensures (rest[i].provider, rest[i].model) != (rows[0].provider, rows[0].model) {
        assert rest[i] in rest;
      }
    }
  }

  lemma SortedRowsAreDistinct(rows: seq<Catalog.Row>)
    requires Sorted(rows, Catalog.RowBefore)
    ensures DistinctRows(rows)
  {
    KeyLessIsStrictTotal();
  }

  lemma DistinctScoredCompare(s: seq<Scored>)
    requires DistinctScored(s)
    ensures Comparable(s, ScoredBefore)
  {
    KeyLessIsStrictTotal();
  }

  /** The eligible rows of a catalog in (provider, model) order, read off without cache, loop or cap. */
  function Candidates(env: Env, reg: Registry, base: PolicyKey -> Answer, rows: seq<Catalog.Row>): seq<Scored> {
    EligibleScores(env, reg, base, Narrow(env.request, Sort(rows, Catalog.RowBefore)))
  }

  lemma CandidatesAreDistinct(env: Env, reg: Registry, base: PolicyKey -> Answer, rows: seq<Catalog.Row>)
    requires DistinctRows(rows)
    ensures DistinctScored(Candidates(env, reg, base, rows))
  {
    OrdersAreStrict();
    DistinctRowsCompare(rows);
    SortSorts(rows, Catalog.RowBefore);
    var narrowed := Narrow(env.request, Sort(rows, Catalog.RowBefore));
    NarrowKeepsSorted(env.request, Sort(rows, Catalog.RowBefore));
    SortedRowsAreDistinct(narrowed);
    EligibleAreDistinct(env, reg, base, narrowed);
  }

  lemma ScanPicksCandidates(
    env: Env, policy: Policy, base: PolicyKey -> Answer, rows: seq<Catalog.Row>, reg: Registry, m: Memory)
    requires Constant(policy, base) && Agrees(m.data, base)
    ensures ScanCatalog(env, policy, rows, reg, m).scored == Take(Candidates(env, reg, base, rows), env.candidateCap)
  {
    ScanTakesFirstEligible(env, policy, base, Narrow(env.request, Sort(rows, Catalog.RowBefore)), Start(reg, m));
    var picked := Take(Candidates(env, reg, base, rows), env.candidateCap);
    assert [] + picked == picked;
  }

  lemma PickedSortStrictly(candidates: seq<Scored>, cap: int)
    requires DistinctScored(candidates)
    ensures DistinctScored(Take(candidates, cap))
    ensures Sorted(Sort(Take(candidates, cap), ScoredBefore), ScoredBefore)
  {
    OrdersAreStrict();
    DistinctScoredCompare(Take(candidates, cap));
    SortSorts(Take(candidates, cap), ScoredBefore);
  }

  /**
   The chain consists of exactly the first `candidateCap` candidates in (provider, model) order,
   strictly sorted by (score, provider, model), without duplicates; with no candidate, or a cap of
   zero, routing fails.
   */
  lemma ChainIsFirstCandidatesByScore(
    env: Env, policy: Policy, base: PolicyKey -> Answer, rows: seq<Catalog.Row>, reg: Registry, m: Memory)
    requires Constant(policy, base) && Agrees(m.data, base) && DistinctRows(rows)
    ensures var d := Decide(env, rows, ScanCatalog(env, policy, rows, reg, m));
      var picked := Take(Candidates(env, reg, base, rows), env.candidateCap);
      && (d.Err? <==> picked == [])
      && (d.Ok? ==>
            && |d.value.chain| == |picked|
            && (forall x :: x in d.value.chain <==> x in picked)
            && Sorted(d.value.chain, ScoredBefore)
            && DistinctScored(picked))
  {
    ScanPicksCandidates(env, policy, base, rows, reg, m);
    CandidatesAreDistinct(env, reg, base, rows);
    PickedSortStrictly(Candidates(env, reg, base, rows), env.candidateCap);
  }

  /** The decision, and everything the call leaves behind, do not depend on catalog insertion order. */
  lemma InsertionOrderIsIrrelevant(
    env: Env, policy: Policy, rows: seq<Catalog.Row>, shuffled: seq<Catalog.Row>, reg: Registry, m: Memory)
    requires DistinctRows(rows) && DistinctRows(shuffled)
    requires forall r :: r in rows <==> r in shuffled
    ensures ScanCatalog(env, policy, rows, reg, m) == ScanCatalog(env, policy, shuffled, reg, m)
    ensures var s := ScanCatalog(env, policy, rows, reg, m); Decide(env, rows, s) == Decide(env, shuffled, s)
  {
    OrdersAreStrict();
    DistinctRowsCompare(rows);
    DistinctRowsCompare(shuffled);
    SortIgnoresOrder(rows, shuffled, Catalog.RowBefore);
    assert |rows| == |Sort(rows, Catalog.RowBefore)| == |shuffled|;
  }

  /*** Routing without any cache ***/

  /** The loop body with the policy asked directly on every turn; the memory plays no part. */
  function ExamineDirectly(env: Env, base: PolicyKey -> Answer, s: Scan, row: Catalog.Row): Scan {
    var looked := s.(examined := s.examined + 1, registry := Look(env, s.registry, row.provider));
    if row.provider !in s.registry || !Admitted(env, s.registry[row.provider])
       || base(QuestionFor(env.request, row)).Deny?
    then looked.(dropped := s.dropped + 1)
    else looked.(scored :=
      s.scored + [Scored(Score(env, row.descriptor, s.registry[row.provider]), row.provider, row.model)])
  }

  function ScanDirectly(env: Env, base: PolicyKey -> Answer, rows: seq<Catalog.Row>, s: Scan): Scan
    decreases |rows|
  {
    if rows == [] || |s.scored| >= env.candidateCap then s
    else ScanDirectly(env, base, rows[1..], ExamineDirectly(env, base, s, rows[0]))
  }

  lemma {:induction false} ScanEqualsDirectScan(
    env: Env, policy: Policy, base: PolicyKey -> Answer, rows: seq<Catalog.Row>, s: Scan, u: Scan)
    requires Constant(policy, base) && Agrees(s.memory.data, base)
    requires s.(memory := u.memory) == u
    ensures ScanRows(env, policy, rows, s).(memory := u.memory) == ScanDirectly(env, base, rows, u)
    decreases |rows|
  {
    if rows != [] && |s.scored| < env.candidateCap {
      AskAgrees(s.memory, env, QuestionFor(env.request, rows[0]), policy, base);
      ScanEqualsDirectScan(env, policy, base, rows[1..], Examine(env, policy, s, rows[0]),
                           ExamineDirectly(env, base, u, rows[0]));
    }
  }

  /** The decision of a call that has no cache and asks the policy for every admitted candidate. */
  function DirectDecision(env: Env, base: PolicyKey -> Answer, rows: seq<Catalog.Row>, reg: Registry)
    : Result<Decision, RoutingError>
  {
    var narrowed := Narrow(env.request, Sort(rows, Catalog.RowBefore));
    Decide(env, rows, ScanDirectly(env, base, narrowed, Start(reg, Memory([], [], []))))
  }

  /** Under a constant policy a call with the cache decides like one without any cache. */
  lemma CachedEqualsUncached(
    env: Env, policy: Policy, base: PolicyKey -> Answer, rows: seq<Catalog.Row>, reg: Registry, m: Memory)
    requires Constant(policy, base) && Agrees(m.data, base)
    ensures Decide(env, rows, ScanCatalog(env, policy, rows, reg, m)) == DirectDecision(env, base, rows, reg)
  {
    var narrowed := Narrow(env.request, Sort(rows, Catalog.RowBefore));
    ScanEqualsDirectScan(env, policy, base, narrowed, Start(reg, m), Start(reg, Memory([], [], [])));
  }

  /*** Whom the chain may hold, whatever the policy answers and the cache holds ***/

  /** An accepted candidate is a row whose provider passed every registry condition before the call. */
  ghost predicate FromAdmitted(env: Env, was: Registry, rows: seq<Catalog.Row>, x: Scored) {
    exists row :: row in rows && row.provider == x.provider && row.model == x.model && Reaches(env, was, row)
  }

  lemma {:induction false} ScanAcceptsAdmitted(
    env: Env, policy: Policy, rows: seq<Catalog.Row>, s: Scan, was: Registry, all: seq<Catalog.Row>)
    requires LookedAt(env, was, s.registry) && forall r :: r in rows ==> r in all
    requires forall x :: x in s.scored ==> FromAdmitted(env, was, all, x)
    ensures forall x :: x in ScanRows(env, policy, rows, s).scored ==> FromAdmitted(env, was, all, x)
    decreases |rows|
  {
    if rows != [] && |s.scored| < env.candidateCap {
      var s1, row := Examine(env, policy, s, rows[0]), rows[0];
      LookKeepsLookedAt(env, was, s.registry, row.provider);
      forall x | x in s1.scored ensures FromAdmitted(env, was, all, x) {
        if x !in s.scored {
          LookedTwice(env, was[row.provider]);
          assert row in all && Reaches(env, was, row);
        }
      }
      ScanAcceptsAdmitted(env, policy, rows[1..], s1, was, all);
    }
  }

  /**
   Every member of a chain, under any policy and any cache: it is a catalog row the request did not
   exclude by name, and its provider was registered, enabled, not disabled at run time, not cooling
   down, not UNAVAILABLE, not OPEN before the end of its open period, and cleared for the request.
   */
  lemma ChainMembersAreCleared(
    env: Env, policy: Policy, rows: seq<Catalog.Row>, reg: Registry, m: Memory, i: nat)
    requires Decide(env, rows, ScanCatalog(env, policy, rows, reg, m)).Ok?
    requires i < |Decide(env, rows, ScanCatalog(env, policy, rows, reg, m)).value.chain|
    ensures var x, q := Decide(env, rows, ScanCatalog(env, policy, rows, reg, m)).value.chain[i], env.request;
      && (exists row :: row in rows && row.provider == x.provider && row.model == x.model)
      && (q.provider == "" || q.provider == x.provider) && (q.model == "" || q.model == x.model)
      && x.provider in reg
      && var p := reg[x.provider];
         && p.enabled && !p.runtimeDisabled
         && (p.circuit.state == Breaker.Open ==>
               p.circuit.openedAt.Some? && env.now - p.circuit.openedAt.value >= env.breaker.openSeconds)
         && (p.cooldownUntil.None? || p.cooldownUntil.value <= env.now)
         && p.health != Unavailable
         && (q.sensitivity == Restricted ==> p.maxSensitivity == Restricted)
         && (q.sensitivity == Confidential ==> p.maxSensitivity == Confidential || p.maxSensitivity == Restricted)
         && (q.sensitivity == Internal ==> p.maxSensitivity != Public)
  {
    var s := ScanCatalog(env, policy, rows, reg, m);
    var narrowed := Narrow(env.request, Sort(rows, Catalog.RowBefore));
    ScanAcceptsAdmitted(env, policy, narrowed, Start(reg, m), reg, narrowed);
    var x := Decide(env, rows, s).value.chain[i];
    assert x in Sort(s.scored, ScoredBefore) && x in s.scored;
    assert FromAdmitted(env, reg, narrowed, x);
    var row :| row in narrowed && row.provider == x.provider && row.model == x.model && Reaches(env, reg, row);
    EligibleIffCleared(env, reg, key => Allow, row);
  }

  /** An explicit provider and model keep exactly the rows that carry them; an empty name keeps all. */
  lemma NarrowKeepsByName(q: Request, rows: seq<Catalog.Row>, row: Catalog.Row)
    ensures row in Narrow(q, rows) <==>
      row in rows && (q.provider != "" ==> row.provider == q.provider) && (q.model != "" ==> row.model == q.model)
  {}

  /*** The orders, in terms of scores and names ***/

  /** An earlier member has the lower score or, with equal scores, the earlier provider or then the earlier model. */
  lemma ChainIsOrderedBy(
    env: Env, policy: Policy, base: PolicyKey -> Answer, rows: seq<Catalog.Row>, reg: Registry, m: Memory, i: nat, j: nat)
    requires Constant(policy, base) && Agrees(m.data, base) && DistinctRows(rows)
    requires Decide(env, rows, ScanCatalog(env, policy, rows, reg, m)).Ok?
    requires i < j < |Decide(env, rows, ScanCatalog(env, policy, rows, reg, m)).value.chain|
    ensures var chain := Decide(env, rows, ScanCatalog(env, policy, rows, reg, m)).value.chain;
      var a, b := chain[i], chain[j];
      || a.score < b.score
      || (a.score == b.score && (TextLess(a.provider, b.provider) || (a.provider == b.provider && TextLess(a.model, b.model))))
  {
    ChainIsFirstCandidatesByScore(env, policy, base, rows, reg, m);
  }

  /** The rows are considered by provider, and by model within one provider. */
  lemma RowsAreConsideredByName(rows: seq<Catalog.Row>, i: nat, j: nat)
    requires DistinctRows(rows) && i < j < |rows|
    ensures var a, b := Sort(rows, Catalog.RowBefore)[i], Sort(rows, Catalog.RowBefore)[j];
      TextLess(a.provider, b.provider) || (a.provider == b.provider && TextLess(a.model, b.model))
  {
    OrdersAreStrict();
    DistinctRowsCompare(rows);
    SortSorts(rows, Catalog.RowBefore);
  }

  /*** What each criterion adds to a score ***/

  lemma TimesDifference(w: real, x: real, y: real)
    ensures w * x - w * y == w * (x - y)
  {}

  /** Prices count by their sum and the cost weight, up to the cap. */
  lemma ScoreOfPrices(env: Env, a: Catalog.Descriptor, b: Catalog.Descriptor, p: Provider)
    requires a.contextWindow == b.contextWindow
    ensures var x, y := a.inputPerMillion + a.outputPerMillion, b.inputPerMillion + b.outputPerMillion;
      && (x <= env.costCap && y <= env.costCap ==> Score(env, a, p) - Score(env, b, p) == env.weights.cost * (x - y))
      && (x >= env.costCap && y >= env.costCap ==> Score(env, a, p) == Score(env, b, p))
  {
    TimesDifference(env.weights.cost, CappedCost(env, a), CappedCost(env, b));
  }

  /** The context window counts by its reciprocal and the latency weight; below one it counts as one. */
  lemma ScoreOfContext(env: Env, a: Catalog.Descriptor, b: Catalog.Descriptor, p: Provider)
    requires a.inputPerMillion + a.outputPerMillion == b.inputPerMillion + b.outputPerMillion
    ensures a.contextWindow >= 1 && b.contextWindow >= 1 ==>
      Score(env, a, p) - Score(env, b, p) ==
        env.weights.latencyProxy * (1.0 / (a.contextWindow as real) - 1.0 / (b.contextWindow as real))
    ensures a.contextWindow <= 1 && b.contextWindow <= 1 ==> Score(env, a, p) == Score(env, b, p)
  {
    TimesDifference(env.weights.latencyProxy, LatencyProxy(a), LatencyProxy(b));
  }

  /** Degraded health, trust and a clearance that equals the request's sensitivity each move the score by their weight. */
  lemma ScoreOfProviders(env: Env, d: Catalog.Descriptor, p: Provider)
    ensures !p.health.Degraded? ==> Score(env, d, p.(health := Degraded)) == Score(env, d, p) + env.weights.degradedPenalty
    ensures p.tier == RestrictedTier ==>
      && Score(env, d, p.(tier := Trusted)) == Score(env, d, p) - env.weights.trustedBonus
      && Score(env, d, p.(tier := Untrusted)) == Score(env, d, p) + env.weights.untrustedPenalty
    ensures p.maxSensitivity != env.request.sensitivity ==>
      Score(env, d, p.(maxSensitivity := env.request.sensitivity)) == Score(env, d, p) - env.weights.sensitivityMatchBonus
  {}

  /*** What a lower score means ***/

  ghost predicate NonNegative(w: Weights) {
    && w.cost >= 0.0 && w.latencyProxy >= 0.0 && w.sensitivityMatchBonus >= 0.0
    && w.degradedPenalty >= 0.0 && w.trustedBonus >= 0.0 && w.untrustedPenalty >= 0.0
  }

  function TierRank(t: Tier): nat {
    match t
    case Trusted => 0
    case RestrictedTier => 1
    case Untrusted => 2
  }

  /** `a` is no worse than `b` on every criterion the router scores. */
  ghost predicate NoWorse(env: Env, a: Catalog.Descriptor, p: Provider, b: Catalog.Descriptor, q: Provider) {
    && a.inputPerMillion + a.outputPerMillion <= b.inputPerMillion + b.outputPerMillion
    && a.contextWindow >= b.contextWindow
    && (p.health.Degraded? ==> q.health.Degraded?)
    && TierRank(p.tier) <= TierRank(q.tier)
    && (q.maxSensitivity == env.request.sensitivity ==> p.maxSensitivity == env.request.sensitivity)
  }

  lemma TimesIsMonotone(w: real, x: real, y: real)
    requires w >= 0.0 && x <= y
    ensures w * x <= w * y
  {}

  lemma WeightedIsMonotone(v: real, x: real, x': real, w: real, y: real, y': real)
    requires v >= 0.0 && w >= 0.0 && x <= x' && y <= y'
    ensures Weighted(v, x, w, y) <= Weighted(v, x', w, y')
  {
    var a, a', b, b' := v * x, v * x', w * y, w * y';
    assert a <= a' by { TimesIsMonotone(v, x, x'); }
    assert b <= b' by { TimesIsMonotone(w, y, y'); }
    assert a + b <= a' + b';
  }

  lemma ReciprocalIsAntitone(x: real, y: real)
    requires 0.0 < x <= y
    ensures 1.0 / y <= 1.0 / x
  {
    assert 1.0 / y == (1.0 / y) * (1.0 / x) * x;
    assert 1.0 / x == (1.0 / x) * (1.0 / y) * y;
    TimesIsMonotone((1.0 / x) * (1.0 / y), x, y);
  }

  lemma LatencyRespectsContext(a: Catalog.Descriptor, b: Catalog.Descriptor)
    requires a.contextWindow >= b.contextWindow
    ensures LatencyProxy(a) <= LatencyProxy(b)
  {
    ReciprocalIsAntitone(Max(b.contextWindow, 1) as real, Max(a.contextWindow, 1) as real);
  }

  lemma AdjustmentRespectsProvider(env: Env, p: Provider, q: Provider)
    requires NonNegative(env.weights)
    requires p.health.Degraded? ==> q.health.Degraded?
    requires TierRank(p.tier) <= TierRank(q.tier)
    requires q.maxSensitivity == env.request.sensitivity ==> p.maxSensitivity == env.request.sensitivity
    ensures Adjustment(env, p) <= Adjustment(env, q)
  {}

  /** With weights that are not negative, a candidate no worse on every criterion never scores higher. */
  lemma ScoreRespectsEveryCriterion(env: Env, a: Catalog.Descriptor, p: Provider, b: Catalog.Descriptor, q: Provider)
    requires NonNegative(env.weights) && NoWorse(env, a, p, b, q)
    ensures Score(env, a, p) <= Score(env, b, q)
  {
    LatencyRespectsContext(a, b);
    AdjustmentRespectsProvider(env, p, q);
    WeightedIsMonotone(env.weights.cost, CappedCost(env, a), CappedCost(env, b),
                       env.weights.latencyProxy, LatencyProxy(a), LatencyProxy(b));
  }

  /** After a question was put to the policy it is answered from the cache until its lifetime ends. */
  lemma AskedOncePerLifetime(m: Memory, env: Env, key: PolicyKey, policy: Policy, later: Env)
    requires DistinctKeys(m.data) && |m.data| <= env.maxEntries && env.maxEntries >= 1
    requires Hit(m, env, key).None?
    ensures var t := Ask(m, env, key, policy);
      && t.consults == m.consults + [Consult(key, env.now, policy(key, |m.consults|))]
      && Hit(t, later, key) == if later.now < env.now + env.ttl then Some(policy(key, |m.consults|)) else None
  {
    var data := GetData(m.data, key, env.now);
    RemoveKeepsDistinct(m.data, key);
    LookupFinds(m.data, key);
    assert DistinctKeys(data) && |data| <= env.maxEntries;
    SetThenGet(data, env.ttl, env.maxEntries, key, policy(key, |m.consults|), env.now, later.now);
  }

  /*** The freshness of policy answers, over any sequence of routes and any policy ***/

  /** The policy gave this answer to this question at `at`. */
  ghost predicate Given(consults: seq<Consult>, key: PolicyKey, at: real, answer: Answer) {
    Consult(key, at, answer) in consults
  }

  /** A use is backed by a consultation of the policy itself: just then, or less than one TTL earlier. */
  ghost predicate Backed(consults: seq<Consult>, use: Consult, ttl: real) {
    exists at :: Given(consults, use.key, at, use.answer) && at <= use.at && (at == use.at || use.at - at < ttl)
  }

  ghost predicate MemoryOk(m: Memory, ttl: real, max: nat, now: real) {
    && |m.data| <= max
    && (forall e :: e in m.data ==> Given(m.consults, e.key, e.expiresAt - ttl, e.answer))
    && (forall c :: c in m.consults ==> c.at <= now)
    && (forall u :: u in m.uses ==> Backed(m.consults, u, ttl))
  }

  lemma BackedStays(consults: seq<Consult>, more: Consult, use: Consult, ttl: real)
    requires Backed(consults, use, ttl)
    ensures Backed(consults + [more], use, ttl)
  {
    var at :| Given(consults, use.key, at, use.answer) && at <= use.at && (at == use.at || use.at - at < ttl);
    assert Given(consults + [more], use.key, at, use.answer);
  }

  lemma HitIsBacked(m: Memory, env: Env, key: PolicyKey, now: real)
    requires MemoryOk(m, env.ttl, env.maxEntries, now) && now <= env.now && Hit(m, env, key).Some?
    ensures Backed(m.consults, Consult(key, env.now, Hit(m, env, key).value), env.ttl)
  {
    LookupFinds(m.data, key);
    var e := Lookup(m.data, key).value;
    assert Given(m.consults, key, e.expiresAt - env.ttl, e.answer);
  }

  lemma AskKeepsMemory(m: Memory, env: Env, key: PolicyKey, policy: Policy, now: real)
    requires MemoryOk(m, env.ttl, env.maxEntries, now) && now <= env.now
    ensures MemoryOk(Ask(m, env, key, policy), env.ttl, env.maxEntries, env.now)
  {
    var t := Ask(m, env, key, policy);
    var use := Consult(key, env.now, AnswerTo(m, env, key, policy));
    GetKeepsEntries(m.data, key, env.now);
    if Hit(m, env, key).Some? {
      HitIsBacked(m, env, key, now);
    } else {
      assert Given(t.consults, key, env.now, use.answer);
      assert Backed(t.consults, use, env.ttl);
      forall u | u in m.uses ensures Backed(t.consults, u, env.ttl) {
        BackedStays(m.consults, use, u, env.ttl);
      }
      StoredEntriesAreGiven(m, env, key, use.answer);
    }
  }

  lemma StoredEntriesAreGiven(m: Memory, env: Env, key: PolicyKey, answer: Answer)
    requires forall e :: e in m.data ==> Given(m.consults, e.key, e.expiresAt - env.ttl, e.answer)
    ensures var data := SetData(GetData(m.data, key, env.now), env.ttl, env.maxEntries, key, answer, env.now);
      && |data| <= env.maxEntries
      && forall e :: e in data ==>
           Given(m.consults + [Consult(key, env.now, answer)], e.key, e.expiresAt - env.ttl, e.answer)
  {
    GetKeepsEntries(m.data, key, env.now);
    var kept := GetData(m.data, key, env.now);
    var stored := Remove(kept, key) + [Entry(key, env.now + env.ttl, answer)];
    forall e | e in Evict(stored, env.maxEntries)
      ensures Given(m.consults + [Consult(key, env.now, answer)], e.key, e.expiresAt - env.ttl, e.answer)
    {
      assert e in stored;
      if e in m.data {
        assert Given(m.consults, e.key, e.expiresAt - env.ttl, e.answer);
      }
    }
  }

  lemma {:induction false} ScanKeepsMemory(env: Env, policy: Policy, rows: seq<Catalog.Row>, s: Scan, now: real)
    requires MemoryOk(s.memory, env.ttl, env.maxEntries, now) && now <= env.now
    ensures MemoryOk(ScanRows(env, policy, rows, s).memory, env.ttl, env.maxEntries, env.now)
    decreases |rows|
  {
    if rows != [] && |s.scored| < env.candidateCap {
      AskKeepsMemory(s.memory, env, QuestionFor(env.request, rows[0]), policy, now);
      var s1 := Examine(env, policy, s, rows[0]);
      ScanKeepsMemory(env, policy, rows[1..], s1, env.now);
    }
  }

  /** One routing call of a session: its environment, the registry it meets, and the catalog rows. */
  datatype Call = Call(env: Env, registry: Registry, rows: seq<Catalog.Row>)

  function Session(policy: Policy, calls: seq<Call>): Memory {
    if calls == [] then Memory([], [], [])
    else
      var c := calls[|calls| - 1];
      ScanCatalog(c.env, policy, c.rows, c.registry, Session(policy, calls[..|calls| - 1])).memory
  }

  ghost predicate Chronological(calls: seq<Call>, ttl: real, max: nat) {
    && (forall i :: 0 <= i < |calls| ==> calls[i].env.ttl == ttl && calls[i].env.maxEntries == max)
    && (forall i, j :: 0 <= i <= j < |calls| ==> calls[i].env.now <= calls[j].env.now)
  }

  lemma {:induction false} SessionKeepsMemory(policy: Policy, calls: seq<Call>, ttl: real, max: nat, now: real)
    requires Chronological(calls, ttl, max)
    requires calls != [] ==> calls[|calls| - 1].env.now <= now
    ensures MemoryOk(Session(policy, calls), ttl, max, now)
  {
    if calls != [] {
      var before, c := calls[..|calls| - 1], calls[|calls| - 1];
      assert before != [] ==> before[|before| - 1].env.now <= c.env.now;
      SessionKeepsMemory(policy, before, ttl, max, c.env.now);
      ScanKeepsMemory(c.env, policy, Narrow(c.env.request, Sort(c.rows, Catalog.RowBefore)),
                      Start(c.registry, Session(policy, before)), c.env.now);
    }
  }

  /**
   Over any sequence of routing calls under a nondecreasing clock, with any policy and any registry
   changes in between: every answer that routing used had been given by the policy to exactly that
   question, at that instant or less than one TTL earlier; and the cache never exceeds its bound.
   */
  lemma UsedAnswersAreFresh(policy: Policy, calls: seq<Call>, ttl: real, max: nat)
    requires Chronological(calls, ttl, max)
    ensures var m := Session(policy, calls);
      && |m.data| <= max
      && forall u :: u in m.uses ==>
           exists at :: Consult(u.key, at, u.answer) in m.consults && at <= u.at && (at == u.at || u.at - at < ttl)
  {
    if calls != [] {
      SessionKeepsMemory(policy, calls, ttl, max, calls[|calls| - 1].env.now);
    }
    var m := Session(policy, calls);
    forall u | u in m.uses
      ensures exists at :: Consult(u.key, at, u.answer) in m.consults && at <= u.at && (at == u.at || u.at - at < ttl)
    {
      assert Backed(m.consults, u, ttl);
      var at :| Given(m.consults, u.key, at, u.answer) && at <= u.at && (at == u.at || u.at - at < ttl);
      assert Consult(u.key, at, u.answer) in m.consults;
    }
  }

  lemma {:induction false} SessionAgrees(policy: Policy, base: PolicyKey -> Answer, calls: seq<Call>)
    requires Constant(policy, base)
    ensures Agrees(Session(policy, calls).data, base)
  {
    if calls != [] {
      var before, c := calls[..|calls| - 1], calls[|calls| - 1];
      SessionAgrees(policy, base, before);
      ScanKeepsAgreement(c.env, policy, base, Narrow(c.env.request, Sort(c.rows, Catalog.RowBefore)),
                         Start(c.registry, Session(policy, before)));
    }
  }

  /** After any earlier calls, despite expiry and eviction, a call decides as if there were no cache. */
  lemma CacheIsTransparentInSessions(policy: Policy, base: PolicyKey -> Answer, calls: seq<Call>, next: Call)
    requires Constant(policy, base)
    ensures Decide(next.env, next.rows, ScanCatalog(next.env, policy, next.rows, next.registry, Session(policy, calls))) ==
      DirectDecision(next.env, base, next.rows, next.registry)
  {
    SessionAgrees(policy, base, calls);
    CachedEqualsUncached(next.env, policy, base, next.rows, next.registry, Session(policy, calls));
  }
}
