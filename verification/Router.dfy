/** The inference router: narrowing, filtering, policy-gating, scoring and sorting catalog rows. */
module Router {
  import opened Basics
  import opened Ordering
  import opened PolicyCache
  import Breaker
  import Catalog

  /*** Inputs ***/

  datatype Sensitivity = Public | Internal | Confidential | Restricted

  datatype Health = Healthy | Degraded | Unavailable | Disabled

  datatype Tier = Trusted | RestrictedTier | Untrusted

  /** A provider's configuration together with the ephemeral state the registry keeps for it. */
  datatype Provider = Provider(
    enabled: bool, maxSensitivity: Sensitivity, tier: Tier,
    health: Health, circuit: Breaker.Circuit, cooldownUntil: Option<real>, runtimeDisabled: bool)

  type Registry = map<string, Provider>

  /** A request; an empty provider or model means that none was named. */
  datatype Request = Request(
    provider: string, model: string, pinRequired: bool, capability: Catalog.Capability,
    actor: string, scopeType: string, scopeId: string, sensitivity: Sensitivity)

  datatype Weights = Weights(
    cost: real, latencyProxy: real, sensitivityMatchBonus: real,
    degradedPenalty: real, trustedBonus: real, untrustedPenalty: real)

  /** What is fixed during one routing call. */
  datatype Env = Env(
    request: Request, now: real, candidateCap: int, weights: Weights, costCap: real,
    breaker: Breaker.Config, ttl: real, maxEntries: nat)

  /** The policy engine: its answer to a question may depend on how many it has answered before. */
  type Policy = (PolicyKey, nat) -> Answer

  function Rank(s: Sensitivity): nat {
    match s
    case Public => 0
    case Internal => 1
    case Confidential => 2
    case Restricted => 3
  }

  function QuestionFor(q: Request, row: Catalog.Row): PolicyKey {
    PolicyKey(row.provider, row.model, if q.capability.Chat? then "chat" else "embedding",
              q.actor, q.scopeType, q.scopeId)
  }

  function Max(a: int, b: int): int { if a > b then a else b }

  function CappedCost(env: Env, d: Catalog.Descriptor): real {
    var listed := d.inputPerMillion + d.outputPerMillion;
    if env.costCap < listed then env.costCap else listed
  }

  function LatencyProxy(d: Catalog.Descriptor): real {
    1.0 / (Max(d.contextWindow, 1) as real)
  }

  function Adjustment(env: Env, p: Provider): real {
    var w := env.weights;
    (if p.health.Degraded? then w.degradedPenalty else 0.0)
      - (if p.tier.Trusted? then w.trustedBonus else 0.0)
      + (if p.tier.Untrusted? then w.untrustedPenalty else 0.0)
      - (if Rank(env.request.sensitivity) == Rank(p.maxSensitivity) then w.sensitivityMatchBonus else 0.0)
  }

  function Weighted(v: real, x: real, w: real, y: real): real {
    v * x + w * y
  }

  /** Lower is better. */
  function Score(env: Env, d: Catalog.Descriptor, p: Provider): real {
    Weighted(env.weights.cost, CappedCost(env, d), env.weights.latencyProxy, LatencyProxy(d)) + Adjustment(env, p)
  }

  predicate PinSatisfied(q: Request, resolvedPin: bool) {
    !q.pinRequired || (q.model != "" && q.provider != "") || resolvedPin
  }

  /** Whether a row survives the request's explicit provider and model. */
  predicate Named(q: Request, row: Catalog.Row) {
    (q.provider == "" || row.provider == q.provider) && (q.model == "" || row.model == q.model)
  }

  function Narrow(q: Request, rows: seq<Catalog.Row>): (r: seq<Catalog.Row>)
    ensures |r| <= |rows|
    ensures forall x :: x in r <==> x in rows && Named(q, x)
  {
    if rows == [] then []
    else
      var rest := Narrow(q, rows[1..]);
      if q.provider != "" && q.model != "" then
        if rows[0].provider == q.provider && rows[0].model == q.model then [rows[0]] + rest else rest
      else if q.provider != "" then
        if rows[0].provider == q.provider then [rows[0]] + rest else rest
      else if q.model != "" then
        if rows[0].model == q.model then [rows[0]] + rest else rest
      else [rows[0]] + rest
  }

  /*** Policy answers through the cache ***/

  datatype Consult = Consult(key: PolicyKey, at: real, answer: Answer)

  /** The cache, the questions put to the policy engine so far, and the answers routing has used. */
  datatype Memory = Memory(data: Data, consults: seq<Consult>, uses: seq<Consult>)

  function Hit(m: Memory, env: Env, key: PolicyKey): Option<Answer> {
    GetAnswer(m.data, key, env.now)
  }

  function AnswerTo(m: Memory, env: Env, key: PolicyKey, policy: Policy): Answer {
    if Hit(m, env, key).Some? then Hit(m, env, key).value else policy(key, |m.consults|)
  }

  function Ask(m: Memory, env: Env, key: PolicyKey, policy: Policy): Memory {
    var data := GetData(m.data, key, env.now);
    var answer := AnswerTo(m, env, key, policy);
    var used := m.uses + [Consult(key, env.now, answer)];
    if Hit(m, env, key).Some? then Memory(data, m.consults, used)
    else Memory(SetData(data, env.ttl, env.maxEntries, key, answer, env.now),
                m.consults + [Consult(key, env.now, answer)], used)
  }

  /*** The candidate loop ***/

  datatype Scored = Scored(score: real, provider: string, model: string)

  datatype Scan = Scan(scored: seq<Scored>, dropped: nat, examined: nat, registry: Registry, memory: Memory)

  /** The registry-side conditions, in the order they are asked. */
  predicate Admitted(env: Env, p: Provider) {
    && p.enabled && !p.runtimeDisabled
    && !Breaker.Query(env.breaker, p.circuit, env.now).state.Open?
    && !(p.cooldownUntil.Some? && env.now < p.cooldownUntil.value)
    && !p.health.Unavailable?
    && Rank(env.request.sensitivity) <= Rank(p.maxSensitivity)
  }

  /** Asking the circuit for its state may store HALF_OPEN; a disabled provider is not asked. */
  function Looked(env: Env, p: Provider): Provider {
    if p.enabled && !p.runtimeDisabled
    then p.(circuit := Breaker.Query(env.breaker, p.circuit, env.now)) else p
  }

  function Look(env: Env, reg: Registry, name: string): Registry {
    if name in reg then reg[name := Looked(env, reg[name])] else reg
  }

  /** The row gets as far as the policy question. */
  predicate Reaches(env: Env, reg: Registry, row: Catalog.Row) {
    row.provider in reg && Admitted(env, reg[row.provider])
  }

  predicate Accepts(env: Env, policy: Policy, reg: Registry, m: Memory, row: Catalog.Row) {
    Reaches(env, reg, row) && AnswerTo(m, env, QuestionFor(env.request, row), policy).Allow?
  }

  function ScoredRow(env: Env, p: Provider, row: Catalog.Row): Scored {
    Scored(Score(env, row.descriptor, p), row.provider, row.model)
  }

  function Examine(env: Env, policy: Policy, s: Scan, row: Catalog.Row): Scan {
    var looked := Look(env, s.registry, row.provider);
    var memory := if Reaches(env, s.registry, row) then Ask(s.memory, env, QuestionFor(env.request, row), policy) else s.memory;
    if Accepts(env, policy, s.registry, s.memory, row)
    then Scan(s.scored + [ScoredRow(env, s.registry[row.provider], row)], s.dropped, s.examined + 1, looked, memory)
    else Scan(s.scored, s.dropped + 1, s.examined + 1, looked, memory)
  }

  /** The loop over the narrowed rows; it stops once the candidate cap is reached. */
  function ScanRows(env: Env, policy: Policy, rows: seq<Catalog.Row>, s: Scan): Scan
    decreases |rows|
  {
    if rows == [] || |s.scored| >= env.candidateCap then s
    else ScanRows(env, policy, rows[1..], Examine(env, policy, s, rows[0]))
  }

  predicate ScoredBefore(a: Scored, b: Scored) {
    a.score < b.score || (a.score == b.score && KeyLess((a.provider, a.model), (b.provider, b.model)))
  }

  function Start(reg: Registry, m: Memory): Scan {
    Scan([], 0, 0, reg, m)
  }

  /** The scan of one routing call, over whatever enumeration of the catalog it was given. */
  function ScanCatalog(env: Env, policy: Policy, rows: seq<Catalog.Row>, reg: Registry, m: Memory): Scan {
    ScanRows(env, policy, Narrow(env.request, Sort(rows, Catalog.RowBefore)), Start(reg, m))
  }

  datatype RoutingError = InferenceDisabled | CapabilityDenied | PinRequired | NoCandidates

  /** `chain` is the primary followed by the fallbacks. */
  datatype Decision = Decision(chain: seq<Scored>, considered: nat, filtered: nat)

  function Decide(env: Env, rows: seq<Catalog.Row>, s: Scan): Result<Decision, RoutingError> {
    var narrowed := Narrow(env.request, Sort(rows, Catalog.RowBefore));
    if s.scored == [] then Err(NoCandidates)
    else Ok(Decision(Sort(s.scored, ScoredBefore), |rows|, |rows| - |narrowed| + s.dropped))
  }

  class InferenceRouter {
    const cache: BoundedPolicyCache
    var registry: Registry
    var consults: seq<Consult>
    var uses: seq<Consult>

    function Mem(): Memory
      reads this, cache
    {
      Memory(cache.data, consults, uses)
    }

    constructor (registry: Registry, cache: BoundedPolicyCache)
      ensures this.registry == registry && this.cache == cache && consults == [] && uses == []
    {
      this.registry, this.cache, consults, uses := registry, cache, [], [];
    }

    /** The cached policy gate of one candidate. */
    method Gate(env: Env, key: PolicyKey, policy: Policy) returns (answer: Answer)
      requires cache.Valid() && env.ttl == cache.ttl && env.maxEntries == cache.max
      modifies this`consults, this`uses, cache
      ensures cache.Valid()
      ensures Mem() == Ask(old(Mem()), env, key, policy) && answer == AnswerTo(old(Mem()), env, key, policy)
    {
      var cached := cache.Get(key, env.now);
      if cached.None? {
        answer := policy(key, |consults|);
        consults := consults + [Consult(key, env.now, answer)];
        cache.Set(key, answer, env.now);
      } else {
        answer := cached.value;
      }
      uses := uses + [Consult(key, env.now, answer)];
    }

    /** One turn of the candidate loop: the accepted candidate, if the row is accepted. */
    method Consider(env: Env, row: Catalog.Row, policy: Policy) returns (accepted: Option<Scored>)
      requires cache.Valid() && env.ttl == cache.ttl && env.maxEntries == cache.max
      modifies this, cache
      ensures cache.Valid()
      ensures registry == Look(env, old(registry), row.provider)
      ensures Mem() == if Reaches(env, old(registry), row)
        then Ask(old(Mem()), env, QuestionFor(env.request, row), policy) else old(Mem())
      ensures accepted == if Accepts(env, policy, old(registry), old(Mem()), row)
        then Some(ScoredRow(env, old(registry)[row.provider], row)) else None
    {
      var pid := row.provider;
      if pid !in registry || !registry[pid].enabled || registry[pid].runtimeDisabled {
        assert Look(env, registry, pid) == registry;
        return None;
      }
      var circuit := Breaker.Query(env.breaker, registry[pid].circuit, env.now);
      registry := registry[pid := registry[pid].(circuit := circuit)];
      var p := registry[pid];
      if circuit.state.Open?
         || (p.cooldownUntil.Some? && env.now < p.cooldownUntil.value)
         || p.health.Unavailable?
         || Rank(env.request.sensitivity) > Rank(p.maxSensitivity) {
        return None;
      }
      var answer := Gate(env, QuestionFor(env.request, row), policy);
      if answer.Deny? {
        return None;
      }
      assert Score(env, row.descriptor, p) == Score(env, row.descriptor, old(registry)[pid]);
      accepted := Some(Scored(Score(env, row.descriptor, p), pid, row.model));
    }

    method Route(env: Env, enabled: bool, gate: Answer, resolvedPin: bool, rows: seq<Catalog.Row>, policy: Policy)
      returns (r: Result<Decision, RoutingError>)
      requires cache.Valid() && env.ttl == cache.ttl && env.maxEntries == cache.max
      modifies this, cache
      ensures cache.Valid()
      ensures var q := env.request;
        if enabled && gate.Allow? && (!q.pinRequired || (q.model != "" && q.provider != "") || resolvedPin) then
          var s := ScanCatalog(env, policy, rows, old(registry), old(Mem()));
          r == Decide(env, rows, s) && registry == s.registry && Mem() == s.memory
        else
          && registry == old(registry) && Mem() == old(Mem())
          && r == Err(if !enabled then InferenceDisabled else if gate.Deny? then CapabilityDenied else PinRequired)
    {
      if !enabled {
        return Err(InferenceDisabled);
      }
      if gate.Deny? {
        return Err(CapabilityDenied);
      }
      if !PinSatisfied(env.request, resolvedPin) {
        return Err(PinRequired);
      }
      var candidates := Sort(rows, Catalog.RowBefore);
      var narrowed := Narrow(env.request, candidates);
      var scored, dropped := [], 0;
      ghost var examined: nat := 0;
      ghost var target := ScanCatalog(env, policy, rows, registry, Mem());
      var i := 0;
      while i < |narrowed| && |scored| < env.candidateCap
        invariant 0 <= i <= |narrowed|
        invariant cache.Valid()
        invariant dropped >= 0
        invariant ScanRows(env, policy, narrowed[i..], Scan(scored, dropped, examined, registry, Mem())) == target
      {
        assert narrowed[i..][1..] == narrowed[i + 1..];
        var accepted := Consider(env, narrowed[i], policy);
        if accepted.Some? {
          scored := scored + [accepted.value];
        } else {
          dropped := dropped + 1;
        }
        examined := examined + 1;
        i := i + 1;
      }
      if scored == [] {
        return Err(NoCandidates);
      }
      r := Ok(Decision(Sort(scored, ScoredBefore), |candidates|, |candidates| - |narrowed| + dropped));
    }
  }
}
