# Verified model of SyndicateClaw's stateful core

A Dafny 4.11 model of the parts of SyndicateClaw where state, time and concurrency meet: idempotent
inference, routing with its policy cache and circuit breaker, the model catalog, RBAC evaluation,
approvals, the audit pipeline with its dead-letter queue, lineage walks and the rate limiter. The whole
project is checked by `dafny verify dfyconfig.toml`.

Components that the source updates in place are classes; each method is proved against a specification
function of the old state. What the source promises is then proved of those functions, over all inputs,
all runs or all interleavings. Where several callers share a database, every transaction is one atomic
step, a raise inside it rolls it back, and a run is any finite interleaving of such steps.

| file | component |
|---|---|
| `Idempotency.dfy`, `IdempotencyProtocol.dfy` | the envelope store; any number of callers sharing it |
| `ChatExecution.dfy`, `ChatInference.dfy` | the fallback loop with its audit trail; one request from begin to finalization |
| `Breaker.dfy`, `PolicyCache.dfy`, `Catalog.dfy` | circuit breaker, TTL and LRU cache, catalog with its indexes |
| `PolicySharing.dfy` | concurrent routing calls on one policy cache |
| `Router.dfy`, `RoutingTheorems.dfy` | the router; what its decisions mean |
| `Rbac.dfy`, `RbacSessions.dfy` | scopes, role inheritance, evaluation, memo and cache; concurrent evaluations on one cache |
| `Approval.dfy` | authority resolution and the life of a request |
| `DeadLetter.dfy`, `DeadLetterRuns.dfy` | audit emission and retries; interleaved emitters, sweeps and operators |
| `Lineage.dfy`, `RateLimit.dfy` | provenance walk; sliding-window limiter |
| `Basics.dfy`, `Ordering.dfy` | shared datatypes; sorting and lexicographic orders |

Assumptions: inference ids and dead-letter row ids are fresh, request and policy hashes are injective,
the Redis server and its clients share one clock, and instants are integers or reals without rounding.
Environment behaviour (adapter replies, policy answers, database faults, deadlines) is an arbitrary
parameter.

## Where the code and its documentation differ

- A stale failure is documented as terminal for its key. It is so exactly when no caller still owns the
  key (`IdempotencyProtocol.FailureIsTerminalIffOrphaned`); `IdempotencyProtocol.SweptWhileOwnerRuns`
  reaches a stale failure whose owner is still running.
- Routing is documented as free of side effects on circuit state. Asking an OPEN circuit whose open
  period is over stores HALF_OPEN (`RoutingTheorems.RoutingFlipsACircuit`);
  `RoutingTheorems.RegistryUntouchedIffNothingFlips` says before the call whether this happens.
- The approval resolver is documented as always excluding the requester. Its last fallback can name the
  requester alone (`Approval.Resolve`, `Approval.SecurityIsAssignedItsOwnRequest`), and exactly then
  the request can never be decided (`Approval.ResolvedRequestsAreDecidableIff`).
- Scope containment is documented as staying within one tenant or team. It does so in every hierarchy
  exactly when the outer scope is not of a strictly broader type below the platform
  (`Rbac.ContainmentIsDocumentedIff`); a grant in one tenant reaches the teams of another
  (`Rbac.TenantGrantReachesForeignTeam`).
- The assignment cache drops the `expired` flag, so a hit can honour an expired grant
  (`Rbac.CacheRevivesExpiredGrant`); `Rbac.CachedAgreesIffNoExpiredGrant` says exactly when it matters.
- A retry budget belongs to a dead-letter row, not to its event. A retry counts against the row exactly when
  its write fails and no queue takes the event, or RESOLVED cannot be written, and the count itself can
  (`DeadLetter.RetryOfOneRow`); each row keeps its budget with or without a queue
  (`DeadLetter.TransientRowsLeavePending`). But a queue that takes the event back gives it a fresh row, so
  the event itself can be retried forever (`DeadLetter.BudgetStartsOverIff`,
  `DeadLetter.BouncingEventIsRetriedForever`).
- Sweeps take no lock. A row keeps its budget while its sweeps do not overlap, and m simultaneous holders
  exceed it by at most m - 1 (`DeadLetterRuns.RetriesBoundedByOverlap`), which some run reaches
  (`DeadLetterRuns.OverlapReachesTheBound`).
- A cached policy answer is fresh at the instant at which its routing call began
  (`PolicySharing.SharedAnswersAreFresh`). It is sure to be fresh at its use exactly when lookups come
  without delay (`PolicySharing.FreshAtUseIffNoDelay`).
- A version bump is documented to make a revocation take effect at once. It does exactly when no cache
  fill of the principal is in flight (`RbacSessions.BumpTakesEffectIff`).

## Model

| member | source | states |
|---|---|---|
| `Idempotency.IdempotencyStore.Acquire` | src/syndicateclaw/inference/idempotency.py:46-123 | one transaction: stale sweep of the acquired key, insert or nothing, read back; a hash conflict rolls everything back, other keys are untouched, and the caller is told whether it made the row |
| `Idempotency.IdempotencyStore.MarkExecuting` | src/syndicateclaw/inference/idempotency.py:125-144 | moves exactly the in-progress rows of the inference id to EXECUTING |
| `Idempotency.IdempotencyStore.UpdateCompleted` | src/syndicateclaw/inference/idempotency.py:146-163 | completes the rows of the inference id whatever their status, with the result, and clears the failure reason |
| `Idempotency.IdempotencyStore.UpdateFailed` | src/syndicateclaw/inference/idempotency.py:165-185 | fails the rows of the inference id whatever their status; the stored result is kept when none is given |
| `IdempotencyProtocol.BeginInference` | src/syndicateclaw/inference/service.py:78-131 | what a caller gets, read off the key's row before the call: ownership of a new key, a conflict, the stored response, the stored failure detail, the stored or stale reason of a dead key, or in-progress while the row is not stale; and what each leaves in the table; an empty key bypasses the store |
| `IdempotencyProtocol.StepKeepsInv` | src/syndicateclaw/inference/idempotency.py:67-185 | every atomic step of any caller keeps the invariant: unique ids, at most one owner per key, well-formed rows, responses equal to completed results |
| `IdempotencyProtocol.RunKeepsInv` | src/syndicateclaw/inference/idempotency.py:67-185 | the invariant holds after every finite interleaving of acquires, marks, finalizations, deaths and clock changes |
| `IdempotencyProtocol.AtMostOneExecution` | src/syndicateclaw/inference/service.py:84-131 | over every interleaving, at most one caller ever goes on to execute a key, and only once |
| `IdempotencyProtocol.AllResponsesEqual` | src/syndicateclaw/inference/service.py:100-131 | all responses that ever leave the service for one key are equal, the owner's own and every replay, also when the row was swept while the owner ran |
| `IdempotencyProtocol.OnlyCreatorsProceed` | src/syndicateclaw/inference/service.py:102-131 | no reachable row is TIMED_OUT, every COMPLETED row holds a response, so a caller proceeds to execution exactly when it created the row |
| `IdempotencyProtocol.StepKeepsBinding` | src/syndicateclaw/inference/idempotency.py:87-185 | one step keeps a key's hash and inference id, and a completed row's status and result |
| `IdempotencyProtocol.BindingsAndCompletionsAreFinal` | src/syndicateclaw/inference/idempotency.py:67-185 | through every continuation a bound key keeps its request hash and inference id, and a completed row its status and result |
| `IdempotencyProtocol.FailureIsTerminalIffOrphaned` | src/syndicateclaw/inference/idempotency.py:5-8 | a FAILED row stays FAILED in every continuation if and only if no caller still owns the key; the documentation calls every stale failure terminal |
| `IdempotencyProtocol.LiveOwnerCanStillComplete` | src/syndicateclaw/inference/idempotency.py:146-163 | the run by which a live owner turns a swept row into a COMPLETED one |
| `IdempotencyProtocol.SweptWhileOwnerRuns` | src/syndicateclaw/inference/idempotency.py:64-85 | a reachable state in which a row was swept to FAILED while its owner is still running |
| `IdempotencyProtocol.SweptOnlyWhenIdle` | src/syndicateclaw/inference/idempotency.py:64-85 | under a forward clock a row is swept only by a same-hash acquire of its key, when every earlier acquire and mark of the key is more than the stale period old |
| `IdempotencyProtocol.RunKeepsTouches` | src/syndicateclaw/db/base.py:41-46 | no acquire or mark is newer than an in-progress row's `updated_at`, which the ORM refreshes on every flush |
| `IdempotencyProtocol.ConflictLeavesTableAlone` | src/syndicateclaw/inference/idempotency.py:116-120 | an acquire that raises a hash conflict leaves the whole table as it was, sweep included |
| `ChatInference.ExecuteAndFinalize` | src/syndicateclaw/inference/service.py:204-224 | the owner's one row is completed with the response, or failed with the failure record, or left in progress, according to how the execution ended and which finalizing writes succeed |
| `ChatInference.InferChat` | src/syndicateclaw/inference/service.py:191-224 | a response under a key equals what the key's row then stores; a completed key is replayed without executing or emitting anything; a first request that raises leaves its failure record, or a row in progress if that cannot be written; a conflict changes nothing |
| `ChatExecution.Execute` | src/syndicateclaw/inference/service.py:226-411 | the chain is tried in order, each position at most once; the first position not passed over decides the outcome, unless an audit write raises; the attempted positions are exact; the trail is one STARTED followed by exactly one COMPLETED or FAILED if and only if no adapter was missing and no audit write raised |
| `ChatExecution.DecidedByFields` | src/syndicateclaw/inference/service.py:287-411 | the decision in terms of the chain alone: the loop gets past exactly the positions that are skipped or whose adapter fails with an ordinary exception, a 404 or an error that is no validation error; a late position, a missing adapter, a success or a validation error ends it there |
| `ChatExecution.ExactlyOneTerminalEvent` | src/syndicateclaw/inference/service.py:236-411 | every trail an outcome leaves has exactly one terminal event if and only if no adapter was missing and no audit write raised; COMPLETED exactly for a response |
| `ChatExecution.ResponseIsFirstSuccess` | src/syndicateclaw/inference/service.py:287-391 | a response is the reply of the last attempted position, and no earlier attempt succeeded |
| `Breaker.SlidingWindowCircuitBreaker.State` | src/syndicateclaw/inference/registry.py:35-42 | reports the stored state, storing HALF_OPEN once the open period is over |
| `Breaker.SlidingWindowCircuitBreaker.RecordFailure` | src/syndicateclaw/inference/registry.py:44-51 | appends, prunes the old failures from the front, and opens at the threshold from any state |
| `Breaker.SlidingWindowCircuitBreaker.RecordSuccess` | src/syndicateclaw/inference/registry.py:53-59 | closes from HALF_OPEN, clears the failures when CLOSED, is ignored when OPEN |
| `Breaker.FailurePrunesToWindow` | src/syndicateclaw/inference/registry.py:44-48 | popping old failures off the front leaves exactly the window that ends at the new failure |
| `Breaker.DequeIsWindowOfHistory` | src/syndicateclaw/inference/registry.py:35-59 | for every chronological run the deque is the window of the failures since the last honoured success, and CLOSED means fewer than the threshold of them |
| `Breaker.StoredOpenComesFromTrip` | src/syndicateclaw/inference/registry.py:49-51 | a state other than CLOSED goes back to a failure that filled the window |
| `Breaker.NothingLeavesOpenEarly` | src/syndicateclaw/inference/registry.py:35-59 | after a trip no sequence of calls leaves OPEN before the open period is over |
| `Breaker.OpenReportedIffRecentTrip` | src/syndicateclaw/inference/registry.py:35-51 | a query reports OPEN if and only if some trip lies less than `open_seconds` before it |
| `Breaker.QueryMattersIffOpenPeriodOver` | src/syndicateclaw/inference/registry.py:35-59 | a query changes what a following success does if and only if the circuit is OPEN with its open period over |
| `Breaker.SuccessClosesIffNotOpen` | src/syndicateclaw/inference/registry.py:53-59 | a success ends in CLOSED without failures if and only if it does not meet OPEN; asked after the open period, the circuit then closes afresh |
| `PolicyCache.BoundedPolicyCache.Get` | src/syndicateclaw/inference/policy_gates.py:20-30 | the answer of the key's entry while it lives; an expired entry of the key is deleted, every other entry stays, and a hit moves to the recent end |
| `PolicyCache.BoundedPolicyCache.Set` | src/syndicateclaw/inference/policy_gates.py:32-38 | stores the entry at the recent end; an old entry is lost if and only if the cache was full, without the key, and it was the one used longest ago |
| `PolicyCache.CacheIsBounded` | src/syndicateclaw/inference/policy_gates.py:15-38 | over any calls the cache never exceeds its bound and never holds a key twice |
| `PolicyCache.SetThenGet` | src/syndicateclaw/inference/policy_gates.py:20-38 | a stored answer is found exactly until its lifetime ends |
| `PolicyCache.EntriesAreInUseOrder` | src/syndicateclaw/inference/policy_gates.py:20-38 | over any calls the entries are ordered by their last use, so eviction removes the least recently used |
| `Router.Narrow` | src/syndicateclaw/inference/router.py:274-288 | keeps exactly the rows that match the explicitly named provider and model |
| `Router.InferenceRouter.Gate` | src/syndicateclaw/inference/router.py:205-226 | one policy question through the cache, consulting the policy only on a miss |
| `Router.InferenceRouter.Consider` | src/syndicateclaw/inference/router.py:180-240 | one turn of the candidate loop: the registry conditions in order, the policy, the score |
| `Router.InferenceRouter.Route` | src/syndicateclaw/inference/router.py:122-260 | the routing call: the three early refusals, the candidate loop, the sorted decision with its counts |
| `RoutingTheorems.ScanTakesFirstEligible` | src/syndicateclaw/inference/router.py:177-240 | under a constant policy the loop accepts exactly the first eligible rows up to the cap, whatever the cache held or evicted |
| `RoutingTheorems.EligibleIffCleared` | src/syndicateclaw/inference/router.py:41-51 | a row is eligible if and only if its provider is registered, enabled, not disabled at run time, not OPEN within its open period, not cooling down, not UNAVAILABLE and cleared for the request's sensitivity by name, and the policy allows exactly this provider, model, capability, actor and scope |
| `RoutingTheorems.ChainMembersAreCleared` | src/syndicateclaw/inference/router.py:177-240 | under any policy and cache, every member of a chain is a catalog row that the request does not exclude, at a provider that meets all these registry conditions |
| `RoutingTheorems.NarrowKeepsByName` | src/syndicateclaw/inference/router.py:274-288 | an explicit provider or model keeps exactly the rows that carry it |
| `RoutingTheorems.RowsAreConsideredByName` | src/syndicateclaw/inference/router.py:163-166 | rows are considered by provider, and by model within one provider |
| `RoutingTheorems.AskedOncePerLifetime` | src/syndicateclaw/inference/router.py:213-226 | a question put to the policy is answered from the cache exactly until its lifetime ends |
| `RoutingTheorems.ChainIsFirstCandidatesByScore` | src/syndicateclaw/inference/router.py:163-260 | primary plus fallbacks are exactly the first `cap` eligible rows in (provider, model) order, strictly sorted by (score, provider, model) without duplicates; routing fails if and only if there are none |
| `RoutingTheorems.ChainIsOrderedBy` | src/syndicateclaw/inference/router.py:248-250 | an earlier member of the chain has the lower score or, with equal scores, the earlier provider or then the earlier model |
| `Ordering.TextLessIff` | src/syndicateclaw/inference/router.py:163-166 | texts are ordered by the first character in which they differ, a prefix coming first |
| `RoutingTheorems.ConsideredIsAccountedFor` | src/syndicateclaw/inference/router.py:163-260 | considered = filtered + chain length + rows the cap left unexamined, and rows are left only when the cap was reached |
| `RoutingTheorems.InsertionOrderIsIrrelevant` | src/syndicateclaw/inference/router.py:163-166 | the decision, and all state the call leaves, do not depend on catalog insertion order |
| `RoutingTheorems.CachedEqualsUncached` | src/syndicateclaw/inference/router.py:205-229 | under a constant policy a decision with the cache equals that of a call which has no cache and asks the policy every time |
| `RoutingTheorems.CacheIsTransparentInSessions` | src/syndicateclaw/inference/router.py:205-229 | the same after any sequence of earlier routing calls, despite expiry and eviction |
| `RoutingTheorems.UsedAnswersAreFresh` | src/syndicateclaw/inference/policy_gates.py:15-38 | over any sequence of routing calls under a nondecreasing clock and any policy, each answer used was given by the policy for exactly that question then or less than one TTL earlier, and the cache stays within its bound |
| `PolicySharing.SharedAnswersAreFresh` | src/syndicateclaw/inference/router.py:205-226 | over every interleaving of routing calls that await the policy between lookup and store: the cache stays within its bound and each answer used had been given to exactly that question less than one TTL before the using call began, or after it began |
| `PolicySharing.AgesAreBounded` | src/syndicateclaw/inference/router.py:122-226 | in every run whose lookups come at most d after their calls began, each answer is younger than TTL plus d when it is used |
| `PolicySharing.AgesReachTheBound` | src/syndicateclaw/inference/router.py:122-226 | and every age below that bound occurs: a call begun a gap shorter than the TTL after an answer uses it a delay later |
| `PolicySharing.FreshAtUseIffNoDelay` | src/syndicateclaw/inference/policy_gates.py:15-38 | so answers are younger than the TTL at every use in all such runs if and only if d is zero |
| `PolicySharing.SharingIsTransparent` | src/syndicateclaw/inference/router.py:205-226 | under a constant policy no interleaving makes a call rely on another answer than the policy's |
| `RoutingTheorems.RegistryUntouchedIffNothingFlips` | src/syndicateclaw/inference/router.py:1-5 | under a constant policy a routing call leaves circuit state as it was if and only if no provider flips that has a row before which the eligible rows do not yet fill the cap; the documentation says routing never mutates it |
| `RoutingTheorems.RoutingFlipsACircuit` | src/syndicateclaw/inference/registry.py:35-42 | a routing call that succeeds and moves a circuit, tripped by five failures under the registry's configuration, from OPEN to HALF_OPEN |
| `RoutingTheorems.ExaminedIffCapNotFilled` | src/syndicateclaw/inference/router.py:177-179 | a row is examined if and only if the eligible rows before it do not fill the cap |
| `RoutingTheorems.FlipsIffOpenPeriodOver` | src/syndicateclaw/inference/registry.py:35-42 | which providers a look at the circuit changes |
| `RoutingTheorems.ScanOnlyLooks` | src/syndicateclaw/inference/router.py:188-193 | a routing call changes nothing in the registry except by looking at circuits |
| `RoutingTheorems.ScoreRespectsEveryCriterion` | src/syndicateclaw/inference/router.py:291-314 | with weights that are not negative, a candidate no worse in cost, context, health, tier and sensitivity match never scores higher |
| `RoutingTheorems.ScoreOfPrices` | src/syndicateclaw/inference/router.py:299-305 | the price sum moves the score by the cost weight up to the cap and not beyond |
| `RoutingTheorems.ScoreOfContext` | src/syndicateclaw/inference/router.py:303-305 | the reciprocal of the context window moves the score by the latency weight; below one the window counts as one |
| `RoutingTheorems.ScoreOfProviders` | src/syndicateclaw/inference/router.py:306-314 | degraded health, each trust tier and a matching clearance move the score by exactly their weights |
| `Catalog.MergeStatic` | src/syndicateclaw/inference/catalog.py:146-170 | fails if and only if two rows of one key disagree on the descriptor; otherwise one active row per key with the union of capabilities |
| `Catalog.StaticMergeIgnoresRowOrder` | src/syndicateclaw/inference/catalog.py:146-170 | any listing of the same rows fails or merges alike |
| `Catalog.MergedCatalogIsUnion` | src/syndicateclaw/inference/catalog.py:111-118 | the merged keys are the union; with YAML winning every YAML row is unchanged and the first listed models.dev row takes a new key, otherwise the last listed one takes every key it names |
| `Catalog.SortKeepsTies` | src/syndicateclaw/inference/catalog.py:114 | the sort is stable, so rows of one key keep their listing order |
| `Catalog.BuildIndexes` | src/syndicateclaw/inference/catalog.py:127-134 | both indexes list exactly what a direct scan of the active entries finds |
| `Catalog.ModelCatalog.ReplaceEntries` | src/syndicateclaw/inference/catalog.py:121-143 | swaps the snapshot; afterwards both indexes equal the sorted direct scan of active entries |
| `Catalog.ModelCatalog.ReplaceFromYamlStatic` | src/syndicateclaw/inference/catalog.py:91-99 | a conflict leaves the catalog as it was, otherwise the static merge becomes the snapshot |
| `Catalog.ModelCatalog.MergeYamlAndModelsDev` | src/syndicateclaw/inference/catalog.py:101-119 | the overlay of the sorted models.dev rows on the static merge becomes the snapshot |
| `Catalog.ModelCatalog.IterByCapability` | src/syndicateclaw/inference/catalog.py:67-72 | yields every active row with the capability exactly once |
| `Catalog.ModelCatalog.ModelsForCapabilityAndProvider` | src/syndicateclaw/inference/catalog.py:74-83 | the index answer is the sorted direct scan |
| `Catalog.ModelCatalog.ProvidersForModelId` | src/syndicateclaw/inference/catalog.py:85-89 | the index answer is the sorted direct scan |
| `Rbac.ContainmentIsTransitive` | src/syndicateclaw/authz/evaluator.py:93-126 | scope containment is transitive, unknown types included |
| `Rbac.ContainsIffBroader` | src/syndicateclaw/authz/evaluator.py:93-126 | which scopes contain which, by the names of their types |
| `Rbac.ContainmentIsAlmostAnOrder` | src/syndicateclaw/authz/evaluator.py:93-126 | a scope contains itself if and only if its type is known; mutual containment means equality or platform |
| `Rbac.ContainmentIsDocumentedIff` | src/syndicateclaw/authz/evaluator.py:93-126 | in every hierarchy containment includes the documented relation; it equals it in every hierarchy if and only if the outer scope is not of a strictly broader known type below the platform |
| `Rbac.TenantGrantReachesForeignTeam` | src/syndicateclaw/authz/evaluator.py:119-126 | a hierarchy and a database in which a role granted in one tenant alone allows access to another tenant's team |
| `Rbac.AssignmentsAreJoined` | src/syndicateclaw/authz/evaluator.py:129-161 | the query returns exactly the unrevoked grants of the principal and of the teams it belongs to, joined with their roles |
| `Rbac.ExpandRole` | src/syndicateclaw/authz/evaluator.py:169-178 | the recursive query returns exactly the permissions of all roles reached by inheritance |
| `Rbac.ExpansionStopsIffAcyclic` | src/syndicateclaw/authz/evaluator.py:169-178 | the recursive query of a role stops if and only if the role reaches no inheritance cycle |
| `Rbac.ExpansionIsClosed` | src/syndicateclaw/authz/evaluator.py:169-178 | a role grants its own permissions and everything its parent grants |
| `Rbac.ExpansionIsLeast` | src/syndicateclaw/authz/evaluator.py:169-178 | and nothing that some assignment of permissions closed under inheritance would not grant |
| `Rbac.RBACEvaluator.ExpandRolePermissions` | src/syndicateclaw/authz/evaluator.py:364-379 | the memo always agrees with a fresh expansion |
| `Rbac.RBACEvaluator.CheckDenies` | src/syndicateclaw/authz/evaluator.py:286-316 | exactly the live deny rows for the permission or `*` whose scope contains the resource, in order |
| `Rbac.RBACEvaluator.ResolveAssignments` | src/syndicateclaw/authz/evaluator.py:318-362 | a live cache entry, or the principal's database rows with their expiry judged, which are then cached as far as Redis answers |
| `Rbac.RBACEvaluator.MatchGrants` | src/syndicateclaw/authz/evaluator.py:235-263 | exactly the unexpired covering candidates in order, and whether an expired one was in scope |
| `Rbac.RBACEvaluator.Evaluate` | src/syndicateclaw/authz/evaluator.py:196-284 | deny first, then grants, with the reason of a denial and what happens to the cache |
| `Rbac.CacheRoundTrip` | src/syndicateclaw/authz/evaluator.py:383-414 | a live hit returns the stored list without its `expired` flags, and nothing after the TTL |
| `Rbac.AllowedIffGrantedAndNotDenied` | src/syndicateclaw/authz/evaluator.py:222-284 | uncached evaluation allows if and only if no live matching deny contains the resource and some live containing assignment grants the permission |
| `Rbac.DatabaseAllowsIff` | src/syndicateclaw/authz/evaluator.py:129-284 | the same in terms of the database: unrevoked live grants of the principal or of one of its teams, and the principal's own deny rows |
| `Rbac.NamespaceGrantsStayBelow` | src/syndicateclaw/authz/evaluator.py:102-117 | grants on namespaces alone never allow a team, a tenant or the platform |
| `Rbac.RefusalReasons` | src/syndicateclaw/authz/evaluator.py:222-284 | the reason of every refusal and the deny rows it lists |
| `Rbac.DeniesShrinkGrantsGrow` | src/syndicateclaw/authz/evaluator.py:222-284 | adding denies never creates an ALLOW and adding assignments never removes one |
| `Rbac.WideningAGrantKeepsAllow` | src/syndicateclaw/authz/evaluator.py:240-263 | replacing a grant's scope by a containing one keeps every ALLOW |
| `Rbac.CachedAgreesIffNoExpiredGrant` | src/syndicateclaw/authz/evaluator.py:398-412 | with unchanged tables and any denies, exactly when the cached decision, and exactly when the whole cached verdict, equals the uncached one |
| `Rbac.CacheRevivesExpiredGrant` | src/syndicateclaw/authz/evaluator.py:406-409 | a concrete expired assignment that a cache hit honours |
| `RbacSessions.HitsAreRecentFills` | src/syndicateclaw/authz/evaluator.py:383-414 | over every interleaving of evaluations by any principals with database changes, invalidations and Redis failures, each hit returns what an earlier miss of the same principal had read and stored less than one TTL before |
| `RbacSessions.HitVerdictAgreesIff` | src/syndicateclaw/authz/evaluator.py:222-284 | for every fill behind a hit that read the present assignments, exactly when the verdict on the hit equals the uncached one |
| `RbacSessions.BumpTakesEffectIff` | src/syndicateclaw/authz/evaluator.py:383-414 | after a version bump of a principal to an unused version, its hits return only rows read after the bump, in every continuation, if and only if no fill of the principal was in flight at the bump |
| `RbacSessions.StaleFillIsServed` | src/syndicateclaw/authz/evaluator.py:398-412 | the continuation in which a fill in flight is stored under the new version and served |
| `Approval.ResolveFromPolicy` | src/syndicateclaw/approval/authority.py:93-133 | the first non-empty authority list of a matching rule, in rule and condition order; an exception before it is found leaves nobody named |
| `Approval.FirstRuleDecides` | src/syndicateclaw/approval/authority.py:109-125 | the list comes from the first condition, in rule and condition order, of a matching rule that gives one, unless a rule up to there raises |
| `Approval.Resolve` | src/syndicateclaw/approval/authority.py:47-91 | policy first, then the table of the risk level, then the administrators, always without the requester; never empty; it contains the requester if and only if the requester is `admin:security` and the unfiltered list names nobody else, although the documentation says never |
| `Approval.DefaultsByRisk` | src/syndicateclaw/approval/authority.py:19-24 | the default approvers of each risk level |
| `Approval.SecurityIsAssignedItsOwnRequest` | src/syndicateclaw/approval/authority.py:71-83 | an override that names admin:security alone assigns its own request to itself |
| `Approval.ApprovalService.RequestApproval` | src/syndicateclaw/approval/service.py:51-90 | a request is created PENDING, or refused without description, without approvers or on a taken id |
| `Approval.ApprovalService.DecideRequest` | src/syndicateclaw/approval/service.py:162-202 | the checks in order, the decision, and no trace of a failed call: the EXPIRED write is rolled back by the raise |
| `Approval.AnswerIsRecorded` | src/syndicateclaw/approval/service.py:162-202 | when an answer is accepted, and that it leaves APPROVED or REJECTED as asked, with approver, instant and reason, and no other row changed |
| `Approval.ApprovalService.ExpireStale` | src/syndicateclaw/approval/service.py:115-139 | expires exactly the overdue pending rows and counts them |
| `Approval.DecisionsAreAuthorised` | src/syndicateclaw/approval/service.py:170-202 | in every run of atomic calls a decided row names an assigned decider other than the requester, who decided before expiry |
| `Approval.LeavesPendingAtMostOnce` | src/syndicateclaw/approval/service.py:177-178 | once a request has left PENDING no run changes its row at all |
| `Approval.DecidableIffSomeoneSucceeds` | src/syndicateclaw/approval/service.py:174-202 | some approver can decide a request if and only if it is pending, not overdue and assigned to somebody else than the requester |
| `Approval.SelfAssignedIsUndecidable` | src/syndicateclaw/approval/service.py:180-188 | a request assigned to its requester alone is never approved or rejected in any run |
| `Approval.ResolvedRequestsAreDecidableIff` | src/syndicateclaw/approval/service.py:57-90 | a new request assigned by the resolver is decidable before its deadline if and only if not both the requester is admin:security and the unfiltered list names nobody else; otherwise no run ever decides it |
| `DeadLetter.AuditPipeline.Emit` | src/syndicateclaw/audit/service.py:91-155 | append, dead-letter or raise |
| `DeadLetter.AuditPipeline.Enqueue` | src/syndicateclaw/audit/dead_letter.py:44-78 | a fresh pending row with a budget of three retries if transient and none if permanent |
| `DeadLetter.AuditPipeline.Resolve` | src/syndicateclaw/audit/dead_letter.py:132-144 | marks any existing row resolved by the operator |
| `DeadLetter.AuditPipeline.RetryOne` | src/syndicateclaw/audit/dead_letter.py:96-125 | one record of a sweep: exhaustion, a successful emission that is marked resolved, or a counted failure; a RESOLVED write that raises is counted as a failure, and a failure or exhaustion that cannot be written raises |
| `DeadLetter.AuditPipeline.RetryAll` | src/syndicateclaw/audit/dead_letter.py:80-130 | one sweep over the rows read at its start, in any database order, up to the first record that raises, and the number it reports if none does; permanent and settled rows are left alone, and a sweep that ends normally has resolved, given up or counted every pending transient row |
| `DeadLetter.SweepByFields` | src/syndicateclaw/audit/dead_letter.py:80-130 | the same of the sweep function, in terms of the fields of the rows |
| `DeadLetter.CountIsResolvedRows` | src/syndicateclaw/audit/dead_letter.py:86-130 | the number a sweep reports is the number of rows it resolved, as long as RESOLVED can be written |
| `DeadLetter.SweepActsRowByRow` | src/syndicateclaw/audit/dead_letter.py:80-130 | with or without a queue behind the emitter, a sweep acts on each row it visits separately and leaves the others alone |
| `DeadLetter.RetryOfOneRow` | src/syndicateclaw/audit/dead_letter.py:96-125 | for one eligible row in budget: a failed attempt is counted if and only if the write fails and no queue takes the event, or the RESOLVED write raises, and the count can be written; a fresh row appears if and only if the write fails and the queue takes the event |
| `DeadLetter.RetriesAreBounded` | src/syndicateclaw/audit/dead_letter.py:96-125 | under sweeps that do not overlap, failed attempts never exceed the row's budget, exhaustion means the whole budget was spent, and a row is not pending after more sweeps acted on it than its budget |
| `DeadLetter.TransientRowsLeavePending` | src/syndicateclaw/audit/dead_letter.py:80-130 | over whole tables and any series of sweeps, with or without a queue: failed attempts never exceed the budget, and the row is not pending after more completed sweeps than its budget |
| `DeadLetter.AlwaysRaisingEmitter` | src/syndicateclaw/audit/dead_letter.py:96-125 | the exact row after any number of sweeps whose attempts on it all fail |
| `DeadLetter.BudgetStartsOverIff` | src/syndicateclaw/audit/service.py:145-153 | over any series of sweeps, an event that started in one fresh transient row has a fresh transient row with its whole budget if and only if along some line of descent every act failed or went on in a fresh transient row, never three failures in a row, and the last went on in a fresh row |
| `DeadLetter.StartsOverEverySweepIff` | src/syndicateclaw/audit/service.py:145-153 | along a line of descent the event starts over after every single sweep if and only if the queue took it back as transient in every sweep that acted on it |
| `DeadLetter.RowsDescend` | src/syndicateclaw/audit/dead_letter.py:80-130 | every row of the table after any series of sweeps ends a line of descent from some row at its start |
| `DeadLetter.CarrierFollowsFates` | src/syndicateclaw/audit/dead_letter.py:96-125 | the row at the end of each line of descent is exactly what the fates along it make of the first row |
| `DeadLetter.BouncingEventIsRetriedForever` | src/syndicateclaw/audit/service.py:145-153 | an event whose writes keep failing as transient, or that is in the audit table already, is retried forever while the queue is up |
| `DeadLetterRuns.NoEventIsLost` | src/syndicateclaw/audit/service.py:91-155 | over every interleaving of emitters, sweeps, operators and crashes each event whose emission returned is in the audit table or carried by a row the retry loop has not resolved, and each event id is audited at most once |
| `DeadLetterRuns.RetriesBoundedByOverlap` | src/syndicateclaw/audit/dead_letter.py:80-130 | over every interleaving, a row counts at most its budget plus m - 1 failed attempts if no more than m workers ever hold it at once, so at most its budget if its sweeps never overlap |
| `DeadLetterRuns.OverlapReachesTheBound` | src/syndicateclaw/audit/dead_letter.py:88-125 | for every m a run with at most m simultaneous holders that reaches this bound; two overlapping sweeps already exceed the budget |
| `Lineage.LineageWalk.Walk` | src/syndicateclaw/memory/service.py:433-452 | the recursive walk stops on every graph and extends the chain by exactly the newly reached existing records |
| `Lineage.GetLineage` | src/syndicateclaw/memory/service.py:353-363 | each existing record reachable through existing records exactly once and nothing else, the start first, every other record after one of its children, and right after each record its first existing parent that has not come before |
| `RateLimit.RateLimiter.Dispatch` | src/syndicateclaw/api/rate_limit.py:46-100 | one transaction on the actor's two sorted sets, then the sustained and the burst comparison; a request passes unrecorded when Redis does not answer |
| `RateLimit.RecordMatchesHistory` | src/syndicateclaw/api/rate_limit.py:56-66 | pruning, and a key that expired in between, remove only instants outside the window |
| `RateLimit.StoredSetsAreWindows` | src/syndicateclaw/api/rate_limit.py:54-70 | the stored sets always equal the window filter of the full request history |
| `RateLimit.VerdictIff` | src/syndicateclaw/api/rate_limit.py:80-100 | the verdict on each request, counted off the full history: sustained above the window limit, else burst above the second's limit, else accepted with the rest |
| `RateLimit.AcceptedRateIsBounded` | src/syndicateclaw/api/rate_limit.py:80-100 | in any interval of window length the accepted metered requests have at most the limit of distinct instants, and in any second at most the burst |
| `RateLimit.WindowCountIsRequestCountIffDistinct` | src/syndicateclaw/api/rate_limit.py:58-59 | the count compared with the limit is the number of requests in the window if and only if no two share a timestamp |
| `RateLimit.SameInstantCountsOnce` | src/syndicateclaw/api/rate_limit.py:58 | two requests at one instant pass a limit of one |

## Left out

- Rbac.RBACEvaluator.Evaluate: requires that the recursive query returns for each role it expands, because an evaluation would otherwise not end; `Rbac.ExpansionStopsIffAcyclic` says exactly when it does.
- Rbac.TablesOf: lists the joined rows in table order, while the database may return them in any order; role permissions are read at one instant per evaluation.
- Approval.ApprovalService.DecideRequest: the source takes no row lock, so the claims about runs hold for atomic calls and not for interleaved transactions.
- Approval.ResolveFromPolicy: glob matching is a given answer per rule.
- RateLimit.RateLimiter.Dispatch: a transaction that Redis executes although its client sees an error is not modelled; skipped paths and anonymous actors are outside the model, as is the text of the response headers.
- DeadLetter.AuditPipeline.Emit: the substring heuristic that classifies an error is a given category; scope resolution is not modelled, and a signing error acts like a failed write with the queue down.
- ChatExecution.Execute: clock readings, provider configuration and adapter replies are parameters per chain position; key resolution and metrics are left out.
- Router.InferenceRouter.Route: scores are real numbers without floating-point rounding, and the registry and catalog are read as they are at one instant; other calls that run while one awaits the policy are modelled for the cache alone (`PolicySharing`).
- ChatInference.InferChat: runs without other callers' transactions in between; `IdempotencyProtocol` interleaves them.
- RbacSessions.BumpTakesEffectIff: the Redis commands of one fetch, and those of one store, are a single step.
- Lineage.LineageWalk.Walk: Python's recursion limit, which raises on very deep parent chains, is not modelled.
- IdempotencyProtocol.BeginInference: a commit whose outcome is unknown to the client is not modelled; every transaction either happens or does not.
- Embedding inference beyond its begin path: its deadline and re-raise paths emit no terminal event, so the chat audit claim does not carry over.
- Streaming chat, which has a single candidate and no idempotency.
- Memory caching, retention and trust decay, which have no clean agreement property.
- The workflow engine, policy engine, adapters, connectors, console, SDK, migrations and HTTP plumbing.
