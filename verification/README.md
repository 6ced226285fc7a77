# Isabella AI Genesis: verified model of its decision and evidence core

This project models, in Dafny, the hand-written state of the Isabella AI Genesis platform: who is allowed to do
what, for how long, how often, and which evidence is left behind. `dafny verify dfyconfig.toml` checks all of it.

## What is modelled

**Authorization.** `AuthorizationPolicy` is the staged, fail-closed policy decision; `Abac` its attribute
policies. `PolicyCache` is the bounded, expiring cache in front of it, an insertion-ordered map with sweep,
eviction and invalidation. `BehaviorWindow` is the capped window of a subject's requests and the score derived
from it (counting in `Ranges`). `SignatureChain` is the per-tenant chain of signed decisions: the database
transaction as a protocol of interleaved steps, and the in-memory chain of development runtimes.
`AuthorizationEngine` puts them together, up to the signed and chained answer, and reasons over whole runs. `UuidV7`
builds decision ids, on `Bits` and `Hex`.

**Replay and scopes.** `ReplayStore` keeps a dictionary of used token ids and a heap of their expiries in step.
`ScopeRuntime` is the scope decision taken from verified claims. `TokenGate` runs a token through both, from the
check of its times to the decision. `TenantKeys` is the key that stores and windows share.

**ARGUS AION.** `ArgusAion` is the mode machine with its checkpoint ring, `BehavioralSentinel` the anomaly
sentinel with its median statistics in `OrderStatistics`, `RecoveryMesh` the quorum approval of recovery plans.

**Ledgers.** `AuditChain` is the kernel's SHA-256 audit chain, `GovernanceLedger` the in-memory ledger over the
32-bit hash of `FnvHash`.

**Limiters, scoring, billing.** `FixedWindowLimiter`, `SlidingLogLimiter`, `AegisScoring`, `BillingGuard` (with
`Texts` for decimal printing, parsing and splitting).

## Conventions

- Objects that the program updates in place are classes; each method is proved equal to a step function on values,
  and runs, invariants and refinements are proved about that function. Clock readings, random bytes, header values
  and configuration are parameters.
- Hashes and MACs are function parameters, assumed injective where a result needs it (`Injective`, `GoodHash`,
  `GoodMac`, `GoodCrypto`). Each assumption is shown to be met by some function (`DigestExists`, `GoodHashExists`,
  `GoodMacExists`, `GoodCryptoExists`). Role checks, the permission matrix and the AEGIS detectors are uninterpreted
  functions.
- JavaScript numbers are reals with NaN and the infinities where the code meets them (`JsNumbers.Num`); rounding
  of floating point is left aside. Numbers that enter a cache key have the form m / 2^k, as every finite double
  does (`JsNumbers.Double`). The behaviour score is a multiple of one half, so its two-decimal print is exact
  (`BehaviorWindow.ScoreIsHalfPoints`).
- A gateway request is dated by the clock reading of its context build; the cache is read and written by readings
  of their own. The gateway builds the context and decides in the same turn.

## Where the code does less, or more, than one might expect

- `checkRate` grants at most 239 requests, one less than two full windows, in any closed interval of a window's
  length, and can grant that many (`BoundAttained`).
- The behaviour throttle binds the gateway alone. `withSovereignAuth` and the execution authority evaluate without
  a behaviour score, so neither requests nor denials count there (`ContextFreeUnthrottled`). One subject's allows of
  all kinds stay within 26 a minute exactly when everything evaluated for it outside the gateway is denied
  (`ThrottlesAllExact`, `ThrottlesContextFreeExact`).
- Replay keys and behaviour windows join tenant and id with a colon; `TenantKeys.SharedKeyExact` says exactly which
  pairs share one.
- A lost acknowledgement leaves a committed link behind a denied decision (`LostAcknowledgement`).
- With an ordered clock a token is let through a second time exactly when it expires between its check and its
  consumption, and there is room (`TwiceExact`); a decision made then has expired when it is created
  (`SecondAllowIsExpired`). `ThroughExact` is the condition for any clock.
- The replay store reads the clock before taking its lock. If readings arrive out of order a live id is admitted
  again (`OutOfOrderClockReadmits`); `ReplayExact` says exactly when.
- The development chain stores hashes and sigchains in one map. Two tenants stay apart exactly when neither id is
  `sigchain_` followed by the other (`IsolationExact`).
- A step-up token is bound to tenant and user joined by a colon. With colons in tenant ids it verifies for another
  split of the same text (`ColonInTenantConfuses`); `RoundTripExact` is the exact condition.
- `verifyChain` of the governance ledger compares the link columns only and never recomputes a hash
  (`ContentNotCovered`), although its comment calls the ledger hash-chained evidence. After 200 events it fails
  unless a dropped hash happens to be all zeros.
- A recovery plan whose quorum is NaN is approved without attestations (`EmptyQuorumExact`), and a mesh built with a
  NaN quorum accepts every unexpired new plan without any (`EmptyAcceptanceExact`).
- An attestation binds plan id, digests and sequence, not quorum, expiry or node list (`AttestationBinds`): it approves
  the same plan presented again with a quorum of one (`OneAttestationApprovesNarrowed`).
- A NaN timestamp disarms the sentinel's time check (`NaNTimestampDisarms`). The next observation may carry any
  timestamp exactly when the newest accepted one is NaN or -Infinity, or sequence numbers are used up
  (`AnyTimeExact`); before the first NaN that cannot be (`ArmedUntilNaN`).
- `list` of the governance ledger lists everything for a limit of zero (`AuditLedger.List`).
- A blocked count that rises from 1 to a fraction below 2 weakens an AEGIS verdict; no other rise does
  (`BlockedCountExact`).
- Inside the evaluator the risk threshold of the attribute policies is never reached: a score above 80 is refused
  before them (`AllowExactly`).
- Audit sequence numbers repeat once the kernel's window is full (`SequenceNumbers`).

## Model

| member | source | states |
|---|---|---|
| AuthorizationEngine.ThrottleBound | src/lib/authorization-context.ts:136-185 | in every run, cached or not, the gateway allows a subject at most 26 requests in any closed 60,000 ms |
| AuthorizationEngine.ThrottleAttained | src/lib/authorization.ts:412-414 | the bound 26 is reached by a burst of a subject without denials |
| AuthorizationEngine.ContextFreeUnthrottled | src/lib/principal-context.ts:465-480 | without dynamic context identity and role alone decide, after any run |
| AuthorizationEngine.ThrottlesAllExact | src/lib/api-gateway.ts:44-64 | 26 bounds a subject's allows of all kinds exactly when every request of it evaluated outside the gateway is denied |
| AuthorizationEngine.ThrottlesContextFreeExact | src/lib/execution-authority.ts:348-360 | for callers without context that is exactly when no role grants the subject anything |
| AuthorizationEngine.ScoreIsOfFullHistory | src/lib/authorization-context.ts:96-102 | the score from the capped 120-event window is the score over the full unbounded history of requests and denials |
| AuthorizationEngine.WindowsMirror | src/lib/authorization-context.ts:45-50 | after any run a window holds the last min(120, number within ten minutes) of all requests, and the capped total of denials |
| AuthorizationEngine.AllowMeansCalm | src/lib/authorization.ts:406-414 | an allowed gateway request is one of at most 26 in its minute, 18 after ten denials |
| AuthorizationEngine.GatewayAllowExact | src/lib/api-gateway.ts:44-64 | exactly when a gateway request is allowed, in terms of its full history |
| AuthorizationEngine.CacheTransparent | src/lib/authorization.ts:366-498 | after any interleaving of requests, expiries, evictions, invalidations and clearings an evaluation answers as without cache |
| AuthorizationEngine.Transparent | src/lib/authorization.ts:381-498 | one evaluation over a sound cache gives the fresh allow flag and obligations and keeps the cache sound |
| AuthorizationEngine.EvaluateAuthorization | src/lib/authorization.ts:333-589 | cache and behaviour store change as two steps of the run model, and the answer is the signed decision, denied when the chain is unavailable |
| AuthorizationEngine.AllowIsDecidedAndChained | src/lib/authorization.ts:515-561 | after any run and chain interleaving a call is allowed exactly when the policy allows it and the chain handed its link back; that link is then in the tenant's list, and the signature covers the payload returned |
| AuthorizationEngine.CommitLetsDecisionStand | src/lib/authorization.ts:515-561 | whenever a call's transaction has written its link, an acknowledged commit makes the answer what the policy decided, allows included |
| AuthorizationEngine.SealedFields | src/lib/authorization.ts:500-561 | every field of the signed payload, its obligations and the chain texts, with and without the chain |
| AuthorizationEngine.ServedFreshInEveryRun | src/lib/authorization-policy-cache.ts:69-89 | in every run, whatever the digest, at most 5,000 entries; no allow served 120 s, no deny 60 s after issue |
| AuthorizationEngine.InvalidationExact | src/lib/authorization-policy-cache.ts:120-142 | after any run invalidating by tenant or subject removes exactly its results, and by policy version everything |
| AuthorizationEngine.InvalidatedTenantMisses | src/lib/authorization-policy-cache.ts:132-134 | right after its tenant was invalidated no request is served from the cache |
| AuthorizationEngine.SlotFields | src/lib/authorization.ts:476-492 | which field of request and decision reaches which field of the cached result |
| AuthorizationEngine.CacheUseExact | src/lib/authorization.ts:366-390 | four actions never touch the cache; for the rest a live slot is a hit, and a miss with room left serves until its lifetime is over |
| AuthorizationEngine.CachedAnswer | src/lib/authorization.ts:392-498 | a cached result answers as it stands, an unmarked denial gets its mark |
| AuthorizationEngine.ContextExact | src/lib/authorization-context.ts:136-175 | in every run the context's fields, device and place changes measured against the subject's own past requests |
| AuthorizationPolicy.KeySufficient | src/lib/authorization-policy-cache.ts:43-67 | equal cache keys mean equal decisions and reasons, although non-finite scores share a serialisation |
| AuthorizationPolicy.DigestExists | src/lib/authorization-policy-cache.ts:34-36 | some digest tells all key records apart, numbers included, so the assumption of injectivity can be met |
| AuthorizationPolicy.RiskExact | src/lib/authorization.ts:354-365 | the anomaly score is the clamped largest of its four parts, and NaN exactly when one of them is |
| AuthorizationPolicy.AllowExactly | src/lib/authorization.ts:400-471 | the exact conjunction of identity, score, role, permission and attributes under which a request is allowed |
| AuthorizationPolicy.ReasonExact | src/lib/authorization.ts:400-471 | every refusal names the first stage that fails |
| AuthorizationPolicy.CanonicalExact | src/lib/authorization.ts:419-433 | which operation a resource and action stand for |
| AuthorizationPolicy.AttributesExact | src/lib/authorization.ts:445-461 | what the attribute policies are told |
| AuthorizationPolicy.KeyExact | src/lib/authorization-policy-cache.ts:43-67 | two requests share a cache key exactly when all fields agree, up to empty fingerprints and non-finite numbers |
| AuthorizationPolicy.EvaluatePolicy | src/lib/authorization.ts:395-471 | the stepwise assignment of allow, obligations and reason computes the staged decision |
| Abac.DenyOverrides | src/lib/abac.ts:106-125 | the scan denies exactly when some policy denies and names the first that does |
| Abac.DefaultDeniesExactly | src/lib/abac.ts:60-97 | when the three default policies deny, in attribute terms |
| Abac.DefaultReasons | src/lib/abac.ts:60-125 | and which of them is named |
| PolicyCache.Cache.Get | src/lib/authorization-policy-cache.ts:69-89 | a read serves a live entry, drops an expired one and counts hits and misses |
| PolicyCache.Cache.Set | src/lib/authorization-policy-cache.ts:91-118 | a write sweeps, puts and evicts as specified and keeps the bound and distinct keys |
| PolicyCache.Cache.Invalidate | src/lib/authorization-policy-cache.ts:120-130 | removes what shares a key and returns the count |
| PolicyCache.Cache.Clear | src/lib/authorization-policy-cache.ts:154-158 | empties the cache and both counters |
| PolicyCache.WriteBounds | src/lib/authorization-policy-cache.ts:103-112 | after a write the bound holds, at most one live entry is evicted and it was issued earliest |
| PolicyCache.WrittenKeyExact | src/lib/authorization-policy-cache.ts:106-112 | exactly when the entry just written survives eviction, for any clock; always for an ordered one |
| PolicyCache.KeptExact | src/lib/authorization-policy-cache.ts:120-130 | invalidation removes exactly the entries that share a key |
| PolicyCache.ServedInTime | src/lib/authorization-policy-cache.ts:27-28 | lifetimes of served entries |
| PolicyCache.ReadExact | src/lib/authorization-policy-cache.ts:69-89 | a read finds exactly the entry of its key while it is live, and drops it afterwards |
| PolicyCache.WrittenServedExact | src/lib/authorization-policy-cache.ts:91-112 | without overflow a written result is served exactly until 120 s, or 60 s for a deny, have passed |
| BehaviorWindow.BehaviorStore.BuildAuthorizationDynamicContext | src/lib/authorization-context.ts:136-175 | the stepwise update of a window computes the specified window and context |
| BehaviorWindow.BehaviorStore.RecordAuthorizationOutcome | src/lib/authorization-context.ts:178-185 | a denial is counted up to 120, an allow changes nothing |
| BehaviorWindow.ObserveMirrors | src/lib/authorization-context.ts:146-161 | one request keeps the window a mirror of the history and scores as the history would |
| BehaviorWindow.CapInvisible | src/lib/authorization-context.ts:33-50 | capping requests and denials at 120 never changes a score |
| BehaviorWindow.CalmScore | src/lib/authorization-context.ts:96-102 | what a score of at most 80 says about the number of requests |
| BehaviorWindow.ScoreIsHalfPoints | src/lib/authorization-context.ts:96-102 | a score is a whole number of half points, so two decimals print it exactly |
| BehaviorWindow.ScoreExact | src/lib/authorization-context.ts:96-102 | 3.5 per request beyond the fourth and 3 per denial up to ten, 100 at most |
| SignatureChain.Unforked | src/lib/authorization.ts:223-284 | for every interleaving of any number of calls a tenant's commits are one list from genesis and its row is the last |
| SignatureChain.AllowImpliesCommitted | src/lib/authorization.ts:515-559 | a call answers allow exactly when its decision allows and it holds a link, and such a link was committed in its place |
| SignatureChain.AcknowledgedCommit | src/lib/authorization.ts:271-275 | after any run an acknowledged commit extends the list by its link, hands it back and lets the decision stand |
| SignatureChain.FailedCall | src/lib/authorization.ts:276-283 | a call that fails changes neither rows nor list and is answered with a denial |
| SignatureChain.LostAcknowledgement | src/lib/authorization.ts:272-283 | a commit with a lost acknowledgement extends the tenant's list behind an answer that denies |
| SignatureChain.CommitReached | src/lib/authorization.ts:245-270 | every decision, allows included, can come to its commit |
| SignatureChain.MutualExclusion | src/lib/authorization.ts:245-255 | two calls are never past the lock of one tenant together |
| SignatureChain.NoLockLeftBehind | src/lib/authorization.ts:276-283 | when every call has ended, by commit or failure, no lock remains |
| SignatureChain.ChainManager.GetAndAdvanceChain | src/lib/authorization.ts:196-213 | the in-memory advance hands out the next link of what it reads |
| SignatureChain.AdvanceSeen | src/lib/authorization.ts:204-212 | what an advance changes for its own tenant, for separate ones and for colliding ones |
| SignatureChain.IsolationExact | src/lib/authorization.ts:204-212 | two tenants leave each other's in-memory chain alone exactly when neither id is the other's sigchain key |
| SignatureChain.MemoryUnforked | src/lib/authorization.ts:196-213 | a tenant separate from all others in the run has one in-memory list from genesis |
| UuidV7.OrIsSum | src/lib/authorization-context.ts:118-123 | the OR of the fields is their sum, whatever the timestamp |
| UuidV7.Layout | src/lib/authorization-context.ts:104-127 | version 7, variant 10, and timestamp and both random fields read back from the printed string |
| UuidV7.TimeOrdered | src/lib/authorization-context.ts:125-126 | a smaller timestamp prints a lexicographically smaller string: the two first differ at a smaller character |
| UuidV7.LengthExact | src/lib/authorization-context.ts:125-126 | the string has 36 characters exactly for timestamps below 2^48 |
| ReplayStore.FastReplayStore.Consume | authz-runtime/isabella_runtime.py:125-138 | heap and dictionary stay the same pairs, the popping guard never fails, and the step is the specified one |
| ReplayStore.StoreIsHistory | authz-runtime/isabella_runtime.py:125-138 | the store is exactly the accepted ids no later clock reading has reached |
| ReplayStore.ReplayExact | authz-runtime/isabella_runtime.py:133-134 | a call is refused as replay exactly when an accepted call with its key still holds |
| ReplayStore.RefusedUntilExpiry | authz-runtime/isabella_runtime.py:125-138 | with an ordered clock an accepted id is refused at every later call before its expiry |
| ReplayStore.OutOfOrderClockReadmits | authz-runtime/isabella_runtime.py:127-128 | readings out of order re-admit a live id |
| TenantKeys.SharedKeyExact | authz-runtime/isabella_runtime.py:126-126 | exactly which two pairs of tenant and id share a replay key, or a behaviour window: equal ones, or one text split at different colons |
| TokenGate.Runtime.Authorize | authz-runtime/isabella_runtime.py:308-321 | check, consumption and decision in this order compute the specified store and answer |
| TokenGate.AuthorizedExtendsRun | authz-runtime/isabella_runtime.py:308-321 | each presentation extends the run, and is decided on exactly when let through |
| TokenGate.ThroughExact | authz-runtime/isabella_runtime.py:125-138 | a presentation is let through exactly when checked, with room, and no earlier one with its key unreached by the clock |
| TokenGate.ThroughExpiresSoon | authz-runtime/isabella_runtime.py:268-272 | what is let through expires after its check, within skew and longest lifetime |
| TokenGate.TwiceExact | authz-runtime/isabella_runtime.py:268-272 | with an ordered clock and one token per key, a token is let through again exactly when it expires between check and consumption and there is room |
| TokenGate.SecondAllowIsExpired | authz-runtime/isabella_runtime.py:376-381 | a second allow for one token has expired when it is created |
| TokenGate.LateConsumptionReadmits | authz-runtime/isabella_runtime.py:308-321 | two timely checks with a consumption at or after expiry are both let through |
| ReplayStore.SizeBounded | authz-runtime/isabella_runtime.py:135-136 | the size never exceeds the capacity and a refusal for room means it is reached |
| ScopeRuntime.AllowedExactly | authz-runtime/isabella_runtime.py:331-377 | the exact conditions of an allow, over catalogue and claims |
| ScopeRuntime.ResultExact | authz-runtime/isabella_runtime.py:331-382 | every answer: the code of the first check that fails, or scope, obligations and times of the allow |
| ScopeRuntime.NamespaceExact | authz-runtime/isabella_runtime.py:350-355 | the namespace ends at the first colon |
| ScopeRuntime.StrongerClaimsStayAllowed | authz-runtime/isabella_runtime.py:331-377 | stronger claims never lose an allow or change its obligations |
| OrderStatistics.MedianRobust | src/lib/argus-aion-behavior.ts:33-38 | changing fewer than half of the values keeps the median within the unchanged ones |
| OrderStatistics.MedianExact | src/lib/argus-aion-behavior.ts:33-38 | the middle, or the mean of the two middles, of any ordered arrangement |
| OrderStatistics.RobustDeviationExact | src/lib/argus-aion-behavior.ts:40-46 | the deviation in units of six median absolute deviations, cut at one, and its special cases |
| OrderStatistics.MedianIgnoresOrder | src/lib/argus-aion-behavior.ts:33-38 | the median does not depend on order |
| OrderStatistics.MedianAffine | src/lib/argus-aion-behavior.ts:33-38 | the median commutes with every affine map |
| OrderStatistics.RobustDeviationAffine | src/lib/argus-aion-behavior.ts:40-46 | the deviation is unchanged when value and window are rescaled together by a nonzero factor |
| BehavioralSentinel.Sentinel.Observe | src/lib/argus-aion-behavior.ts:80-123 | the in-place observation is the specified step; rejected observations change nothing |
| BehavioralSentinel.WindowsAreSuffixes | src/lib/argus-aion-behavior.ts:116-139 | after any run the four baselines are the same last min(n, max) accepted observations |
| BehavioralSentinel.ScoreNeedsNoClamp | src/lib/argus-aion-behavior.ts:98-103 | the weighted score lies in [0, 1] by itself |
| BehavioralSentinel.ThresholdsNeedSignals | src/lib/argus-aion-behavior.ts:107-114 | CRITICAL needs all of latency, risk and veto to deviate, SUSPICIOUS at least two |
| BehavioralSentinel.AssessmentExact | src/lib/argus-aion-behavior.ts:90-123 | the assessment over everything accepted before: which measure meets which baseline, weights, thresholds and reasons |
| BehavioralSentinel.MeasuresExact | src/lib/argus-aion-behavior.ts:116-119 | which measure of an accepted observation enters which baseline |
| BehavioralSentinel.ConfigExact | src/lib/argus-aion-behavior.ts:70-78 | window of at least four, at least one sample, and the defaults |
| BehavioralSentinel.LearningExact | src/lib/argus-aion-behavior.ts:107-109 | exactly when an accepted observation is still judged LEARNING |
| BehavioralSentinel.AcceptedInOrder | src/lib/argus-aion-behavior.ts:84-86 | accepted sequences increase and timestamps never fall across a stretch without NaN |
| BehavioralSentinel.AcceptedExact | src/lib/argus-aion-behavior.ts:80-86 | in every run an observation is accepted exactly when valid, new in sequence and not earlier than the newest accepted |
| BehavioralSentinel.NaNTimestampDisarms | src/lib/argus-aion-behavior.ts:84-86 | after any run, an accepted NaN timestamp lets every valid observation with a larger sequence number follow |
| BehavioralSentinel.AnyTimeExact | src/lib/argus-aion-behavior.ts:84-86 | any timestamp may follow exactly when the newest accepted one is NaN or -Infinity, or sequence numbers are used up |
| BehavioralSentinel.ArmedUntilNaN | src/lib/argus-aion-behavior.ts:84-86 | until a NaN has been accepted the newest timestamp is never below zero |
| BehavioralSentinel.TimeCanRunBackwards | src/lib/argus-aion-behavior.ts:84-86 | the timestamps 100, NaN, 50 are accepted in this order |
| ArgusAion.Aion.ObserveHeartbeat | src/lib/argus-aion.ts:70-107 | the in-place heartbeat, with its four refusals and trimming loop, is the specified step |
| ArgusAion.Aion.InspectEvent | src/lib/argus-aion.ts:109-168 | the in-place inspection is the specified step |
| ArgusAion.Aion.ActivateRecovery | src/lib/argus-aion.ts:170-194 | the in-place activation is the specified step |
| ArgusAion.Aion.Quarantine | src/lib/argus-aion.ts:196-198 | changes the mode and nothing else |
| ArgusAion.InspectionExact | src/lib/argus-aion.ts:109-168 | after any trace an inspection reports a loss exactly when told one, or the last accepted heartbeat lies too far back; with newest sequence and epoch |
| ArgusAion.HeartbeatExact | src/lib/argus-aion.ts:70-107 | after any trace a heartbeat is recorded, field by field, exactly when well formed and new; refusals name the first defect |
| ArgusAion.ConfigExact | src/lib/argus-aion.ts:61-65 | the limits and defaults of the settings |
| ArgusAion.QuarantinedExact | src/lib/argus-aion.ts:109-198 | quarantined exactly since a quarantine that no heartbeat or other inspection than RESTORED has ended |
| ArgusAion.RecoveringExact | src/lib/argus-aion.ts:170-194 | in recovery exactly since a plan after which nothing cleared the loss |
| ArgusAion.DormantExact | src/lib/argus-aion.ts:51-52 | dormant exactly until the first recorded heartbeat, inspection or quarantine |
| ArgusAion.RingIsHistorySuffix | src/lib/argus-aion.ts:91-106 | the ring is the newest part of all accepted heartbeats, whose sequences strictly increase |
| ArgusAion.PlanTargetsThirdNewest | src/lib/argus-aion.ts:170-194 | exactly when a plan is issued; it targets the third-newest heartbeat ever accepted and names the configured number of nodes |
| ArgusAion.AwakeExactlyAfterLoss | src/lib/argus-aion.ts:109-198 | over every trace the node is awake if and only if a reported loss has not been cleared since |
| ArgusAion.PlanFollowsLoss | src/lib/argus-aion.ts:170-172 | each plan is preceded by an uncleared loss report |
| RecoveryMesh.Mesh.Verify | src/lib/argus-recovery-mesh.ts:62-96 | the attestation loop collects exactly the valid nodes, and the answer and consumed set are the specified ones |
| RecoveryMesh.Mesh.VerifyAndAuthorize | src/lib/argus-recovery-mesh.ts:121-148 | the same for the second operation |
| RecoveryMesh.ApprovedAtMostOnce | src/lib/argus-recovery-mesh.ts:75-147 | across any run mixing both operations a plan id is approved at most once |
| RecoveryMesh.ConsumedExact | src/lib/argus-recovery-mesh.ts:75-147 | after any run a plan id is consumed exactly when some call of it was approved |
| RecoveryMesh.ApprovalHasQuorum | src/lib/argus-recovery-mesh.ts:77-93 | unless the plan's quorum is NaN, an approval has that many distinct authorised nodes; each has a matching signature |
| RecoveryMesh.AcceptanceHasQuorum | src/lib/argus-recovery-mesh.ts:135-145 | unless the mesh's quorum is NaN, an acceptance has that many distinct nodes; each has a matching signature |
| RecoveryMesh.VerifyExact | src/lib/argus-recovery-mesh.ts:62-96 | every answer of verify, in the order of its checks and by the numbers |
| RecoveryMesh.AuthorizeExact | src/lib/argus-recovery-mesh.ts:56-148 | every answer of verifyAndAuthorize by the quorum the mesh was built with: below one counts as one, infinity is never reached, NaN always |
| RecoveryMesh.CreateExact | src/lib/argus-recovery-mesh.ts:35-50 | who can attest a plan, until when, and what the attestation holds |
| RecoveryMesh.EmptyQuorumExact | src/lib/argus-recovery-mesh.ts:73-93 | no attestation suffices exactly when the quorum is NaN |
| RecoveryMesh.EmptyAcceptanceExact | src/lib/argus-recovery-mesh.ts:56-60 | a mesh accepts a plan without attestations exactly when it was built with a NaN quorum |
| RecoveryMesh.AttestationBinds | src/lib/argus-recovery-mesh.ts:17-52 | exactly for which other plans an attestation counts: same id, digests and sequence, node listed, same signature |
| RecoveryMesh.AttestationBindsTerms | src/lib/argus-recovery-mesh.ts:121-142 | without digest checks the joined terms decide |
| RecoveryMesh.OneAttestationApprovesNarrowed | src/lib/argus-recovery-mesh.ts:62-96 | one attestation approves its plan narrowed to a quorum of one and that node |
| RecoveryMesh.MoreAttestationsKeepApproval | src/lib/argus-recovery-mesh.ts:77-93 | more attestations never revoke an approval |
| RecoveryMesh.MoreAttestationsKeepAcceptance | src/lib/argus-recovery-mesh.ts:135-145 | nor an acceptance |
| RecoveryMesh.OrderAndCopiesIrrelevant | src/lib/argus-recovery-mesh.ts:77-93 | the answer depends only on which attestations are present |
| RecoveryMesh.AuthorizeOrderAndCopiesIrrelevant | src/lib/argus-recovery-mesh.ts:135-145 | the same for the second operation |
| RecoveryMesh.CreatedAttestationsApprove | src/lib/argus-recovery-mesh.ts:35-49 | attestations created by authorised nodes approve exactly when their distinct senders reach the quorum, or it is NaN |
| AuditChain.AuditLog.RecordAudit | src/lib/atlas-kernel.server.ts:57-83 | a record extends the chain by one linked event and keeps the last 10,000 |
| AuditChain.AuditLog.VerifyAuditChain | src/lib/atlas-kernel.server.ts:89-99 | answers whether every event links, and otherwise the first that does not |
| AuditChain.GoodHashExists | src/lib/atlas-kernel.server.ts:51-55 | some hash tells all events apart and never yields GENESIS, so the assumption can be met |
| AuditChain.LastHashFixesLog | src/lib/atlas-kernel.server.ts:89-99 | two verifying logs with the same last hash are equal event for event |
| AuditChain.VerifiesExactly | src/lib/atlas-kernel.server.ts:47-99 | the retained window is linked to the last hash, and verifies exactly while nothing was dropped |
| AuditChain.RecordedFields | src/lib/atlas-kernel.server.ts:57-79 | the i-th event ever recorded carries the i-th input, its own hash and the one before |
| AuditChain.SequenceNumbers | src/lib/atlas-kernel.server.ts:65-66 | the sequence number stops at the limit plus one |
| FnvHash.ShortHash | lib/isabella/triple-lock.ts:39-46 | the signed 32-bit loop prints eight hex digits of the unsigned digest |
| FnvHash.DigestRounds | lib/isabella/triple-lock.ts:40-44 | offset basis, prime and width, round by round |
| FnvHash.SignedRound | lib/isabella/triple-lock.ts:42-43 | a signed round is a round modulo 2^32 |
| FnvHash.MixInjective | lib/isabella/triple-lock.ts:42-43 | a round loses neither the state nor the code unit |
| FnvHash.SuffixCancels | lib/isabella/triple-lock.ts:41-44 | a common suffix neither creates nor removes a collision |
| FnvHash.NoSingleUnitCollision | lib/isabella/triple-lock.ts:39-46 | changing exactly one code unit changes the printed hash |
| GovernanceLedger.AuditLedger.Append | lib/isabella/audit.ts:17-34 | an event is linked to the newest one and the last 200 are kept |
| GovernanceLedger.AppendedFields | lib/isabella/audit.ts:17-31 | the i-th event ever appended carries the i-th draft, its link, hash and id |
| GovernanceLedger.UnitsExact | lib/isabella/audit.ts:20-28 | text enters the ledger character by character |
| GovernanceLedger.AuditLedger.List | lib/isabella/audit.ts:36-38 | the newest events, newest first; everything for limit zero, all but the oldest for a negative one |
| GovernanceLedger.AuditLedger.VerifyChain | lib/isabella/audit.ts:40-47 | answers whether the link columns agree |
| GovernanceLedger.VerifiesExactly | lib/isabella/audit.ts:17-47 | exactly when the ledger verifies after any run |
| GovernanceLedger.GenesisValueExact | lib/isabella/audit.ts:20-22 | the padded hash is the genesis value exactly when the 32-bit digest is zero |
| GovernanceLedger.ContentNotCovered | lib/isabella/audit.ts:40-47 | rewriting content never changes the answer of the check |
| GovernanceLedger.SingleEditChangesHash | lib/isabella/audit.ts:20-22 | a recomputed hash would notice any single changed code unit of a summary |
| FixedWindowLimiter.Limiter.CheckRate | src/lib/anubis.server.ts:139-149 | the in-place counter is the specified step |
| FixedWindowLimiter.IntervalBound | src/lib/anubis.server.ts:135-149 | in every run one key gets at most 2 x 120 - 1 grants in any closed 60,000 ms |
| FixedWindowLimiter.BoundAttained | src/lib/anubis.server.ts:135-149 | a burst around a window boundary reaches that bound |
| SlidingLogLimiter.Limiter.EnforceRateLimit | scripts/voice/voice_api.py:123-136 | the filtering loop and rewrite are the specified step |
| SlidingLogLimiter.LogRefinesHistory | scripts/voice/voice_api.py:126-136 | the trimmed log answers window queries as the full history of grants |
| SlidingLogLimiter.IntervalBound | scripts/voice/voice_api.py:123-136 | in every run one client gets at most the configured number of grants in any closed 60 s |
| SlidingLogLimiter.RefusedExact | scripts/voice/voice_api.py:127-134 | a refusal happens exactly when that many were granted in the trailing interval |
| AegisScoring.CombineScores | src/lib/aegis-semantic.ts:608-615 | the loop computes one minus the product of the complements |
| AegisScoring.CombinedIgnoresOrder | src/lib/aegis-semantic.ts:608-615 | the combination does not depend on order |
| AegisScoring.CombinedBounds | src/lib/aegis-semantic.ts:608-615 | it lies between every clamped weight and one |
| AegisScoring.MoreWeightsScoreHigher | src/lib/aegis-semantic.ts:608-615 | more weights never lower it |
| AegisScoring.ScoreBehavior | src/lib/aegis-semantic.ts:649-685 | the stepwise score with boosts and final reset computes the specified score and verdict |
| AegisScoring.ScoreExact | src/lib/aegis-semantic.ts:649-668 | the score in full: structural signals, boosts, rate and ceiling |
| AegisScoring.VerdictExact | src/lib/aegis-semantic.ts:682-684 | the verdict in terms of the score |
| AegisScoring.ZeroingChangesNothing | src/lib/aegis-semantic.ts:671-680 | the final zeroing clause never changes the score |
| AegisScoring.VerdictNeverWeakens | src/lib/aegis-semantic.ts:649-685 | more findings, request rate or blocked count never weaken the verdict, with one exception |
| AegisScoring.BlockedCountExact | src/lib/aegis-semantic.ts:664-667 | that exception is exactly a rise from 1 to strictly between 1 and 2 |
| AegisScoring.StrongFindingDenies | src/lib/aegis-semantic.ts:66-66 | one finding of weight 0.8 or more forces a denial |
| AegisScoring.Analyze | src/lib/aegis-semantic.ts:691-708 | the findings are the detectors' in order, and the score is theirs |
| AegisScoring.FindingsExact | src/lib/aegis-semantic.ts:691-703 | every detector's findings, and nothing else, reach the analysis |
| AegisScoring.FindingsInOrder | src/lib/aegis-semantic.ts:691-703 | in the order of the source, once each |
| AegisScoring.MoreContextNeverWeakens | src/lib/aegis-semantic.ts:691-708 | more untrusted data, documents or a tool definition never weaken the verdict |
| BillingGuard.PayloadExact | src/lib/billing-guard.ts:53-60 | two payloads are equal exactly when operation, expiry and joined tenant and user are |
| BillingGuard.TokenText | src/lib/billing-guard.ts:53-95 | the text of an issued token, operation by operation |
| BillingGuard.ExpiryExact | src/lib/billing-guard.ts:83-86 | lifetimes between a second and a quarter of an hour, five minutes by default |
| BillingGuard.GoodMacExists | src/lib/billing-guard.ts:49-51 | some code tells all payloads apart and prints no dot, so the assumption can be met |
| BillingGuard.RoundTripExact | src/lib/billing-guard.ts:77-113 | exactly when an issued token verifies, for all tenants |
| BillingGuard.RoundTrip | src/lib/billing-guard.ts:77-113 | with colon-free tenants that is the issued binding within now < expiry <= now + 930,000 |
| BillingGuard.ColonInTenantConfuses | src/lib/billing-guard.ts:53-60 | a concrete pair of bindings that share a token |
| BillingGuard.DeriveBillingScopes | src/lib/billing-guard.ts:67-74 | the pushing loop computes the effective scopes |
| BillingGuard.ScopesExact | src/lib/billing-guard.ts:67-74 | signed scopes for everyone, the catalogue on top for privileged roles, nothing else |
| BillingGuard.RequiredScopes | src/lib/billing-authorization.ts:11-18 | the scope each operation needs |
| BillingGuard.AuthorizeBillingOperation | src/lib/billing-guard.ts:119-151 | the stepwise authorization computes the specified result |
| BillingGuard.DecisionExact | src/lib/billing-authorization.ts:26-40 | who may do what, and what each refusal means |
| BillingGuard.IssuedTokenAuthorizes | src/lib/billing-guard.ts:119-151 | a refund or topup with an issued token succeeds exactly for its binding, a privileged role and its window |
| Texts.ParsePrinted | src/lib/billing-guard.ts:93-106 | reading back a printed expiry gives the expiry |
| Texts.ParseExact | src/lib/billing-guard.ts:104-105 | leading spaces and one sign are passed over, digits taken, the rest ignored; no digit, no number |
| Texts.NatOfExact | src/lib/billing-guard.ts:105-105 | the value of the digits, one by one |
| Texts.PrintedForm | src/lib/billing-guard.ts:59-59 | a printed whole number has a sign exactly when negative and no leading zero |
| Texts.WordsExact | src/lib/billing-guard.ts:68-68 | spaces separate scopes, runs without spaces are single ones, none is empty |
| Texts.SpaceExact | src/lib/billing-guard.ts:68-68 | white space by code point |

## Left out

- ReplayStore.HeapPush: keeps the entries in expiry order, one arrangement that meets the contract of Python's heapq
  (the first entry is a least one); the sifting inside that library is not part of this model.
- SignatureChain.Apply: a pooled connection that stays in an aborted transaction shows up only as calls that fail;
  table creation and the process-local copy of the last link, which the durable path never reads, are omitted.
- AuthorizationEngine.EvaluateAuthorization: the chain is called through a parameter, which may answer as
  `SignatureChain` does; observation records, latencies and the resetting of the behaviour state are omitted.
- GovernanceLedger.AuditLedger.List: the limit is a whole number.
- BehaviorWindow.Observe: header parsing and the fingerprint hash are inputs.
- RecoveryMesh.DeriveEpoch: the printing of the checkpoint sequence is a parameter.
- BillingGuard.Expiry: clock readings and lifetimes are whole milliseconds; a fractional one would print a dot.
- ArgusAion.NewConfig: capacity, threshold and node count are whole numbers; plan ids and plan digests are omitted.
- BehavioralSentinel.NewConfig: the window and the sample minimum are whole numbers; observation digests are omitted.
- AegisScoring.Analyze: the returned score is not rounded to three decimals (the verdict is taken before rounding), and
  the pattern catalogues and the imperative density are parameters.
- AuditChain.AuditLog.RecordAudit: the metric counter and the reading endpoints are omitted.
- The strict adapter of the sentinel, `signAttestation`, histograms and the metrics registry: only easy members.
- TokenGate.Runtime.Authorize: decoding, with the JWT library's own checks, and the claim checks are one parameter with
  one refusal; the audit append is omitted.
- `DecisionCache` of the Python runtime: it is constructed but never consulted when authorizing.
- `AuditStore`, JWT and JWKS verification, request parsing and HTTP handling: storage, foreign calls and I/O.
- Triple-lock and policy-kernel pattern matching, trails and records: pattern catalogues and simple lists.
- User interface, rendering, routing, catalogues and migrations.
