/** The policy decision point: cache in front of the evaluator, behaviour window behind the score. */
module AuthorizationEngine {
  import opened Options
  import opened JsNumbers
  import opened Ranges
  import opened TenantKeys
  import opened AuthorizationPolicy
  import opened BehaviorWindow
  import C = PolicyCache
  import S = SignatureChain

  datatype Outcome = Outcome(allow: bool, obligations: seq<string>)

  const UNCACHED_ACTIONS: set<string> := {"delete", "transfer", "publish", "administer"}

  predicate DenyMark(o: string) {
    "deny:" <= o
  }

  predicate HasDenyMark(obligations: seq<string>) {
    exists i :: 0 <= i < |obligations| && DenyMark(obligations[i])
  }

  /** The obligations of the answer: a denial always carries its reason. */
  function Finish(allow: bool, obligations: seq<string>, denyReason: string): Outcome {
    Outcome(allow, if !allow && !HasDenyMark(obligations) then obligations + ["deny:" + denyReason] else obligations)
  }

  /** What evaluating afresh answers. */
  function Fresh(env: Env, r: Request): Outcome {
    match Decide(env, r)
    case Allow => Outcome(true, ALLOW_OBLIGATIONS)
    case Deny(reason) => Outcome(false, ["deny:" + reason])
  }

  /** The result written to the cache. */
  function PolicyOf(env: Env, r: Request): C.Policy {
    var verdict := Decide(env, r);
    C.Policy(
      r.tenantId, r.subjectId, r.action, r.resource, r.role, r.authenticated, POLICY_VERSION, verdict.Allow?,
      if verdict.Allow? then ALLOW_OBLIGATIONS else [],
      if verdict.Allow? then None else Some(verdict.reason),
      ["tenant:" + r.tenantId, "subject:" + r.subjectId, "policy:" + POLICY_VERSION])
  }

  /** The answer built from a cached result. */
  function FromCache(e: C.Entry): Outcome {
    var p := e.policy;
    Finish(p.allow, p.obligations,
           if p.denyReason.Some? then p.denyReason.value else if p.allow then "" else "cached-deny")
  }

  /** A cached result answers as it stands; a denial without a mark gets one, from its reason or as a cached one. */
  lemma CachedAnswer(e: C.Entry)
    ensures var p := e.policy;
      FromCache(e) == Outcome(p.allow,
        if p.allow || exists i :: 0 <= i < |p.obligations| && "deny:" <= p.obligations[i] then p.obligations
        else p.obligations + ["deny:" + if p.denyReason.Some? then p.denyReason.value else "cached-deny"])
  {
    if i :| 0 <= i < |e.policy.obligations| && "deny:" <= e.policy.obligations[i] {
      assert DenyMark(e.policy.obligations[i]);
    }
  }

  predicate Cacheable(r: Request) {
    r.action !in UNCACHED_ACTIONS
  }

  /** The decision with the cache in front: the map afterwards, and the answer. Read and write each read the clock. */
  function Evaluate(env: Env, digest: Digest, slots: C.Slots, r: Request, readAt: real, writeAt: real)
    : (C.Slots, Outcome)
  {
    var key := CacheKey(digest, r);
    if !Cacheable(r) then (slots, Fresh(env, r))
    else
      var found := C.Lookup(slots, key, readAt);
      var read := C.AfterGet(slots, key, readAt);
      if found.Some? then (read, FromCache(found.value))
      else (C.AfterSet(read, key, PolicyOf(env, r), writeAt, C.MAX_CACHE_ENTRIES), Fresh(env, r))
  }

  lemma FinishIsFresh(env: Env, r: Request, denyReason: string)
    requires Decide(env, r).Deny? ==> denyReason == Decide(env, r).reason
    ensures var allow := Decide(env, r).Allow?;
      Finish(allow, if allow then ALLOW_OBLIGATIONS else [], denyReason) == Fresh(env, r)
  {
    hide Decide;
    assert [] + ["deny:" + denyReason] == ["deny:" + denyReason];
  }

  // What every decision keeps of the cache, whatever the digest.

  ghost predicate WellKept(slots: C.Slots) {
    C.DistinctKeys(slots) && |slots| <= C.MAX_CACHE_ENTRIES && C.Timed(slots)
  }

  lemma ReadWellKept(slots: C.Slots, key: string, now: real)
    requires WellKept(slots)
    ensures WellKept(C.AfterGet(slots, key, now))
  {
    C.WithoutExact(slots, key);
    C.WithoutKeepsDistinct(slots, key);
  }

  lemma WriteWellKept(slots: C.Slots, key: string, p: C.Policy, now: real)
    requires WellKept(slots)
    ensures WellKept(C.AfterSet(slots, key, p, now, C.MAX_CACHE_ENTRIES))
  {
    C.WriteBounds(slots, key, p, now, C.MAX_CACHE_ENTRIES);
    C.TimedKept(slots, key, p, now, {});
    hide C.AfterSet, C.BeforeEviction, C.DistinctKeys, C.Timed;
  }

  lemma EvaluateWellKept(env: Env, digest: Digest, slots: C.Slots, r: Request, readAt: real, writeAt: real)
    requires WellKept(slots)
    ensures WellKept(Evaluate(env, digest, slots, r, readAt, writeAt).0)
  {
    hide WellKept, CacheKey, PolicyOf, Fresh, FromCache, C.AfterSet, C.AfterGet, C.Lookup;
    var key := CacheKey(digest, r);
    ReadWellKept(slots, key, readAt);
    WriteWellKept(C.AfterGet(slots, key, readAt), key, PolicyOf(env, r), writeAt);
  }

  // Cache transparency.

  /** The slot answers every request with its key as evaluating afresh would. */
  ghost predicate SlotSound(env: Env, digest: Digest, x: C.Slot) {
    forall r :: CacheKey(digest, r) == x.key ==> FromCache(x.entry) == Fresh(env, r)
  }

  ghost predicate Sound(env: Env, digest: Digest, slots: C.Slots) {
    WellKept(slots) && forall x :: x in slots ==> SlotSound(env, digest, x)
  }

  lemma WrittenSlotSound(env: Env, digest: Digest, r: Request, now: real)
    requires Injective(digest)
    ensures SlotSound(env, digest, C.Slot(CacheKey(digest, r), C.NewEntry(PolicyOf(env, r), now)))
  {
    hide Decide, Injective, CacheKey;
    forall s | CacheKey(digest, s) == CacheKey(digest, r)
      ensures FromCache(C.NewEntry(PolicyOf(env, r), now)) == Fresh(env, s)
    {
      KeySufficient(env, digest, r, s);
    }
  }

  lemma ReadKeepsSound(env: Env, digest: Digest, slots: C.Slots, key: string, now: real)
    requires Sound(env, digest, slots)
    ensures Sound(env, digest, C.AfterGet(slots, key, now))
    ensures C.Lookup(slots, key, now).Some? ==> C.Slot(key, C.Lookup(slots, key, now).value) in slots
  {
    hide SlotSound;
    ReadWellKept(slots, key, now);
    C.WithoutExact(slots, key);
    C.FindExact(slots, key);
  }

  /** One decision: the answer is the fresh one, hit or miss, and the cache stays sound. */
  lemma Transparent(env: Env, digest: Digest, slots: C.Slots, r: Request, readAt: real, writeAt: real)
    requires Injective(digest) && Sound(env, digest, slots)
    ensures var (after, outcome) := Evaluate(env, digest, slots, r, readAt, writeAt);
      Sound(env, digest, after) && outcome == Fresh(env, r)
  {
    var key := CacheKey(digest, r);
    var read := C.AfterGet(slots, key, readAt);
    ReadKeepsSound(env, digest, slots, key, readAt);
    EvaluateWellKept(env, digest, slots, r, readAt, writeAt);
    C.SetContents(read, key, PolicyOf(env, r), writeAt, C.MAX_CACHE_ENTRIES);
    WrittenSlotSound(env, digest, r, writeAt);
    hide WellKept, CacheKey, PolicyOf, Fresh, FromCache, Injective, C.AfterSet, C.AfterGet, C.Lookup;
    if Cacheable(r) && C.Lookup(slots, key, readAt).Some? {
      assert SlotSound(env, digest, C.Slot(key, C.Lookup(slots, key, readAt).value));
    }
  }

  // The whole engine: requests through the gateway, direct evaluations, outcomes and invalidations.

  datatype Event =
    | Gateway(p: Probe, action: string, resource: string, role: Option<string>, now: real, readAt: real, writeAt: real)
    | Direct(r: Request, now: real, readAt: real, writeAt: real)
    | RecordOutcome(tenantId: string, subjectId: string, allowed: bool)
    | Invalidate(keys: set<string>)
    | ClearCache

  datatype Engine = Engine(slots: C.Slots, windows: Windows)

  const BOOT := Engine([], map[])

  /** The request the gateway builds: authenticated, with the context of this very request. */
  function GatewayRequest(e: Event, context: DynamicContext): Request
    requires e.Gateway?
  {
    Request(e.p.tenantId, e.p.subjectId, e.action, e.resource, e.role, true, None, None, context)
  }

  /** The request that an event evaluates, if it evaluates one. */
  function Evaluated(g: Engine, e: Event): Option<Request> {
    match e
    case Gateway(p, _, _, _, now, _, _) => Some(GatewayRequest(e, Build(g.windows, p, now).1))
    case Direct(r, _, _, _) => Some(r)
    case _ => None
  }

  function Answer(env: Env, digest: Digest, g: Engine, e: Event): Option<Outcome> {
    var r := Evaluated(g, e);
    if r.None? then None
    else Some(Evaluate(env, digest, g.slots, r.value, e.readAt, e.writeAt).1)
  }

  function Step(env: Env, digest: Digest, g: Engine, e: Event): Engine {
    match e
    case Gateway(p, _, _, _, now, readAt, writeAt) =>
      var (windows, context) := Build(g.windows, p, now);
      Engine(Evaluate(env, digest, g.slots, GatewayRequest(e, context), readAt, writeAt).0, windows)
    case Direct(r, _, readAt, writeAt) => g.(slots := Evaluate(env, digest, g.slots, r, readAt, writeAt).0)
    case RecordOutcome(t, s, allowed) => g.(windows := Record(g.windows, t, s, allowed))
    case Invalidate(keys) => g.(slots := C.Kept(g.slots, keys))
    case ClearCache => g.(slots := [])
  }

  function Run(env: Env, digest: Digest, events: seq<Event>): Engine {
    if events == [] then BOOT
    else Step(env, digest, Run(env, digest, events[..|events| - 1]), events[|events| - 1])
  }

  // The answer as it leaves: signed and chained, or turned into a denial.

  datatype Payload = Payload(
    decisionId: string, tenantId: string, subjectId: string, action: string, resource: string, allow: bool,
    obligations: seq<string>, policyVersion: string, issuedAt: real, expiresAt: real, context: DynamicContext,
    anomalyScore: Num)

  /** The key manager: signing and hashing of payloads. */
  datatype Hsm = Hsm(sign: Payload -> string, hash: Payload -> string)

  datatype SignedDecision = SignedDecision(
    payload: Payload, signature: string, signatureChain: string, previousHash: string, cacheHit: bool)

  function BasePayload(r: Request, outcome: Outcome, decisionId: string, now: real): Payload {
    Payload(decisionId, r.tenantId, r.subjectId, r.action, r.resource, outcome.allow, outcome.obligations,
            POLICY_VERSION, now, now + 300_000.0, r.dynamic, DynamicRisk(r.dynamic))
  }

  /** What is handed to the chain. */
  function ChainDecision(hsm: Hsm, base: Payload): S.Decision {
    S.Decision(base.tenantId, hsm.hash(base), hsm.sign(base), base.allow)
  }

  /** The signed decision, given the link the chain handed back; None when the chain was unavailable. */
  function Seal(hsm: Hsm, base: Payload, link: Option<S.Link>, cacheHit: bool): SignedDecision {
    if link.Some? then SignedDecision(base, hsm.sign(base), link.value.sigchain, link.value.previousHash, cacheHit)
    else
      var denied := base.(allow := false, obligations := base.obligations + ["deny:hsm-durable-unavailable"]);
      SignedDecision(denied, hsm.sign(denied), "unavailable:hsm-durable", "unavailable:hsm-durable", cacheHit)
  }

  /**
   * `evaluateAuthorization`, with `advance` for the chain. Cache and behaviour store change as the run model
   * says: by the evaluation, then by its recorded outcome.
   */
  method EvaluateAuthorization(env: Env, digest: Digest, hsm: Hsm, advance: S.Decision -> Option<S.Link>,
                               cache: C.Cache, store: BehaviorStore, r: Request, decisionId: string,
                               now: real, readAt: real, writeAt: real)
    returns (d: SignedDecision)
    requires cache.Valid()
    modifies cache, store
    ensures cache.Valid()
    ensures var g := Engine(old(cache.slots), old(store.behavior));
      var e := Direct(r, now, readAt, writeAt);
      var base := BasePayload(r, Answer(env, digest, g, e).value, decisionId, now);
      && d == Seal(hsm, base, advance(ChainDecision(hsm, base)),
                   Cacheable(r) && C.Lookup(old(cache.slots), CacheKey(digest, r), readAt).Some?)
      && Engine(cache.slots, store.behavior)
         == Step(env, digest, Step(env, digest, g, e), RecordOutcome(r.tenantId, r.subjectId, d.payload.allow))
  {
    hide Decide, CacheKey, C.AfterSet, C.AfterGet, C.Lookup, Record, C.DistinctKeys;
    var eligible := Cacheable(r);
    var key := CacheKey(digest, r);
    var allow, obligations, denyReason := false, [], "deny-by-default";
    var cached: Option<C.Entry> := None;
    if eligible {
      cached := cache.Get(key, readAt);
    }
    var cacheHit := cached.Some?;
    if cacheHit {
      allow := cached.value.policy.allow;
      obligations := cached.value.policy.obligations;
      denyReason := if cached.value.policy.denyReason.Some? then cached.value.policy.denyReason.value
                    else if allow then "" else "cached-deny";
    } else {
      allow, obligations, denyReason := EvaluatePolicy(env, r);
      if eligible {
        var p := C.Policy(
          r.tenantId, r.subjectId, r.action, r.resource, r.role, r.authenticated, POLICY_VERSION, allow, obligations,
          if allow then None else Some(denyReason),
          ["tenant:" + r.tenantId, "subject:" + r.subjectId, "policy:" + POLICY_VERSION]);
        assert p == PolicyOf(env, r);
        var _ := cache.Set(key, p, writeAt);
      }
      assert Finish(allow, obligations, denyReason) == Fresh(env, r) by { FinishIsFresh(env, r, denyReason); }
    }
    var finished := Finish(allow, obligations, denyReason);
    ghost var g := Engine(old(cache.slots), old(store.behavior));
    assert finished == Answer(env, digest, g, Direct(r, now, readAt, writeAt)).value;
    var base := BasePayload(r, finished, decisionId, now);
    var link := advance(ChainDecision(hsm, base));
    d := Seal(hsm, base, link, cacheHit);
    store.RecordAuthorizationOutcome(r.tenantId, r.subjectId, d.payload.allow);
  }

  lemma StepKeepsSound(env: Env, digest: Digest, g: Engine, e: Event)
    requires Injective(digest) && Sound(env, digest, g.slots)
    ensures Sound(env, digest, Step(env, digest, g, e).slots)
    ensures Evaluated(g, e).Some? ==> Answer(env, digest, g, e) == Some(Fresh(env, Evaluated(g, e).value))
  {
    hide SlotSound, Evaluate, Fresh, Injective;
    if Evaluated(g, e).Some? {
      Transparent(env, digest, g.slots, Evaluated(g, e).value, e.readAt, e.writeAt);
    } else if e.Invalidate? {
      C.KeptExact(g.slots, e.keys);
    }
  }

  lemma {:induction false} RunSound(env: Env, digest: Digest, events: seq<Event>)
    requires Injective(digest)
    ensures Sound(env, digest, Run(env, digest, events).slots)
  {
    hide Sound, Step, Injective;
    if events == [] {
      EmptySound(env, digest);
    } else {
      RunSound(env, digest, events[..|events| - 1]);
      StepKeepsSound(env, digest, Run(env, digest, events[..|events| - 1]), events[|events| - 1]);
    }
  }

  lemma EmptySound(env: Env, digest: Digest)
    ensures Sound(env, digest, [])
  {
  }

  /**
   * After any interleaving of requests, expiries, evictions, invalidations and clearings, whatever the
   * clock reads, every evaluation answers as if there were no cache.
   */
  lemma CacheTransparent(env: Env, digest: Digest, events: seq<Event>, e: Event)
    requires Injective(digest)
    ensures var g := Run(env, digest, events);
      Evaluated(g, e).Some? ==> Answer(env, digest, g, e) == Some(Fresh(env, Evaluated(g, e).value))
  {
    hide Sound, Run, Answer, Fresh, Evaluated, Injective;
    RunSound(env, digest, events);
    StepKeepsSound(env, digest, Run(env, digest, events), e);
  }

  /** The payload of a sealed decision, field by field, with or without the chain. */
  lemma SealedFields(hsm: Hsm, env: Env, r: Request, decisionId: string, now: real, link: Option<S.Link>,
                     cacheHit: bool)
    ensures var d := Seal(hsm, BasePayload(r, Fresh(env, r), decisionId, now), link, cacheHit);
      var p := d.payload;
      && (p.allow <==> Decide(env, r).Allow? && link.Some?)
      && (p.allow ==> p.obligations == ["log_verbose", "pqc_signature_required"])
      && (Decide(env, r).Deny? && link.Some? ==> p.obligations == ["deny:" + Decide(env, r).reason])
      && (Decide(env, r).Deny? && link.None? ==>
            p.obligations == ["deny:" + Decide(env, r).reason, "deny:hsm-durable-unavailable"])
      && (Decide(env, r).Allow? && link.None? ==>
            p.obligations == ["log_verbose", "pqc_signature_required", "deny:hsm-durable-unavailable"])
      && p.decisionId == decisionId && p.tenantId == r.tenantId && p.subjectId == r.subjectId
      && p.action == r.action && p.resource == r.resource && p.policyVersion == "v4.1.0-native-context"
      && p.issuedAt == now && p.expiresAt == now + 300_000.0
      && p.context == r.dynamic && p.anomalyScore == DynamicRisk(r.dynamic)
      && d.signature == hsm.sign(p) && d.cacheHit == cacheHit
      && (link.Some? ==> d.signatureChain == link.value.sigchain && d.previousHash == link.value.previousHash)
      && (link.None? ==> d.signatureChain == d.previousHash == "unavailable:hsm-durable")
  {
    hide Decide;
  }

  /** A denial is marked as one, with or without the chain. */
  lemma SealedMark(hsm: Hsm, env: Env, r: Request, decisionId: string, now: real, link: Option<S.Link>, cacheHit: bool)
    ensures var d := Seal(hsm, BasePayload(r, Fresh(env, r), decisionId, now), link, cacheHit);
      && (d.payload.allow <==> Decide(env, r).Allow? && link.Some?)
      && (!d.payload.allow ==> HasDenyMark(d.payload.obligations))
      && d.signature == hsm.sign(d.payload)
  {
    hide Decide;
    var d := Seal(hsm, BasePayload(r, Fresh(env, r), decisionId, now), link, cacheHit);
    if !d.payload.allow {
      assert DenyMark(d.payload.obligations[|d.payload.obligations| - 1]);
    }
  }

  /**
   * End to end: whatever the run before, and however the chain's transactions interleave, a call is allowed
   * exactly when the policy allows its request and the chain handed its link back. That link is then in the
   * tenant's list, every denial says that it is one, and the signature is that of the payload returned. The
   * converse on the list fails: a commit with a lost acknowledgement leaves a link behind a denial
   * (`SignatureChain.LostAcknowledgement`).
   */
  lemma AllowIsDecidedAndChained(env: Env, digest: Digest, events: seq<Event>, e: Event, hsm: Hsm, decisionId: string,
                                 now: real, cacheHit: bool, chain: S.Env, steps: seq<S.Step>, a: S.Answer)
    requires Injective(digest) && Evaluated(Run(env, digest, events), e).Some?
    requires a in S.Run(chain, steps).answers
    requires var g := Run(env, digest, events);
      var base := BasePayload(Evaluated(g, e).value, Answer(env, digest, g, e).value, decisionId, now);
      a.decision == ChainDecision(hsm, base)
    ensures var g := Run(env, digest, events);
      var r := Evaluated(g, e).value;
      var d := Seal(hsm, BasePayload(r, Answer(env, digest, g, e).value, decisionId, now), a.link, cacheHit);
      && (d.payload.allow <==> Decide(env, r).Allow? && a.link.Some?)
      && (d.payload.allow <==> a.allow)
      && (d.payload.allow ==>
            var links := S.OfTenant(S.Run(chain, steps).log, r.tenantId);
            exists i :: 0 <= i < |links| && links[i] == a.link.value
                        && a.link.value.decision.hash == hsm.hash(d.payload)
                        && d.previousHash == S.LastRow(links[..i]).lastHash)
      && (!d.payload.allow ==> HasDenyMark(d.payload.obligations))
      && d.signature == hsm.sign(d.payload)
  {
    hide Run, Decide, Answer, Evaluated, Injective, HasDenyMark, Fresh, S.Run, S.OfTenant, S.LastRow;
    var r := Evaluated(Run(env, digest, events), e).value;
    CacheTransparent(env, digest, events, e);
    SealedMark(hsm, env, r, decisionId, now, a.link, cacheHit);
    S.AllowImpliesCommitted(chain, steps, a);
  }

  /**
   * And such calls are answered: whenever the transaction of a call has written its link, an acknowledged commit
   * makes the answer what the policy decided, an allow included.
   */
  lemma CommitLetsDecisionStand(env: Env, digest: Digest, events: seq<Event>, e: Event, hsm: Hsm, decisionId: string,
                                now: real, cacheHit: bool, chain: S.Env, steps: seq<S.Step>, p: nat)
    requires Injective(digest) && Evaluated(Run(env, digest, events), e).Some?
    requires p in S.Run(chain, steps).calls && S.Run(chain, steps).calls[p].Written?
    requires var g := Run(env, digest, events);
      S.Run(chain, steps).calls[p].d
      == ChainDecision(hsm, BasePayload(Evaluated(g, e).value, Answer(env, digest, g, e).value, decisionId, now))
    ensures var g := Run(env, digest, events);
      var r := Evaluated(g, e).value;
      var answers := S.Run(chain, steps + [S.Commit(p)]).answers;
      && |answers| == |S.Run(chain, steps).answers| + 1
      && var a := answers[|answers| - 1];
      var d := Seal(hsm, BasePayload(r, Answer(env, digest, g, e).value, decisionId, now), a.link, cacheHit);
      (d.payload.allow <==> Decide(env, r).Allow?) && a.allow == d.payload.allow
  {
    hide Run, Decide, Answer, Evaluated, Injective, HasDenyMark, Fresh, S.Run, S.OfTenant, S.LastRow;
    CacheTransparent(env, digest, events, e);
    S.AcknowledgedCommit(chain, steps, p);
    var a := S.Run(chain, steps + [S.Commit(p)]).answers[|S.Run(chain, steps).answers|];
    SealedMark(hsm, env, Evaluated(Run(env, digest, events), e).value, decisionId, now, a.link, cacheHit);
  }

  lemma StepWellKept(env: Env, digest: Digest, g: Engine, e: Event)
    requires WellKept(g.slots)
    ensures WellKept(Step(env, digest, g, e).slots)
  {
    hide Evaluate, Build;
    if Evaluated(g, e).Some? {
      EvaluateWellKept(env, digest, g.slots, Evaluated(g, e).value, e.readAt, e.writeAt);
    } else if e.Invalidate? {
      C.KeptExact(g.slots, e.keys);
    }
  }

  lemma {:induction false} RunWellKept(env: Env, digest: Digest, events: seq<Event>)
    ensures WellKept(Run(env, digest, events).slots)
  {
    hide Step;
    if events != [] {
      RunWellKept(env, digest, events[..|events| - 1]);
      StepWellKept(env, digest, Run(env, digest, events[..|events| - 1]), events[|events| - 1]);
    }
  }

  /**
   * In every run, whatever the digest, the cache stays within its bound and never serves an allow 120 s, or a
   * deny 60 s, after issue.
   */
  lemma ServedFreshInEveryRun(env: Env, digest: Digest, events: seq<Event>, key: string, now: real)
    ensures var slots := Run(env, digest, events).slots;
      && |slots| <= 5_000
      && (C.Lookup(slots, key, now).Some? ==>
            var e := C.Lookup(slots, key, now).value;
            now < e.issuedAt + if e.policy.allow then 120_000.0 else 60_000.0)
  {
    hide Run, C.Lookup;
    RunWellKept(env, digest, events);
    var slots := Run(env, digest, events).slots;
    if C.Lookup(slots, key, now).Some? {
      C.ServedInTime(slots, key, now);
    }
  }

  // What the cache holds, and what invalidation takes from it.

  /** The slot was written for some cacheable request, under its key. */
  ghost predicate WrittenFor(env: Env, digest: Digest, x: C.Slot) {
    exists r, now :: WrittenBy(env, digest, x, r, now)
  }

  predicate WrittenBy(env: Env, digest: Digest, x: C.Slot, r: Request, now: real) {
    Cacheable(r) && x == C.Slot(CacheKey(digest, r), C.NewEntry(PolicyOf(env, r), now))
  }

  ghost predicate AllWritten(env: Env, digest: Digest, slots: C.Slots) {
    forall x :: x in slots ==> WrittenFor(env, digest, x)
  }

  lemma EvaluateWritten(env: Env, digest: Digest, slots: C.Slots, r: Request, readAt: real, writeAt: real)
    requires WellKept(slots) && AllWritten(env, digest, slots)
    ensures AllWritten(env, digest, Evaluate(env, digest, slots, r, readAt, writeAt).0)
  {
    hide PolicyOf, CacheKey, Fresh, FromCache, C.NewEntry;
    var key := CacheKey(digest, r);
    var read, p := C.AfterGet(slots, key, readAt), PolicyOf(env, r);
    ReadWellKept(slots, key, readAt);
    C.ReadExact(slots, key, readAt);
    C.SetContents(read, key, p, writeAt, C.MAX_CACHE_ENTRIES);
    hide C.AfterGet, C.AfterSet, C.Lookup, WellKept;
    if Cacheable(r) {
      assert WrittenBy(env, digest, C.Slot(key, C.NewEntry(p, writeAt)), r, writeAt);
    }
  }

  /** In every run each slot was written for a request, whose fields and decision it holds. */
  lemma {:induction false} RunWritten(env: Env, digest: Digest, events: seq<Event>)
    ensures AllWritten(env, digest, Run(env, digest, events).slots)
  {
    hide Evaluate, Build, WellKept, WrittenFor;
    if events != [] {
      var init, e := events[..|events| - 1], events[|events| - 1];
      RunWritten(env, digest, init);
      RunWellKept(env, digest, init);
      RunStep(env, digest, events);
      var g := Run(env, digest, init);
      hide Run;
      if Evaluated(g, e).Some? {
        EvaluateWritten(env, digest, g.slots, Evaluated(g, e).value, e.readAt, e.writeAt);
      } else if e.Invalidate? {
        C.KeptExact(g.slots, e.keys);
      }
    }
  }

  /** The fields of the slot written for a request. */
  lemma SlotFields(env: Env, digest: Digest, x: C.Slot, r: Request, now: real)
    requires WrittenBy(env, digest, x, r, now)
    ensures var p, v := x.entry.policy, Decide(env, r);
      && x.key == CacheKey(digest, r) && r.action !in {"delete", "transfer", "publish", "administer"}
      && p.tenantId == r.tenantId && p.subjectId == r.subjectId && p.action == r.action && p.resource == r.resource
      && p.role == r.role && p.authenticated == r.authenticated && p.policyVersion == "v4.1.0-native-context"
      && p.allow == v.Allow?
      && p.obligations == (if v.Allow? then ["log_verbose", "pqc_signature_required"] else [])
      && p.denyReason == (if v.Allow? then None else Some(v.reason))
      && p.invalidationKeys == ["tenant:" + r.tenantId, "subject:" + r.subjectId, "policy:v4.1.0-native-context"]
      && x.entry.issuedAt == now && x.entry.expiresAt == now + if v.Allow? then 120_000.0 else 60_000.0
  {
    hide Decide, CacheKey;
    assert "policy:" + POLICY_VERSION == "policy:v4.1.0-native-context";
  }

  lemma PrefixedDistinct(a: string, b: string)
    ensures "tenant:" + a == "tenant:" + b <==> a == b
    ensures "subject:" + a == "subject:" + b <==> a == b
    ensures "tenant:" + a != "subject:" + b && "tenant:" + a != "policy:v4.1.0-native-context"
    ensures "subject:" + a != "policy:v4.1.0-native-context"
  {
    assert ("tenant:" + a)[7..] == a && ("tenant:" + b)[7..] == b;
    assert ("subject:" + a)[8..] == a && ("subject:" + b)[8..] == b;
    assert ("tenant:" + a)[0] == 't' && ("subject:" + b)[0] == 's' && ("subject:" + a)[0] == 's';
  }

  lemma SharedInvalidationKey(env: Env, digest: Digest, x: C.Slot, name: string)
    requires WrittenFor(env, digest, x)
    ensures "tenant:" + name in x.entry.policy.invalidationKeys <==> x.entry.policy.tenantId == name
    ensures "subject:" + name in x.entry.policy.invalidationKeys <==> x.entry.policy.subjectId == name
    ensures "policy:v4.1.0-native-context" in x.entry.policy.invalidationKeys
  {
    var r, now :| WrittenBy(env, digest, x, r, now);
    SlotFields(env, digest, x, r, now);
    PrefixedDistinct(name, r.tenantId);
    PrefixedDistinct(r.tenantId, name);
    PrefixedDistinct(name, r.subjectId);
    PrefixedDistinct(r.tenantId, r.subjectId);
    hide WrittenBy, Decide;
    assert x.entry.policy.invalidationKeys[2] == "policy:v4.1.0-native-context";
    assert x.entry.policy.invalidationKeys[0] == "tenant:" + r.tenantId;
    assert x.entry.policy.invalidationKeys[1] == "subject:" + r.subjectId;
  }

  /**
   * After any run, invalidating by tenant removes exactly the results of that tenant, by subject exactly those of
   * that subject, and by the policy version everything.
   */
  lemma InvalidationExact(env: Env, digest: Digest, events: seq<Event>, name: string)
    ensures var slots := Run(env, digest, events).slots;
      && (forall x :: x in C.Kept(slots, {"tenant:" + name}) <==> x in slots && x.entry.policy.tenantId != name)
      && (forall x :: x in C.Kept(slots, {"subject:" + name}) <==> x in slots && x.entry.policy.subjectId != name)
      && C.Kept(slots, {"policy:v4.1.0-native-context"}) == []
  {
    hide Run, WrittenFor, C.SharesKey;
    RunWritten(env, digest, events);
    var slots := Run(env, digest, events).slots;
    forall x | x in slots
      ensures "tenant:" + name in x.entry.policy.invalidationKeys <==> x.entry.policy.tenantId == name
      ensures "subject:" + name in x.entry.policy.invalidationKeys <==> x.entry.policy.subjectId == name
      ensures "policy:v4.1.0-native-context" in x.entry.policy.invalidationKeys
    {
      SharedInvalidationKey(env, digest, x, name);
    }
    C.KeptExact(slots, {"tenant:" + name});
    C.KeptExact(slots, {"subject:" + name});
    C.KeptExact(slots, {"policy:v4.1.0-native-context"});
    hide C.Kept;
    NothingIn(C.Kept(slots, {"policy:v4.1.0-native-context"}));
  }

  lemma NothingIn(s: C.Slots)
    ensures (forall x :: x !in s) ==> s == []
  {
    if s != [] {
      assert s[0] in s;
    }
  }

  /** So right after its tenant has been invalidated a request is evaluated afresh. */
  lemma InvalidatedTenantMisses(env: Env, digest: Digest, events: seq<Event>, r: Request, now: real)
    requires Injective(digest)
    ensures var g := Run(env, digest, events + [Invalidate({"tenant:" + r.tenantId})]);
      C.Lookup(g.slots, CacheKey(digest, r), now).None?
  {
    hide Run, WrittenFor, Injective, CacheKey, C.Kept, C.Lookup, WellKept;
    var all := events + [Invalidate({"tenant:" + r.tenantId})];
    assert all[..|events|] == events;
    RunStep(env, digest, all);
    InvalidationExact(env, digest, events, r.tenantId);
    RunWritten(env, digest, events);
    RunWellKept(env, digest, all);
    var slots := Run(env, digest, all).slots;
    assert C.DistinctKeys(slots) by { WellKeptKeys(slots); }
    C.ReadExact(slots, CacheKey(digest, r), now);
    if C.Lookup(slots, CacheKey(digest, r), now).Some? {
      var x := C.Slot(CacheKey(digest, r), C.Lookup(slots, CacheKey(digest, r), now).value);
      assert x in slots;
      OwnTenant(env, digest, x, r);
    }
  }

  lemma WellKeptKeys(slots: C.Slots)
    requires WellKept(slots)
    ensures C.DistinctKeys(slots) && |slots| <= 5_000
  {
  }

  lemma OwnTenant(env: Env, digest: Digest, x: C.Slot, r: Request)
    requires Injective(digest) && WrittenFor(env, digest, x) && x.key == CacheKey(digest, r)
    ensures x.entry.policy.tenantId == r.tenantId
  {
    var s, now :| WrittenBy(env, digest, x, s, now);
    SlotFields(env, digest, x, s, now);
    hide Decide;
    assert KeyRecordOf(r) == KeyRecordOf(s);
  }

  /**
   * Deletions, transfers, publications and administration neither read nor write the cache. Any other evaluation
   * over a live slot of its key is answered from it; and one that misses, with room left, is what the next one
   * hits until the lifetime of its decision is over.
   */
  lemma CacheUseExact(env: Env, digest: Digest, slots: C.Slots, r: Request, readAt: real, writeAt: real, later: real)
    requires WellKept(slots)
    ensures var after := Evaluate(env, digest, slots, r, readAt, writeAt).0;
      var key := CacheKey(digest, r);
      && (r.action in {"delete", "transfer", "publish", "administer"} ==> after == slots)
      && (r.action !in {"delete", "transfer", "publish", "administer"} && C.Lookup(slots, key, readAt).Some? ==>
            after == slots)
      && (r.action !in {"delete", "transfer", "publish", "administer"} && C.Lookup(slots, key, readAt).None?
          && |C.BeforeEviction(C.AfterGet(slots, key, readAt), key, PolicyOf(env, r), writeAt)| <= 5_000 ==>
            (C.Lookup(after, key, later).Some? <==>
             later < writeAt + if Decide(env, r).Allow? then 120_000.0 else 60_000.0))
  {
    var key := CacheKey(digest, r);
    var read, p := C.AfterGet(slots, key, readAt), PolicyOf(env, r);
    ReadWellKept(slots, key, readAt);
    assert p.allow == Decide(env, r).Allow?;
    hide PolicyOf, Decide, CacheKey, Fresh, FromCache;
    if Cacheable(r) && |C.BeforeEviction(read, key, p, writeAt)| <= 5_000 {
      C.WrittenServedExact(read, key, p, writeAt, C.MAX_CACHE_ENTRIES, later);
    }
    hide C.AfterSet, C.BeforeEviction;
  }

  // What a request's own past adds to its context.

  /** The newest gateway request under a behaviour key, and the newest country that one named. */
  function LastProbe(events: seq<Event>, key: string): Option<Probe> {
    if events == [] then None
    else
      var e := events[|events| - 1];
      if e.Gateway? && KeyOf(e.p.tenantId, e.p.subjectId) == key then Some(e.p)
      else LastProbe(events[..|events| - 1], key)
  }

  function LastCountry(events: seq<Event>, key: string): Option<string> {
    if events == [] then None
    else
      var e := events[|events| - 1];
      if e.Gateway? && KeyOf(e.p.tenantId, e.p.subjectId) == key && e.p.geo.Some? && e.p.geo.value.country.Some?
      then e.p.geo.value.country
      else LastCountry(events[..|events| - 1], key)
  }

  lemma {:induction false} WindowRemembers(env: Env, digest: Digest, events: seq<Event>, key: string)
    ensures var w := WindowOf(Run(env, digest, events).windows, key);
      && w.lastDeviceFingerprint == (if LastProbe(events, key).Some? then Some(LastProbe(events, key).value.fingerprint)
                                     else None)
      && w.lastCountry == LastCountry(events, key)
  {
    if events == [] {
      BootMirrors(env, digest, key);
    } else {
      var init, e := events[..|events| - 1], events[|events| - 1];
      WindowRemembers(env, digest, init, key);
      RunStep(env, digest, events);
      WindowStep(env, digest, Run(env, digest, init), e, key);
      hide Run, Step, Score, Trim, CountSince, WindowOf;
    }
  }

  /**
   * In every run the context of a gateway request carries its own geography and fingerprint; the device counts as
   * changed when the subject's previous request had another fingerprint, the place as mismatched when the newest
   * country named before is another one.
   */
  lemma ContextExact(env: Env, digest: Digest, events: seq<Event>, p: Probe, now: real)
    ensures var key := KeyOf(p.tenantId, p.subjectId);
      var context, last := Build(Run(env, digest, events).windows, p, now).1, LastProbe(events, key);
      var country := if p.geo.Some? then p.geo.value.country else None;
      && context.geoIp == p.geo && context.deviceFingerprint == Some(p.fingerprint)
      && context.threatIntel == Some(ThreatIntel(Fin(0.0), "none", []))
      && (context.deviceChanged <==> last.Some? && last.value.fingerprint != p.fingerprint)
      && (context.geoMismatch <==>
            country.Some? && LastCountry(events, key).Some? && LastCountry(events, key) != country)
  {
    WindowRemembers(env, digest, events, KeyOf(p.tenantId, p.subjectId));
    hide Run, Score, Trim, CountSince, LastProbe, LastCountry, WindowOf;
  }

  // The throttle.

  predicate InOrder(events: seq<Event>) {
    forall i, j :: 0 <= i < j < |events| && events[i].Gateway? && events[j].Gateway? ==> events[i].now <= events[j].now
  }

  /** Every gateway request ever made under a behaviour key. */
  function Requests(events: seq<Event>, key: string): seq<real> {
    if events == [] then []
    else
      var past, e := Requests(events[..|events| - 1], key), events[|events| - 1];
      if e.Gateway? && KeyOf(e.p.tenantId, e.p.subjectId) == key then past + [e.now] else past
  }

  /** Every denial ever recorded under a behaviour key. */
  function Denials(events: seq<Event>, key: string): nat {
    if events == [] then 0
    else
      var past, e := Denials(events[..|events| - 1], key), events[|events| - 1];
      if e.RecordOutcome? && KeyOf(e.tenantId, e.subjectId) == key && !e.allowed then past + 1 else past
  }

  /** The gateway requests of one subject that were allowed, by clock reading. */
  function Allowed(env: Env, digest: Digest, events: seq<Event>, tenantId: string, subjectId: string): seq<real> {
    if events == [] then []
    else
      var init, e := events[..|events| - 1], events[|events| - 1];
      var past := Allowed(env, digest, init, tenantId, subjectId);
      if e.Gateway? && e.p.tenantId == tenantId && e.p.subjectId == subjectId
         && Answer(env, digest, Run(env, digest, init), e).value.allow
      then past + [e.now]
      else past
  }

  lemma {:induction false} RequestsNotAfter(events: seq<Event>, key: string, now: real)
    requires forall i :: 0 <= i < |events| && events[i].Gateway? ==> events[i].now <= now
    ensures forall i :: 0 <= i < |Requests(events, key)| ==> Requests(events, key)[i] <= now
  {
    if events != [] {
      RequestsNotAfter(events[..|events| - 1], key, now);
    }
  }

  /** In every run the capped window mirrors the full request history, and the denial count its total up to 120. */
  lemma {:induction false} WindowsMirror(env: Env, digest: Digest, events: seq<Event>, key: string)
    requires InOrder(events)
    ensures var w := WindowOf(Run(env, digest, events).windows, key);
      Mirrors(w.timestamps, Requests(events, key)) && w.denials == Lesser(120, Denials(events, key))
  {
    hide Mirrors, Observe, Step, Run, InOrder, Requests, WindowOf;
    if events == [] {
      BootMirrors(env, digest, key);
    } else {
      var init, e := events[..|events| - 1], events[|events| - 1];
      assert init + [e] == events;
      OrderedPrefix(init, e);
      WindowsMirror(env, digest, init, key);
      RunStep(env, digest, events);
      RequestsStep(events, key);
      WindowStep(env, digest, Run(env, digest, init), e, key);
      if e.Gateway? && KeyOf(e.p.tenantId, e.p.subjectId) == key {
        RequestsNotAfter(init, key, e.now);
        ObserveMirrors(WindowOf(Run(env, digest, init).windows, key), Requests(init, key), e.p, e.now);
      }
    }
  }

  lemma OrderedPrefix(events: seq<Event>, e: Event)
    requires InOrder(events + [e])
    ensures InOrder(events)
    ensures e.Gateway? ==> forall i :: 0 <= i < |events| && events[i].Gateway? ==> events[i].now <= e.now
  {
    var all := events + [e];
    assert forall i :: 0 <= i < |events| ==> all[i] == events[i];
    assert all[|events|] == e;
  }

  lemma BootMirrors(env: Env, digest: Digest, key: string)
    ensures WindowOf(Run(env, digest, []).windows, key) == EMPTY_WINDOW
    ensures Mirrors([], Requests([], key))
  {
  }

  lemma RunStep(env: Env, digest: Digest, events: seq<Event>)
    requires events != []
    ensures Run(env, digest, events)
         == Step(env, digest, Run(env, digest, events[..|events| - 1]), events[|events| - 1])
  {
    hide Step;
  }

  lemma RequestsStep(events: seq<Event>, key: string)
    requires events != []
    ensures var past, e := Requests(events[..|events| - 1], key), events[|events| - 1];
      Requests(events, key) == if e.Gateway? && KeyOf(e.p.tenantId, e.p.subjectId) == key then past + [e.now] else past
  {
  }

  /** How one event changes the window of a key. */
  lemma WindowStep(env: Env, digest: Digest, g: Engine, e: Event, key: string)
    ensures var w, after := WindowOf(g.windows, key), WindowOf(Step(env, digest, g, e).windows, key);
      if e.Gateway? && KeyOf(e.p.tenantId, e.p.subjectId) == key then
        after == Observe(w, e.p, e.now).0 && after.denials == w.denials
      else if e.RecordOutcome? && KeyOf(e.tenantId, e.subjectId) == key && !e.allowed then
        after == w.(denials := Lesser(120, w.denials + 1))
      else
        after == w
  {
    hide Evaluate, Trim, Score;
  }

  /** The score a gateway request is judged by is that of its full history, itself included. */
  lemma ScoreIsOfFullHistory(env: Env, digest: Digest, events: seq<Event>, e: Event)
    requires e.Gateway? && InOrder(events + [e])
    ensures var key := KeyOf(e.p.tenantId, e.p.subjectId);
      Build(Run(env, digest, events).windows, e.p, e.now).1.behaviorScore
      == Some(Fin(Score(CountSince(Requests(events + [e], key), e.now - 60_000.0), Denials(events, key))))
  {
    hide Mirrors, Observe, InOrder, Run, CountSince, Score, Requests, Denials, WindowOf;
    var all, key := events + [e], KeyOf(e.p.tenantId, e.p.subjectId);
    assert all[..|events|] == events;
    OrderedPrefix(events, e);
    WindowsMirror(env, digest, events, key);
    RequestsNotAfter(events, key, e.now);
    RequestsStep(all, key);
    var w := WindowOf(Run(env, digest, events).windows, key);
    ObserveMirrors(w, Requests(events, key), e.p, e.now);
    CapInvisible(CountSince(Requests(all, key), e.now - 60_000.0), Denials(events, key));
  }

  /** An allowed gateway request is one of at most 26 of its subject in the last minute; 18 after ten denials. */
  lemma AllowMeansCalm(env: Env, digest: Digest, events: seq<Event>, e: Event)
    requires Injective(digest) && e.Gateway? && InOrder(events + [e])
    requires Answer(env, digest, Run(env, digest, events), e).value.allow
    ensures var key := KeyOf(e.p.tenantId, e.p.subjectId);
      CountSince(Requests(events + [e], key), e.now - 60_000.0) <= if Denials(events, key) >= 10 then 18 else 26
  {
    hide InOrder, Injective, Run, Build, Score, CountSince, Requests, Denials, Evaluate, RbacGrants;
    var key := KeyOf(e.p.tenantId, e.p.subjectId);
    var g := Run(env, digest, events);
    CacheTransparent(env, digest, events, e);
    ScoreIsOfFullHistory(env, digest, events, e);
    AllowExactly(env, Evaluated(g, e).value);
    hide Decide;
    CalmScore(CountSince(Requests(events + [e], key), e.now - 60_000.0), Denials(events, key));
  }

  /** Allowed requests are requests: the history counts at least as many since any moment. */
  lemma {:induction false} AllowedAmongRequests(env: Env, digest: Digest, events: seq<Event>, tenantId: string,
                                               subjectId: string, from: real)
    ensures CountSince(Allowed(env, digest, events, tenantId, subjectId), from)
         <= CountSince(Requests(events, KeyOf(tenantId, subjectId)), from)
  {
    if events != [] {
      var init, e := events[..|events| - 1], events[|events| - 1];
      AllowedAmongRequests(env, digest, init, tenantId, subjectId, from);
      hide Answer, Run, CountSince;
      if e.Gateway? {
        CountAppend(Allowed(env, digest, init, tenantId, subjectId), e.now, from);
        CountAppend(Requests(init, KeyOf(tenantId, subjectId)), e.now, from);
      }
    }
  }

  /**
   * In every run, cached or not, whatever other subjects, direct evaluations, outcomes and invalidations
   * come in between, the gateway allows one subject at most 26 requests in any closed minute.
   */
  lemma {:induction false} ThrottleBound(env: Env, digest: Digest, events: seq<Event>, tenantId: string,
                                         subjectId: string, a: real)
    requires Injective(digest) && InOrder(events)
    ensures CountIn(Allowed(env, digest, events, tenantId, subjectId), a, a + 60_000.0) <= 26
  {
    hide InOrder, Injective, Answer, Run, Allowed, Requests, CountSince, CountIn;
    if events == [] {
      NothingAllowed(env, digest, tenantId, subjectId, a);
    } else {
      var init, e := events[..|events| - 1], events[|events| - 1];
      assert events == init + [e];
      OrderedPrefix(init, e);
      ThrottleBound(env, digest, init, tenantId, subjectId, a);
      AllowedStep(env, digest, events, tenantId, subjectId);
      var before := Allowed(env, digest, init, tenantId, subjectId);
      var after := Allowed(env, digest, events, tenantId, subjectId);
      if e.Gateway? && after == before + [e.now] {
        CountInAppend(before, e.now, a, a + 60_000.0);
        if a <= e.now <= a + 60_000.0 {
          AllowMeansCalm(env, digest, init, e);
          AllowedAmongRequests(env, digest, events, tenantId, subjectId, e.now - 60_000.0);
          IntervalWithinSince(after, e.now - 60_000.0, a, a + 60_000.0);
        }
      }
    }
  }

  lemma NothingAllowed(env: Env, digest: Digest, tenantId: string, subjectId: string, a: real)
    ensures CountIn(Allowed(env, digest, [], tenantId, subjectId), a, a + 60_000.0) == 0
  {
  }

  lemma AllowedStep(env: Env, digest: Digest, events: seq<Event>, tenantId: string, subjectId: string)
    requires events != []
    ensures var init, e := events[..|events| - 1], events[|events| - 1];
      var before := Allowed(env, digest, init, tenantId, subjectId);
      var after := Allowed(env, digest, events, tenantId, subjectId);
      if e.Gateway? && e.p.tenantId == tenantId && e.p.subjectId == subjectId
         && Answer(env, digest, Run(env, digest, init), e).value.allow
      then after == before + [e.now]
      else after == before
  {
    hide Answer, Run;
  }

  const QUIET := DynamicContext(None, None, None, None, false, false)

  /** A gateway request is allowed exactly when identity and role allow it and its full-history score is at most 80. */
  lemma GatewayAllowExact(env: Env, digest: Digest, events: seq<Event>, e: Event)
    requires Injective(digest) && e.Gateway? && InOrder(events + [e])
    ensures var key, g := KeyOf(e.p.tenantId, e.p.subjectId), Run(env, digest, events);
      Answer(env, digest, g, e).value.allow <==>
      && e.p.subjectId != "" && e.p.tenantId != ""
      && RbacGrants(env, Request(e.p.tenantId, e.p.subjectId, e.action, e.resource, e.role, true, None, None, QUIET))
      && HalfPoints(CountSince(Requests(events + [e], key), e.now - 60_000.0), Denials(events, key)) <= 160
  {
    hide InOrder, Injective, Run, Build, Score, CountSince, Requests, Denials, Evaluate, RbacGrants, HalfPoints;
    var key := KeyOf(e.p.tenantId, e.p.subjectId);
    var g := Run(env, digest, events);
    var n, d := CountSince(Requests(events + [e], key), e.now - 60_000.0), Denials(events, key);
    CacheTransparent(env, digest, events, e);
    ScoreIsOfFullHistory(env, digest, events, e);
    AllowExactly(env, Evaluated(g, e).value);
    RbacIgnoresContext(env, Evaluated(g, e).value, GatewayRequest(e, QUIET));
    CalmScore(n, d);
    ScoreIsHalfPoints(n, d);
  }

  /** The role-based part does not look at the dynamic context. */
  lemma RbacIgnoresContext(env: Env, r: Request, s: Request)
    requires r.role == s.role && r.action == s.action && r.resource == s.resource
    ensures RbacGrants(env, r) == RbacGrants(env, s)
  {
  }

  function Repeated(e: Event, n: nat): seq<Event> {
    if n == 0 then [] else Repeated(e, n - 1) + [e]
  }

  lemma {:induction false} RepeatedInOrder(e: Event, n: nat)
    ensures forall i :: 0 <= i < |Repeated(e, n)| ==> Repeated(e, n)[i] == e
    ensures InOrder(Repeated(e, n) + [e])
  {
    if n > 0 {
      RepeatedInOrder(e, n - 1);
    }
  }

  /** The bound is attained: 26 requests at one instant by a subject without denials are all allowed. */
  lemma {:induction false} ThrottleAttained(env: Env, digest: Digest, e: Event, n: nat)
    requires Injective(digest) && e.Gateway? && n <= 26
    requires e.p.subjectId != "" && e.p.tenantId != ""
    requires var r := Request(e.p.tenantId, e.p.subjectId, e.action, e.resource, e.role, true, None, None, QUIET);
      RbacGrants(env, r)
    ensures var burst, key := Repeated(e, n), KeyOf(e.p.tenantId, e.p.subjectId);
      && CountIn(Allowed(env, digest, burst, e.p.tenantId, e.p.subjectId), e.now, e.now + 60_000.0) == n
      && CountSince(Requests(burst, key), e.now - 60_000.0) == n && Denials(burst, key) == 0
  {
    hide *;
    NoRequests(env, digest, e);
    if n > 0 {
      var init, key := Repeated(e, n - 1), KeyOf(e.p.tenantId, e.p.subjectId);
      var burst := init + [e];
      RepeatedStep(e, n);
      assert burst[..|burst| - 1] == init && burst[|burst| - 1] == e;
      ThrottleAttained(env, digest, e, n - 1);
      RepeatedInOrder(e, n - 1);
      RequestsStep(burst, key);
      DenialsStep(burst, key);
      AllowedStep(env, digest, burst, e.p.tenantId, e.p.subjectId);
      CountAppend(Requests(init, key), e.now, e.now - 60_000.0);
      CountInAppend(Allowed(env, digest, init, e.p.tenantId, e.p.subjectId), e.now, e.now, e.now + 60_000.0);
      GatewayAllowExact(env, digest, init, e);
      BurstIsCalm(n);
    }
  }

  // Evaluations that do not come through the gateway.

  /** What `withSovereignAuth` and the execution authority ask: a request without dynamic context. */
  function ContextFree(tenantId: string, subjectId: string, action: string, resource: string, role: Option<string>,
                       authenticated: bool): Request
  {
    Request(tenantId, subjectId, action, resource, role, authenticated, None, None, QUIET)
  }

  predicate IsContextFree(r: Request) {
    r == ContextFree(r.tenantId, r.subjectId, r.action, r.resource, r.role, r.authenticated)
  }

  lemma ContextFreeDecision(env: Env, r: Request)
    requires IsContextFree(r)
    ensures Decide(env, r).Allow? <==> r.subjectId != "" && r.tenantId != "" && r.authenticated && RbacGrants(env, r)
  {
    AllowExactly(env, r);
    hide Decide, RbacGrants;
  }

  /** Without a context identity and role alone decide, after any run: neither requests nor denials are counted. */
  lemma ContextFreeUnthrottled(env: Env, digest: Digest, events: seq<Event>, r: Request,
                               now: real, readAt: real, writeAt: real)
    requires Injective(digest) && IsContextFree(r)
    ensures Answer(env, digest, Run(env, digest, events), Direct(r, now, readAt, writeAt)).value.allow <==>
            r.subjectId != "" && r.tenantId != "" && r.authenticated && RbacGrants(env, r)
  {
    hide Run, Injective, RbacGrants, Decide, IsContextFree, Evaluate;
    CacheTransparent(env, digest, events, Direct(r, now, readAt, writeAt));
    ContextFreeDecision(env, r);
  }

  /** All allowed evaluations of one subject, through the gateway or not, by clock reading. */
  function AllAllowed(env: Env, digest: Digest, events: seq<Event>, tenantId: string, subjectId: string): seq<real> {
    if events == [] then []
    else
      var init, e := events[..|events| - 1], events[|events| - 1];
      var past := AllAllowed(env, digest, init, tenantId, subjectId);
      var g := Run(env, digest, init);
      var r := Evaluated(g, e);
      if r.Some? && r.value.tenantId == tenantId && r.value.subjectId == subjectId
         && Answer(env, digest, g, e).value.allow
      then past + [e.now]
      else past
  }

  /** Every evaluation outside the gateway asks one of the requests `direct`. */
  ghost predicate DirectsAmong(events: seq<Event>, direct: Request -> bool) {
    forall i :: 0 <= i < |events| && events[i].Direct? ==> direct(events[i].r)
  }

  lemma AllAllowedStep(env: Env, digest: Digest, events: seq<Event>, tenantId: string, subjectId: string)
    requires Injective(digest) && events != []
    ensures var init, e := events[..|events| - 1], events[|events| - 1];
      var before := AllAllowed(env, digest, init, tenantId, subjectId);
      var after := AllAllowed(env, digest, events, tenantId, subjectId);
      && (e.Gateway? ==>
            after == if e.p.tenantId == tenantId && e.p.subjectId == subjectId
                        && Answer(env, digest, Run(env, digest, init), e).value.allow
                     then before + [e.now] else before)
      && (e.Direct? ==>
            after == if e.r.tenantId == tenantId && e.r.subjectId == subjectId && Decide(env, e.r).Allow?
                     then before + [e.now] else before)
      && (!e.Gateway? && !e.Direct? ==> after == before)
  {
    CacheTransparent(env, digest, events[..|events| - 1], events[|events| - 1]);
    hide Answer, Run, Decide, Injective, Build;
  }

  /** When every direct evaluation of the subject is denied, its allows are those of the gateway. */
  lemma {:induction false} OnlyGatewayAllows(env: Env, digest: Digest, events: seq<Event>, direct: Request -> bool,
                                             tenantId: string, subjectId: string)
    requires Injective(digest) && DirectsAmong(events, direct)
    requires forall r :: direct(r) && r.tenantId == tenantId && r.subjectId == subjectId ==> Decide(env, r).Deny?
    ensures AllAllowed(env, digest, events, tenantId, subjectId) == Allowed(env, digest, events, tenantId, subjectId)
  {
    hide Injective, Run, Answer, Decide;
    if events != [] {
      OnlyGatewayAllows(env, digest, events[..|events| - 1], direct, tenantId, subjectId);
      hide AllAllowed, Allowed;
      AllAllowedStep(env, digest, events, tenantId, subjectId);
      AllowedStep(env, digest, events, tenantId, subjectId);
    }
  }

  lemma {:induction false} DirectBurst(env: Env, digest: Digest, e: Event, n: nat, a: real)
    requires Injective(digest) && e.Direct? && Decide(env, e.r).Allow? && a <= e.now <= a + 60_000.0
    ensures CountIn(AllAllowed(env, digest, Repeated(e, n), e.r.tenantId, e.r.subjectId), a, a + 60_000.0) == n
  {
    hide *;
    NothingAtAll(env, digest, e, a);
    if n > 0 {
      var init := Repeated(e, n - 1);
      var burst := init + [e];
      RepeatedStep(e, n);
      assert burst[..|burst| - 1] == init && burst[|burst| - 1] == e;
      DirectBurst(env, digest, e, n - 1, a);
      AllAllowedStep(env, digest, burst, e.r.tenantId, e.r.subjectId);
      CountInAppend(AllAllowed(env, digest, init, e.r.tenantId, e.r.subjectId), e.now, a, a + 60_000.0);
    }
  }

  lemma NothingAtAll(env: Env, digest: Digest, e: Event, a: real)
    requires e.Direct?
    ensures CountIn(AllAllowed(env, digest, Repeated(e, 0), e.r.tenantId, e.r.subjectId), a, a + 60_000.0) == 0
  {
  }

  lemma DirectBurstFits(e: Event, n: nat, direct: Request -> bool)
    requires e.Direct? && direct(e.r)
    ensures InOrder(Repeated(e, n)) && DirectsAmong(Repeated(e, n), direct)
  {
    RepeatedInOrder(e, n);
  }

  /** At most 26 allows of any kind in the closed minute from `a`. */
  predicate CalmFrom(env: Env, digest: Digest, events: seq<Event>, tenantId: string, subjectId: string, a: real) {
    CountIn(AllAllowed(env, digest, events, tenantId, subjectId), a, a + 60_000.0) <= 26
  }

  /** In every ordered run whose direct evaluations ask only `direct`, every closed minute of the subject is calm. */
  ghost predicate ThrottlesAll(env: Env, digest: Digest, direct: Request -> bool, tenantId: string, subjectId: string) {
    forall events, a :: InOrder(events) && DirectsAmong(events, direct) ==>
      CalmFrom(env, digest, events, tenantId, subjectId, a)
  }

  /**
   * The bound covers all allows of a subject exactly when every request of that subject which is evaluated
   * outside the gateway is denied: each one that is allowed can be repeated without limit.
   */
  lemma ThrottlesAllExact(env: Env, digest: Digest, direct: Request -> bool, tenantId: string, subjectId: string)
    requires Injective(digest)
    ensures ThrottlesAll(env, digest, direct, tenantId, subjectId) <==>
            forall r :: direct(r) && r.tenantId == tenantId && r.subjectId == subjectId ==> Decide(env, r).Deny?
  {
    hide InOrder, DirectsAmong, AllAllowed, CountIn, Decide, Injective, Repeated;
    if forall r :: direct(r) && r.tenantId == tenantId && r.subjectId == subjectId ==> Decide(env, r).Deny? {
      forall events, a | InOrder(events) && DirectsAmong(events, direct)
        ensures CalmFrom(env, digest, events, tenantId, subjectId, a)
      {
        OnlyGatewayAllows(env, digest, events, direct, tenantId, subjectId);
        ThrottleBound(env, digest, events, tenantId, subjectId, a);
      }
    } else {
      var r :| direct(r) && r.tenantId == tenantId && r.subjectId == subjectId && !Decide(env, r).Deny?;
      var e := Direct(r, 0.0, 0.0, 0.0);
      DirectBurst(env, digest, e, 27, 0.0);
      DirectBurstFits(e, 27, direct);
      assert !CalmFrom(env, digest, Repeated(e, 27), tenantId, subjectId, 0.0);
    }
  }

  /** With the context-free callers that means subjects to whom no role grants anything. */
  lemma ThrottlesContextFreeExact(env: Env, digest: Digest, tenantId: string, subjectId: string)
    requires Injective(digest)
    ensures ThrottlesAll(env, digest, IsContextFree, tenantId, subjectId) <==>
            tenantId == "" || subjectId == ""
            || forall action, resource, role ::
                 !RbacGrants(env, ContextFree(tenantId, subjectId, action, resource, role, true))
  {
    hide Injective, ThrottlesAll, Decide, RbacGrants;
    ThrottlesAllExact(env, digest, IsContextFree, tenantId, subjectId);
    forall r | IsContextFree(r)
      ensures Decide(env, r).Allow? <==> r.subjectId != "" && r.tenantId != "" && r.authenticated && RbacGrants(env, r)
    {
      ContextFreeDecision(env, r);
    }
    forall action, resource, role
      ensures IsContextFree(ContextFree(tenantId, subjectId, action, resource, role, true))
    {
    }
    assert forall r :: IsContextFree(r) && r.authenticated ==>
      r == ContextFree(r.tenantId, r.subjectId, r.action, r.resource, r.role, true);
  }

  lemma RepeatedStep(e: Event, n: nat)
    requires n > 0
    ensures Repeated(e, n) == Repeated(e, n - 1) + [e]
  {
  }

  lemma NoRequests(env: Env, digest: Digest, e: Event)
    requires e.Gateway?
    ensures var none, key := Repeated(e, 0), KeyOf(e.p.tenantId, e.p.subjectId);
      && CountIn(Allowed(env, digest, none, e.p.tenantId, e.p.subjectId), e.now, e.now + 60_000.0) == 0
      && CountSince(Requests(none, key), e.now - 60_000.0) == 0 && Denials(none, key) == 0
  {
  }

  lemma BurstIsCalm(n: nat)
    ensures n <= 26 ==> HalfPoints(n, 0) <= 160
  {
  }

  lemma DenialsStep(events: seq<Event>, key: string)
    requires events != [] && events[|events| - 1].Gateway?
    ensures Denials(events, key) == Denials(events[..|events| - 1], key)
  {
  }
}
