/** The per-tenant signature chain: a locked database transaction, and the in-memory chain of development. */
module SignatureChain {
  import opened Options

  /** A decision ready to be chained; `hash` and `signature` are those of its payload. */
  datatype Decision = Decision(tenant: string, hash: string, signature: string, allow: bool)

  datatype Link = Link(decision: Decision, previousHash: string, sigchain: string)
  datatype Row = Row(lastHash: string, sigchain: string)

  /** SHA3-512 of the chained text, and the advisory lock id of a tenant (two tenants may share one). */
  datatype Env = Env(hash: string -> string, lockId: string -> int)

  const GENESIS := Row("genesis_hash_0000000000000000", "genesis_sigchain_00000000")

  function NextLink(env: Env, row: Row, d: Decision): Link {
    Link(d, row.lastHash, env.hash(row.sigchain + d.signature))
  }

  function RowAfter(l: Link): Row {
    Row(l.decision.hash, l.sigchain)
  }

  function LastRow(links: seq<Link>): Row {
    if links == [] then GENESIS else RowAfter(links[|links| - 1])
  }

  /** One list from genesis: every link continues the row its predecessor left. */
  predicate Linear(env: Env, links: seq<Link>) {
    forall i :: 0 <= i < |links| ==> links[i] == NextLink(env, LastRow(links[..i]), links[i].decision)
  }

  function OfTenant(log: seq<Link>, tenant: string): seq<Link> {
    if log == [] then []
    else
      var past, last := OfTenant(log[..|log| - 1], tenant), log[|log| - 1];
      if last.decision.tenant == tenant then past + [last] else past
  }

  // The durable chain: any number of calls, each at some point of its transaction.

  datatype Phase =
    | Begun(d: Decision)
    | Locked(d: Decision)
    | HaveRow(d: Decision, row: Row)
    | Written(d: Decision, link: Link)
    | Finished

  /** What a call hands back; `link` is absent when the chain was unavailable. */
  datatype Answer = Answer(decision: Decision, allow: bool, link: Option<Link>)

  datatype System = System(
    rows: map<string, Row>,       // committed rows of hsm_signature_chain
    locks: map<int, nat>,         // advisory transaction locks, by holder
    calls: map<nat, Phase>,
    log: seq<Link>,               // links in commit order
    answers: seq<Answer>)

  const BOOT := System(map[], map[], map[], [], [])

  datatype Step =
    | Begin(p: nat, d: Decision)
    | AcquireLock(p: nat)
    | ReadRow(p: nat)
    | Upsert(p: nat)
    | Commit(p: nat)
    | CommitUnacknowledged(p: nat)   // committed, but the caller sees an error
    | Fail(p: nat)                   // missing configuration, lost connection, statement error: rolled back

  function CommittedRow(s: System, tenant: string): Row {
    if tenant in s.rows then s.rows[tenant] else GENESIS
  }

  function Held(ph: Phase): bool {
    ph.Locked? || ph.HaveRow? || ph.Written?
  }

  function Release(env: Env, s: System, p: nat): map<int, nat>
    requires p in s.calls
  {
    if Held(s.calls[p]) then s.locks - {env.lockId(s.calls[p].d.tenant)} else s.locks
  }

  /** A step whose guard does not hold leaves the system as it is, so every list of steps is an interleaving. */
  function Apply(env: Env, s: System, step: Step): System {
    match step
    case Begin(p, d) =>
      if p in s.calls then s else s.(calls := s.calls[p := Begun(d)])
    case AcquireLock(p) =>
      if p in s.calls && s.calls[p].Begun? && env.lockId(s.calls[p].d.tenant) !in s.locks then
        s.(calls := s.calls[p := Locked(s.calls[p].d)], locks := s.locks[env.lockId(s.calls[p].d.tenant) := p])
      else s
    case ReadRow(p) =>
      if p in s.calls && s.calls[p].Locked? then
        s.(calls := s.calls[p := HaveRow(s.calls[p].d, CommittedRow(s, s.calls[p].d.tenant))])
      else s
    case Upsert(p) =>
      if p in s.calls && s.calls[p].HaveRow? then
        s.(calls := s.calls[p := Written(s.calls[p].d, NextLink(env, s.calls[p].row, s.calls[p].d))])
      else s
    case Commit(p) =>
      if p in s.calls && s.calls[p].Written? then Committed(env, s, p, true) else s
    case CommitUnacknowledged(p) =>
      if p in s.calls && s.calls[p].Written? then Committed(env, s, p, false) else s
    case Fail(p) =>
      if p in s.calls && !s.calls[p].Finished? then
        s.(calls := s.calls[p := Finished], locks := Release(env, s, p),
           answers := s.answers + [Denied(s.calls[p].d)])
      else s
  }

  /** The fail-closed answer: the decision is turned into a denial. */
  function Denied(d: Decision): Answer {
    Answer(d, false, None)
  }

  function Committed(env: Env, s: System, p: nat, acknowledged: bool): System
    requires p in s.calls && s.calls[p].Written?
  {
    var d, link := s.calls[p].d, s.calls[p].link;
    s.(rows := s.rows[d.tenant := RowAfter(link)], locks := Release(env, s, p),
       calls := s.calls[p := Finished], log := s.log + [link],
       answers := s.answers + [if acknowledged then Answer(d, d.allow, Some(link)) else Denied(d)])
  }

  function Run(env: Env, steps: seq<Step>): System {
    if steps == [] then BOOT else Apply(env, Run(env, steps[..|steps| - 1]), steps[|steps| - 1])
  }

  // The invariant.

  /** A call past the lock holds it, and what it has read or written is still current. */
  ghost predicate CallOk(env: Env, s: System, p: nat)
    requires p in s.calls
  {
    var ph := s.calls[p];
    Held(ph) ==>
      && env.lockId(ph.d.tenant) in s.locks && s.locks[env.lockId(ph.d.tenant)] == p
      && (ph.HaveRow? ==> ph.row == CommittedRow(s, ph.d.tenant))
      && (ph.Written? ==> ph.link == NextLink(env, CommittedRow(s, ph.d.tenant), ph.d))
  }

  ghost predicate CallsOk(env: Env, s: System) {
    forall p :: p in s.calls ==> CallOk(env, s, p)
  }

  ghost predicate TenantOk(env: Env, s: System, tenant: string) {
    Linear(env, OfTenant(s.log, tenant)) && CommittedRow(s, tenant) == LastRow(OfTenant(s.log, tenant))
  }

  ghost predicate ChainsOk(env: Env, s: System) {
    forall tenant :: TenantOk(env, s, tenant)
  }

  ghost predicate AnswersOk(s: System) {
    forall a :: a in s.answers ==>
      && a.allow == (a.decision.allow && a.link.Some?)
      && (a.link.Some? ==> a.link.value in s.log && a.link.value.decision == a.decision)
  }

  /** Every lock belongs to a call that is inside its transaction: none outlives its call. */
  ghost predicate LocksOwned(env: Env, s: System) {
    forall id :: id in s.locks ==>
      s.locks[id] in s.calls && Held(s.calls[s.locks[id]]) && env.lockId(s.calls[s.locks[id]].d.tenant) == id
  }

  ghost predicate WrittenOwn(s: System) {
    forall p :: p in s.calls && s.calls[p].Written? ==> s.calls[p].link.decision == s.calls[p].d
  }

  lemma OfTenantAppend(log: seq<Link>, l: Link, tenant: string)
    ensures OfTenant(log + [l], tenant)
         == if l.decision.tenant == tenant then OfTenant(log, tenant) + [l] else OfTenant(log, tenant)
  {
    assert (log + [l])[..|log|] == log;
  }

  lemma LinearAppend(env: Env, links: seq<Link>, d: Decision)
    requires Linear(env, links)
    ensures Linear(env, links + [NextLink(env, LastRow(links), d)])
  {
    var longer := links + [NextLink(env, LastRow(links), d)];
    assert forall i :: 0 <= i <= |links| ==> longer[..i] == links[..i];
    assert links[..|links|] == links;
  }

  /** A commit appends one link to its own tenant's chain and disturbs no other call or tenant. */
  lemma CommitKeeps(env: Env, s: System, p: nat, acknowledged: bool)
    requires p in s.calls && s.calls[p].Written?
    requires CallsOk(env, s) && ChainsOk(env, s)
    ensures CallsOk(env, Committed(env, s, p, acknowledged)) && ChainsOk(env, Committed(env, s, p, acknowledged))
  {
    var after := Committed(env, s, p, acknowledged);
    var d, link := s.calls[p].d, s.calls[p].link;
    assert CallOk(env, s, p);
    forall q | q in after.calls
      ensures CallOk(env, after, q)
    {
      hide Linear, OfTenant, ChainsOk, NextLink;
      if q != p {
        assert CallOk(env, s, q);
      }
    }
    forall tenant
      ensures TenantOk(env, after, tenant)
    {
      hide Linear, CallsOk, Release;
      assert TenantOk(env, s, tenant);
      OfTenantAppend(s.log, link, tenant);
      if tenant == d.tenant {
        LinearAppend(env, OfTenant(s.log, tenant), d);
      }
    }
  }

  lemma CallsKept(env: Env, s: System, step: Step)
    requires CallsOk(env, s)
    requires !step.Commit? && !step.CommitUnacknowledged?
    ensures CallsOk(env, Apply(env, s, step))
  {
    hide NextLink;
    var after := Apply(env, s, step);
    if step.p in s.calls {
      assert CallOk(env, s, step.p);
    }
    forall q | q in after.calls
      ensures CallOk(env, after, q)
    {
      if q in s.calls {
        assert CallOk(env, s, q);
      }
    }
  }

  lemma StepKeeps(env: Env, s: System, step: Step)
    requires CallsOk(env, s) && ChainsOk(env, s) && AnswersOk(s) && WrittenOwn(s)
    ensures var after := Apply(env, s, step);
      CallsOk(env, after) && ChainsOk(env, after) && AnswersOk(after) && WrittenOwn(after)
  {
    hide CallsOk, ChainsOk, Release, Held;
    if (step.Commit? || step.CommitUnacknowledged?) && step.p in s.calls && s.calls[step.p].Written? {
      CommitKeeps(env, s, step.p, step.Commit?);
    } else {
      SameChains(env, s, step);
      if !step.Commit? && !step.CommitUnacknowledged? {
        CallsKept(env, s, step);
      }
    }
  }

  lemma SameChains(env: Env, s: System, step: Step)
    requires ChainsOk(env, s)
    requires !((step.Commit? || step.CommitUnacknowledged?) && step.p in s.calls && s.calls[step.p].Written?)
    ensures ChainsOk(env, Apply(env, s, step))
  {
    hide Linear, OfTenant, LastRow, NextLink;
    var after := Apply(env, s, step);
    forall tenant
      ensures TenantOk(env, after, tenant)
    {
      assert TenantOk(env, s, tenant);
    }
  }

  lemma LocksKept(env: Env, s: System, step: Step)
    requires CallsOk(env, s) && LocksOwned(env, s)
    ensures LocksOwned(env, Apply(env, s, step))
  {
    hide NextLink, OfTenant;
    if step.p in s.calls {
      assert CallOk(env, s, step.p);
    }
  }

  lemma {:induction false} RunKeeps(env: Env, steps: seq<Step>)
    ensures var s := Run(env, steps);
      CallsOk(env, s) && ChainsOk(env, s) && AnswersOk(s) && WrittenOwn(s) && LocksOwned(env, s)
  {
    if steps != [] {
      RunKeeps(env, steps[..|steps| - 1]);
      StepKeeps(env, Run(env, steps[..|steps| - 1]), steps[|steps| - 1]);
      LocksKept(env, Run(env, steps[..|steps| - 1]), steps[|steps| - 1]);
    }
  }

  /** Whatever the interleaving, a tenant's commits form one list from genesis and its row is the last of them. */
  lemma Unforked(env: Env, steps: seq<Step>, tenant: string)
    ensures var s := Run(env, steps);
      var links := OfTenant(s.log, tenant);
      OneList(env, links, tenant) && CommittedRow(s, tenant) == LastRow(links)
  {
    RunKeeps(env, steps);
    assert TenantOk(env, Run(env, steps), tenant);
    OneListExact(env, Run(env, steps).log, tenant);
  }

  /** The link stands behind the hash of the one before it, and its signature is hashed onto the chain so far. */
  predicate Continues(env: Env, links: seq<Link>, i: nat)
    requires i < |links|
  {
    && links[i].previousHash == (if i == 0 then "genesis_hash_0000000000000000" else links[i - 1].decision.hash)
    && links[i].sigchain == env.hash((if i == 0 then "genesis_sigchain_00000000" else links[i - 1].sigchain)
                                     + links[i].decision.signature)
  }

  /** The tenant's own decisions, one list from the genesis texts. */
  predicate OneList(env: Env, links: seq<Link>, tenant: string) {
    forall i :: 0 <= i < |links| ==> links[i].decision.tenant == tenant && Continues(env, links, i)
  }

  lemma {:induction false} OfTenantOwn(log: seq<Link>, tenant: string)
    ensures forall i :: 0 <= i < |OfTenant(log, tenant)| ==> OfTenant(log, tenant)[i].decision.tenant == tenant
  {
    if log != [] {
      OfTenantOwn(log[..|log| - 1], tenant);
    }
  }

  lemma ContinuesExact(env: Env, links: seq<Link>, i: nat)
    requires i < |links|
    ensures Continues(env, links, i) <==> links[i] == NextLink(env, LastRow(links[..i]), links[i].decision)
  {
    assert i > 0 ==> links[..i][i - 1] == links[i - 1];
  }

  lemma OneListExact(env: Env, log: seq<Link>, tenant: string)
    requires Linear(env, OfTenant(log, tenant))
    ensures OneList(env, OfTenant(log, tenant), tenant)
  {
    OfTenantOwn(log, tenant);
    hide OfTenant, Continues;
    var links := OfTenant(log, tenant);
    forall i | 0 <= i < |links|
      ensures Continues(env, links, i)
    {
      ContinuesExact(env, links, i);
    }
  }

  /** Once every call has finished, by commit or by failure, no lock is left behind. */
  lemma NoLockLeftBehind(env: Env, steps: seq<Step>)
    requires forall p :: p in Run(env, steps).calls ==> Run(env, steps).calls[p].Finished?
    ensures Run(env, steps).locks.Keys == {}
  {
    RunKeeps(env, steps);
    var s := Run(env, steps);
    forall id
      ensures id !in s.locks
    {
    }
  }

  /** Two calls are never past the lock of the same tenant at the same time. */
  lemma MutualExclusion(env: Env, steps: seq<Step>, p: nat, q: nat)
    ensures var s := Run(env, steps);
      (p in s.calls && q in s.calls && Held(s.calls[p]) && Held(s.calls[q])
       && s.calls[p].d.tenant == s.calls[q].d.tenant) ==> p == q
  {
    var s := Run(env, steps);
    RunKeeps(env, steps);
    if p in s.calls && q in s.calls {
      assert CallOk(env, s, p) && CallOk(env, s, q);
    }
  }

  /**
   * A call answers allow exactly when its decision is an allow and it holds a link; and a link it holds was
   * committed, continuing the row its predecessors left.
   */
  lemma AllowImpliesCommitted(env: Env, steps: seq<Step>, a: Answer)
    requires a in Run(env, steps).answers
    ensures a.allow <==> a.decision.allow && a.link.Some?
    ensures a.link.Some? ==>
      var links := OfTenant(Run(env, steps).log, a.decision.tenant);
      exists i :: 0 <= i < |links| && links[i] == a.link.value
                  && a.link.value == NextLink(env, LastRow(links[..i]), a.decision)
  {
    RunKeeps(env, steps);
    var s := Run(env, steps);
    assert TenantOk(env, s, a.decision.tenant);
    if a.link.Some? {
      var i := IndexOf(s.log, a.link.value);
    }
  }

  /** An acknowledged commit hands its link back and lets the decision stand, after any run. */
  lemma AcknowledgedCommit(env: Env, steps: seq<Step>, p: nat)
    requires p in Run(env, steps).calls && Run(env, steps).calls[p].Written?
    ensures var s, after := Run(env, steps), Run(env, steps + [Commit(p)]);
      var d, link := s.calls[p].d, s.calls[p].link;
      && link.decision == d && OfTenant(after.log, d.tenant) == OfTenant(s.log, d.tenant) + [link]
      && after.answers == s.answers + [Answer(d, d.allow, Some(link))]
  {
    RunKeeps(env, steps);
    hide OfTenant, CallsOk, ChainsOk, AnswersOk, LocksOwned;
    assert (steps + [Commit(p)])[..|steps|] == steps;
    OfTenantAppend(Run(env, steps).log, Run(env, steps).calls[p].link, Run(env, steps).calls[p].d.tenant);
  }

  /** A call that fails before its commit changes neither rows nor list, and is answered with a denial. */
  lemma FailedCall(env: Env, steps: seq<Step>, p: nat)
    requires p in Run(env, steps).calls && !Run(env, steps).calls[p].Finished?
    ensures var s, after := Run(env, steps), Run(env, steps + [Fail(p)]);
      && after.rows == s.rows && after.log == s.log && after.calls == s.calls[p := Finished]
      && after.answers == s.answers + [Answer(s.calls[p].d, false, None)]
  {
    assert (steps + [Fail(p)])[..|steps|] == steps;
  }

  /**
   * A commit whose acknowledgement is lost leaves its link in the tenant's list, like any other, behind an
   * answer that denies.
   */
  lemma LostAcknowledgement(env: Env, steps: seq<Step>, p: nat)
    requires p in Run(env, steps).calls && Run(env, steps).calls[p].Written?
    ensures var s, after := Run(env, steps), Run(env, steps + [CommitUnacknowledged(p)]);
      var d, link := s.calls[p].d, s.calls[p].link;
      && link.decision == d && OfTenant(after.log, d.tenant) == OfTenant(s.log, d.tenant) + [link]
      && after.answers == s.answers + [Answer(d, false, None)]
  {
    RunKeeps(env, steps);
    hide OfTenant, CallsOk, ChainsOk, AnswersOk, LocksOwned;
    assert (steps + [CommitUnacknowledged(p)])[..|steps|] == steps;
    OfTenantAppend(Run(env, steps).log, Run(env, steps).calls[p].link, Run(env, steps).calls[p].d.tenant);
  }

  /** Either kind of commit can be reached for any decision, allows included. */
  lemma CommitReached(env: Env, d: Decision)
    ensures var s := Run(env, [] + [Begin(0, d)] + [AcquireLock(0)] + [ReadRow(0)] + [Upsert(0)]);
      0 in s.calls && s.calls[0].Written? && s.calls[0].d == d
  {
    var one := [] + [Begin(0, d)];
    var two := one + [AcquireLock(0)];
    var three := two + [ReadRow(0)];
    var four := three + [Upsert(0)];
    assert one[..0] == [] && two[..1] == one && three[..2] == two && four[..3] == three;
    assert Run(env, one).calls == map[0 := Begun(d)] && Run(env, one).locks == map[];
    assert Run(env, two).calls == map[0 := Locked(d)];
    assert Run(env, three).calls[0].HaveRow? && Run(env, three).calls[0].d == d;
  }

  lemma {:induction false} IndexOf(log: seq<Link>, l: Link) returns (i: nat)
    requires l in log
    ensures i < |OfTenant(log, l.decision.tenant)| && OfTenant(log, l.decision.tenant)[i] == l
  {
    var n := |log| - 1;
    if log[n] == l {
      i := |OfTenant(log, l.decision.tenant)| - 1;
    } else {
      assert log == log[..n] + [log[n]];
      i := IndexOf(log[..n], l);
    }
  }

  // The in-memory chain of development and test runtimes.

  type Memory = map<string, string>

  function SigchainKey(tenant: string): string {
    "sigchain_" + tenant
  }

  /** `map.get(key) || fallback`. */
  function Lookup(m: Memory, key: string, fallback: string): string {
    if key in m && m[key] != "" then m[key] else fallback
  }

  function MemoryRow(m: Memory, tenant: string): Row {
    Row(Lookup(m, tenant, GENESIS.lastHash), Lookup(m, SigchainKey(tenant), GENESIS.sigchain))
  }

  function Advance(env: Env, m: Memory, d: Decision): Memory {
    m[d.tenant := d.hash][SigchainKey(d.tenant) := NextLink(env, MemoryRow(m, d.tenant), d).sigchain]
  }

  class ChainManager {
    const env: Env
    var signatureChainState: Memory

    constructor (env: Env)
      ensures signatureChainState == map[] && this.env == env
    {
      this.env := env;
      signatureChainState := map[];
    }

    method GetAndAdvanceChain(d: Decision) returns (previousHash: string, signatureChain: string)
      modifies this
      ensures signatureChainState == Advance(env, old(signatureChainState), d)
      ensures Link(d, previousHash, signatureChain) == NextLink(env, MemoryRow(old(signatureChainState), d.tenant), d)
    {
      previousHash := Lookup(signatureChainState, d.tenant, GENESIS.lastHash);
      var previousSigChain := Lookup(signatureChainState, SigchainKey(d.tenant), GENESIS.sigchain);
      signatureChain := env.hash(previousSigChain + d.signature);
      signatureChainState := signatureChainState[d.tenant := d.hash];
      signatureChainState := signatureChainState[SigchainKey(d.tenant) := signatureChain];
    }
  }

  /** Neither tenant id is the sigchain key of the other. */
  predicate Separate(t: string, u: string) {
    u != SigchainKey(t) && t != SigchainKey(u)
  }

  lemma KeyFacts(t: string, u: string)
    ensures SigchainKey(t) != t && (SigchainKey(t) == SigchainKey(u) ==> t == u)
  {
    assert |SigchainKey(t)| == |t| + 9;
    if SigchainKey(t) == SigchainKey(u) {
      assert t == SigchainKey(t)[9..] == SigchainKey(u)[9..] == u;
    }
  }

  /** An advance is seen by its own tenant as its link, and by no tenant separate from it. */
  lemma AdvanceSeen(env: Env, m: Memory, d: Decision, t: string)
    requires d.hash != "" && env.hash(MemoryRow(m, d.tenant).sigchain + d.signature) != ""
    ensures t == d.tenant ==> MemoryRow(Advance(env, m, d), t) == RowAfter(NextLink(env, MemoryRow(m, t), d))
    ensures t != d.tenant && Separate(t, d.tenant) ==> MemoryRow(Advance(env, m, d), t) == MemoryRow(m, t)
    ensures d.tenant == SigchainKey(t) ==> MemoryRow(Advance(env, m, d), t).sigchain == d.hash
    ensures t == SigchainKey(d.tenant) ==>
              MemoryRow(Advance(env, m, d), t).lastHash == NextLink(env, MemoryRow(m, d.tenant), d).sigchain
  {
    KeyFacts(t, d.tenant);
    KeyFacts(d.tenant, t);
    KeyFacts(SigchainKey(t), t);
    KeyFacts(SigchainKey(d.tenant), t);
  }

  /** Two tenants leave each other's chain alone, whatever they decide, exactly when their ids are separate. */
  lemma IsolationExact(env: Env, t: string, u: string)
    requires t != u && forall text :: env.hash(text) != "" && env.hash(text) != GENESIS.lastHash
    ensures (u != "sigchain_" + t && t != "sigchain_" + u) <==>
            forall m, d: Decision :: d.tenant == u && d.hash != "" ==>
              MemoryRow(Advance(env, m, d), t) == MemoryRow(m, t)
  {
    assert Separate(t, u) <==> u != "sigchain_" + t && t != "sigchain_" + u;
    hide Advance, NextLink, SigchainKey;
    forall m, d: Decision | d.tenant == u && d.hash != ""
      ensures Separate(t, u) ==> MemoryRow(Advance(env, m, d), t) == MemoryRow(m, t)
    {
      AdvanceSeen(env, m, d, t);
    }
    if !Separate(t, u) {
      var d := Decision(u, "x", "", false);
      AdvanceSeen(env, map[], d, t);
      NextLinkHash(env, MemoryRow(map[], u), d);
      assert d.tenant == u && d.hash != "";
      assert MemoryRow(map[], t) == GENESIS;
      assert MemoryRow(Advance(env, map[], d), t) != MemoryRow(map[], t);
    }
  }

  lemma NextLinkHash(env: Env, row: Row, d: Decision)
    ensures NextLink(env, row, d).sigchain == env.hash(row.sigchain + d.signature)
  {
  }

  function MemoryRun(env: Env, ds: seq<Decision>): Memory {
    if ds == [] then map[] else Advance(env, MemoryRun(env, ds[..|ds| - 1]), ds[|ds| - 1])
  }

  /** The links handed out, in order. */
  function MemoryLog(env: Env, ds: seq<Decision>): seq<Link> {
    if ds == [] then []
    else
      var init, d := ds[..|ds| - 1], ds[|ds| - 1];
      MemoryLog(env, init) + [NextLink(env, MemoryRow(MemoryRun(env, init), d.tenant), d)]
  }

  /**
   * Among tenants none of whose ids is the sigchain key of another, each gets one list from genesis.
   * Without that, AdvanceSeen shows how one tenant's hash becomes the other's chain state.
   */
  lemma MemoryUnforked(env: Env, ds: seq<Decision>, tenant: string)
    requires forall text :: env.hash(text) != ""
    requires forall i :: 0 <= i < |ds| ==> ds[i].hash != "" && Separate(tenant, ds[i].tenant)
    ensures OneList(env, OfTenant(MemoryLog(env, ds), tenant), tenant)
    ensures MemoryRow(MemoryRun(env, ds), tenant) == LastRow(OfTenant(MemoryLog(env, ds), tenant))
  {
    MemoryLinear(env, ds, tenant);
    OneListExact(env, MemoryLog(env, ds), tenant);
  }

  lemma {:induction false} MemoryLinear(env: Env, ds: seq<Decision>, tenant: string)
    requires forall text :: env.hash(text) != ""
    requires forall i :: 0 <= i < |ds| ==> ds[i].hash != "" && Separate(tenant, ds[i].tenant)
    ensures Linear(env, OfTenant(MemoryLog(env, ds), tenant))
    ensures MemoryRow(MemoryRun(env, ds), tenant) == LastRow(OfTenant(MemoryLog(env, ds), tenant))
  {
    hide Linear, NextLink, Advance, Separate, SigchainKey;
    if ds == [] {
      assert OfTenant([], tenant) == [];
      LinearEmpty(env);
    } else {
      var init, d := ds[..|ds| - 1], ds[|ds| - 1];
      MemoryLinear(env, init, tenant);
      var m := MemoryRun(env, init);
      AdvanceSeen(env, m, d, tenant);
      OfTenantAppend(MemoryLog(env, init), NextLink(env, MemoryRow(m, d.tenant), d), tenant);
      LinearAppend(env, OfTenant(MemoryLog(env, init), tenant), d);
      NextLinkKeeps(env, MemoryRow(m, d.tenant), d);
    }
  }

  lemma LinearEmpty(env: Env)
    ensures Linear(env, [])
  {
  }

  lemma NextLinkKeeps(env: Env, row: Row, d: Decision)
    ensures NextLink(env, row, d).decision == d
  {
  }
}
