/** Quorum approval of recovery plans, with suppression of replayed plan ids. */
module RecoveryMesh {
  import opened Collections
  import opened Hex
  import opened JsNumbers
  import opened Options
  import opened Texts

  datatype RecoveryPlan = RecoveryPlan(
    planId: string, planDigest: string, targetSequence: Num, targetDigest: string,
    expiresAt: Num, quorum: Num, authorizedNodes: seq<string>)

  /** The plan as `verifyAndAuthorize` sees it: no quorum or node list of its own, perhaps no expiry. */
  datatype PlanRef = PlanRef(
    planId: string, planDigest: string, targetSequence: Num, targetDigest: string, expiresAt: Option<Num>)

  datatype Attestation = Attestation(nodeId: string, planId: string, epoch: string, signature: string)

  /** The hash functions and number printing the mesh relies on. */
  datatype Crypto = Crypto(sha256: string -> string, hmac: (string, string) -> string, printNumber: Num -> string)

  datatype Reason =
    | InvalidDigest | PlanExpiredOrQuorumInvalid | Replay | QuorumNotReached | QuorumReached
    | EpochMismatch | PlanExpired | ReplayedPlan | InvalidAttestation

  type Secrets = map<string, string>

  function RefOf(plan: RecoveryPlan): PlanRef {
    PlanRef(plan.planId, plan.planDigest, plan.targetSequence, plan.targetDigest, Some(plan.expiresAt))
  }

  function DeriveEpoch(k: Crypto, plan: PlanRef): string {
    k.sha256(plan.planId + ":" + plan.planDigest + ":" + k.printNumber(plan.targetSequence) + ":" + plan.targetDigest)
  }

  function Sign(k: Crypto, epoch: string, nodeId: string, secret: string): string {
    k.hmac(secret, epoch + ":" + nodeId)
  }

  /** None where the source throws. */
  function CreateAttestation(k: Crypto, plan: RecoveryPlan, nodeId: string, secret: string, now: Num)
    : Option<Attestation>
  {
    if nodeId !in plan.authorizedNodes || plan.expiresAt.Lt(now) then None
    else
      var epoch := DeriveEpoch(k, RefOf(plan));
      Some(Attestation(nodeId, plan.planId, epoch, Sign(k, epoch, nodeId, secret)))
  }

  /** The attestation counts towards the quorum of `verify`. */
  predicate Counts(k: Crypto, secrets: Secrets, plan: RecoveryPlan, epoch: string, a: Attestation) {
    && a.planId == plan.planId && a.epoch == epoch && a.nodeId in plan.authorizedNodes
    && a.nodeId in secrets && secrets[a.nodeId] != "" && IsSha256(a.signature)
    && a.signature == Sign(k, epoch, a.nodeId, secrets[a.nodeId])
  }

  function ValidNodes(k: Crypto, secrets: Secrets, plan: RecoveryPlan, attestations: seq<Attestation>): set<string> {
    set a | a in attestations && Counts(k, secrets, plan, DeriveEpoch(k, RefOf(plan)), a) :: a.nodeId
  }

  /** The attestation counts towards the quorum of `verifyAndAuthorize`. */
  predicate Authorizes(k: Crypto, secrets: Secrets, plan: PlanRef, epoch: string, a: Attestation) {
    && a.nodeId in secrets && secrets[a.nodeId] != "" && a.planId == plan.planId && a.epoch == epoch
    && Sign(k, epoch, a.nodeId, secrets[a.nodeId]) == a.signature
  }

  function AuthorizingNodes(k: Crypto, secrets: Secrets, plan: PlanRef, epoch: string, attestations: seq<Attestation>)
    : set<string>
  {
    set a | a in attestations && Authorizes(k, secrets, plan, epoch, a) :: a.nodeId
  }

  function Size(s: set<string>): Num {
    Fin(|s| as real)
  }

  function VerifyReason(k: Crypto, secrets: Secrets, consumed: set<string>, plan: RecoveryPlan,
                        attestations: seq<Attestation>, now: Num): Reason
  {
    if !IsSha256(plan.planDigest) || !IsSha256(plan.targetDigest) then InvalidDigest
    else if plan.expiresAt.Lt(now) || plan.quorum.Lt(Fin(1.0)) || Fin(|plan.authorizedNodes| as real).Lt(plan.quorum)
    then PlanExpiredOrQuorumInvalid
    else if plan.planId in consumed then Replay
    else if Size(ValidNodes(k, secrets, plan, attestations)).Lt(plan.quorum) then QuorumNotReached
    else QuorumReached
  }

  function AuthorizeReason(k: Crypto, quorum: Num, consumed: set<string>, plan: PlanRef,
                           attestations: seq<Attestation>, secrets: Secrets, epoch: string, now: Num): Reason
  {
    if epoch != DeriveEpoch(k, plan) then EpochMismatch
    else if plan.expiresAt.Some? && plan.expiresAt.value.Lt(now) then PlanExpired
    else if plan.planId in consumed then ReplayedPlan
    else if Size(AuthorizingNodes(k, secrets, plan, epoch, attestations)).Lt(quorum) then InvalidAttestation
    else QuorumReached
  }

  /** `Math.max(1, quorum)`. */
  function AtLeastOne(quorum: Num): Num {
    if quorum.Lt(Fin(1.0)) then Fin(1.0) else quorum
  }

  class Mesh {
    const crypto: Crypto
    const quorum: Num
    const secretByNode: Secrets
    var consumed: set<string>

    constructor FromSecrets(crypto: Crypto, secrets: Secrets)
      ensures consumed == {} && quorum == Fin(1.0) && secretByNode == secrets && this.crypto == crypto
    {
      this.crypto := crypto;
      quorum, secretByNode, consumed := Fin(1.0), secrets, {};
    }

    constructor FromQuorum(crypto: Crypto, quorum: Num := Fin(2.0))
      ensures consumed == {} && this.quorum == AtLeastOne(quorum) && secretByNode == map[] && this.crypto == crypto
    {
      this.crypto := crypto;
      this.quorum, secretByNode, consumed := AtLeastOne(quorum), map[], {};
    }

    method Verify(plan: RecoveryPlan, attestations: seq<Attestation>, now: Num)
      returns (approved: bool, reason: Reason, epoch: string)
      modifies this
      ensures epoch == DeriveEpoch(crypto, RefOf(plan))
      ensures reason == VerifyReason(crypto, secretByNode, old(consumed), plan, attestations, now)
      ensures approved == (reason == QuorumReached)
      ensures consumed == if approved then old(consumed) + {plan.planId} else old(consumed)
    {
      epoch := DeriveEpoch(crypto, RefOf(plan));
      if !IsSha256(plan.planDigest) || !IsSha256(plan.targetDigest) {
        return false, InvalidDigest, epoch;
      }
      if plan.expiresAt.Lt(now) || plan.quorum.Lt(Fin(1.0)) || Fin(|plan.authorizedNodes| as real).Lt(plan.quorum) {
        return false, PlanExpiredOrQuorumInvalid, epoch;
      }
      if plan.planId in consumed {
        return false, Replay, epoch;
      }
      var valid: set<string> := {};
      for i := 0 to |attestations|
        invariant valid == ValidNodes(crypto, secretByNode, plan, attestations[..i])
        invariant consumed == old(consumed)
      {
        var a := attestations[i];
        assert attestations[..i + 1] == attestations[..i] + [a];
        OneMoreValid(crypto, secretByNode, plan, attestations[..i], a);
        if a.planId != plan.planId || a.epoch != epoch || a.nodeId in valid || a.nodeId !in plan.authorizedNodes {
          continue;
        }
        if a.nodeId !in secretByNode || secretByNode[a.nodeId] == "" || !IsSha256(a.signature) {
          continue;
        }
        if Sign(crypto, epoch, a.nodeId, secretByNode[a.nodeId]) == a.signature {
          valid := valid + {a.nodeId};
        }
      }
      assert attestations[..|attestations|] == attestations;
      if Size(valid).Lt(plan.quorum) {
        return false, QuorumNotReached, epoch;
      }
      consumed := consumed + {plan.planId};
      return true, QuorumReached, epoch;
    }

    method VerifyAndAuthorize(plan: PlanRef, attestations: seq<Attestation>, secrets: Secrets, epoch: string, now: Num)
      returns (accepted: bool, reason: Reason)
      modifies this
      ensures reason == AuthorizeReason(crypto, quorum, old(consumed), plan, attestations, secrets, epoch, now)
      ensures accepted == (reason == QuorumReached)
      ensures consumed == if accepted then old(consumed) + {plan.planId} else old(consumed)
    {
      if epoch != DeriveEpoch(crypto, plan) {
        return false, EpochMismatch;
      }
      if plan.expiresAt.Some? && plan.expiresAt.value.Lt(now) {
        return false, PlanExpired;
      }
      if plan.planId in consumed {
        return false, ReplayedPlan;
      }
      var valid: set<string> := {};
      for i := 0 to |attestations|
        invariant valid == AuthorizingNodes(crypto, secrets, plan, epoch, attestations[..i])
        invariant consumed == old(consumed)
      {
        var a := attestations[i];
        assert attestations[..i + 1] == attestations[..i] + [a];
        OneMoreAuthorizing(crypto, secrets, plan, epoch, attestations[..i], a);
        if a.nodeId !in secrets || secrets[a.nodeId] == "" || a.planId != plan.planId || a.epoch != epoch {
          continue;
        }
        if Sign(crypto, epoch, a.nodeId, secrets[a.nodeId]) == a.signature {
          valid := valid + {a.nodeId};
        }
      }
      assert attestations[..|attestations|] == attestations;
      if Size(valid).Lt(quorum) {
        return false, InvalidAttestation;
      }
      consumed := consumed + {plan.planId};
      return true, QuorumReached;
    }
  }

  lemma OneMoreValid(k: Crypto, secrets: Secrets, plan: RecoveryPlan, xs: seq<Attestation>, a: Attestation)
    ensures ValidNodes(k, secrets, plan, xs + [a])
         == ValidNodes(k, secrets, plan, xs)
            + (if Counts(k, secrets, plan, DeriveEpoch(k, RefOf(plan)), a) then {a.nodeId} else {})
  {
    hide Counts, DeriveEpoch;
    assert forall x :: x in xs + [a] <==> x in xs || x == a;
  }

  lemma OneMoreAuthorizing(k: Crypto, secrets: Secrets, plan: PlanRef, epoch: string, xs: seq<Attestation>,
                           a: Attestation)
    ensures AuthorizingNodes(k, secrets, plan, epoch, xs + [a])
         == AuthorizingNodes(k, secrets, plan, epoch, xs)
            + (if Authorizes(k, secrets, plan, epoch, a) then {a.nodeId} else {})
  {
    hide Authorizes;
    assert forall x :: x in xs + [a] <==> x in xs || x == a;
  }

  // Order, duplication, and more attestations.

  lemma ValidNodesMonotone(k: Crypto, secrets: Secrets, plan: RecoveryPlan, xs: seq<Attestation>, ys: seq<Attestation>)
    requires forall a :: a in xs ==> a in ys
    ensures ValidNodes(k, secrets, plan, xs) <= ValidNodes(k, secrets, plan, ys)
  {
    hide Counts, DeriveEpoch;
  }

  /** Adding attestations, in any order and any number of copies, never revokes an approval. */
  lemma MoreAttestationsKeepApproval(k: Crypto, secrets: Secrets, consumed: set<string>, plan: RecoveryPlan,
                                     xs: seq<Attestation>, ys: seq<Attestation>, now: Num)
    requires forall a :: a in xs ==> a in ys
    requires VerifyReason(k, secrets, consumed, plan, xs, now) == QuorumReached
    ensures VerifyReason(k, secrets, consumed, plan, ys, now) == QuorumReached
  {
    hide ValidNodes, IsSha256;
    ValidNodesMonotone(k, secrets, plan, xs, ys);
    SubsetSize(ValidNodes(k, secrets, plan, xs), ValidNodes(k, secrets, plan, ys));
  }

  /** The whole answer depends only on which attestations are present. */
  lemma OrderAndCopiesIrrelevant(k: Crypto, secrets: Secrets, consumed: set<string>, plan: RecoveryPlan,
                                 xs: seq<Attestation>, ys: seq<Attestation>, now: Num)
    requires forall a :: a in xs <==> a in ys
    ensures VerifyReason(k, secrets, consumed, plan, xs, now) == VerifyReason(k, secrets, consumed, plan, ys, now)
  {
    hide ValidNodes, IsSha256;
    ValidNodesMonotone(k, secrets, plan, xs, ys);
    ValidNodesMonotone(k, secrets, plan, ys, xs);
    assert ValidNodes(k, secrets, plan, xs) == ValidNodes(k, secrets, plan, ys);
  }

  /** The same for `verifyAndAuthorize`: a larger set of attestations keeps an acceptance. */
  lemma MoreAttestationsKeepAcceptance(k: Crypto, quorum: Num, consumed: set<string>, plan: PlanRef,
                                       xs: seq<Attestation>, ys: seq<Attestation>, secrets: Secrets, epoch: string,
                                       now: Num)
    requires forall a :: a in xs ==> a in ys
    requires AuthorizeReason(k, quorum, consumed, plan, xs, secrets, epoch, now) == QuorumReached
    ensures AuthorizeReason(k, quorum, consumed, plan, ys, secrets, epoch, now) == QuorumReached
  {
    hide Authorizes, DeriveEpoch;
    SubsetSize(AuthorizingNodes(k, secrets, plan, epoch, xs), AuthorizingNodes(k, secrets, plan, epoch, ys));
  }

  /** And its whole answer, too, depends only on which attestations are present. */
  lemma AuthorizeOrderAndCopiesIrrelevant(k: Crypto, quorum: Num, consumed: set<string>, plan: PlanRef,
                                          xs: seq<Attestation>, ys: seq<Attestation>, secrets: Secrets, epoch: string,
                                          now: Num)
    requires forall a :: a in xs <==> a in ys
    ensures AuthorizeReason(k, quorum, consumed, plan, xs, secrets, epoch, now)
         == AuthorizeReason(k, quorum, consumed, plan, ys, secrets, epoch, now)
  {
    hide Authorizes, DeriveEpoch;
    assert AuthorizingNodes(k, secrets, plan, epoch, xs) == AuthorizingNodes(k, secrets, plan, epoch, ys);
  }

  // Quorum.

  /** Unless the quorum is NaN, an approval has at least that many, and at least one, distinct valid nodes. */
  lemma ApprovalHasQuorum(k: Crypto, secrets: Secrets, consumed: set<string>, plan: RecoveryPlan,
                          attestations: seq<Attestation>, now: Num)
    requires VerifyReason(k, secrets, consumed, plan, attestations, now) == QuorumReached
    ensures var nodes := ValidNodes(k, secrets, plan, attestations);
      && (forall n :: n in nodes ==>
            && n in plan.authorizedNodes
            && (exists a :: a in attestations && a.nodeId == n
                            && Counts(k, secrets, plan, DeriveEpoch(k, RefOf(plan)), a)))
      && (plan.quorum != NaN ==> plan.quorum.Fin? && 1.0 <= plan.quorum.value <= |nodes| as real)
  {
    hide IsSha256, DeriveEpoch;
  }

  /** The same for `verifyAndAuthorize`, against the quorum of the mesh, which its constructor raises to one. */
  lemma AcceptanceHasQuorum(k: Crypto, quorum: Num, consumed: set<string>, plan: PlanRef,
                            attestations: seq<Attestation>, secrets: Secrets, epoch: string, now: Num)
    requires AuthorizeReason(k, AtLeastOne(quorum), consumed, plan, attestations, secrets, epoch, now) == QuorumReached
    ensures var nodes := AuthorizingNodes(k, secrets, plan, epoch, attestations);
      && epoch == DeriveEpoch(k, plan)
      && (forall n :: n in nodes ==>
            exists a :: a in attestations && a.nodeId == n && Authorizes(k, secrets, plan, epoch, a))
      && (quorum != NaN ==> |nodes| >= 1 && quorum.Le(Fin(|nodes| as real)))
  {
    hide DeriveEpoch;
  }

  /**
   * Every answer of `verify`, in the order of its checks. A finite quorum must lie between one and the number of
   * listed nodes; a NaN quorum passes every comparison.
   */
  lemma VerifyExact(k: Crypto, secrets: Secrets, consumed: set<string>, plan: RecoveryPlan,
                    attestations: seq<Attestation>, now: Num)
    ensures var reason := VerifyReason(k, secrets, consumed, plan, attestations, now);
      var nodes := ValidNodes(k, secrets, plan, attestations);
      var checked := IsSha256(plan.planDigest) && IsSha256(plan.targetDigest);
      var open := (plan.expiresAt.Fin? && now.Fin? ==> now.value <= plan.expiresAt.value)
        && !(plan.expiresAt.NegInf? && (now.Fin? || now.PosInf?)) && !(plan.expiresAt.Fin? && now.PosInf?)
        && (plan.quorum == NaN
            || (plan.quorum.Fin? && 1.0 <= plan.quorum.value <= |plan.authorizedNodes| as real));
      var enough := plan.quorum == NaN || (plan.quorum.Fin? && plan.quorum.value <= |nodes| as real);
      && (reason == InvalidDigest <==> !checked)
      && (reason == PlanExpiredOrQuorumInvalid <==> checked && !open)
      && (reason == Replay <==> checked && open && plan.planId in consumed)
      && (reason == QuorumNotReached <==> checked && open && plan.planId !in consumed && !enough)
      && (reason == QuorumReached <==> checked && open && plan.planId !in consumed && enough)
  {
    hide IsSha256, ValidNodes;
  }

  /**
   * Every answer of `verifyAndAuthorize` by a mesh built with quorum `q`. Anything below one counts as one, an
   * infinite quorum is never reached, and a NaN quorum always.
   */
  lemma AuthorizeExact(k: Crypto, q: Num, consumed: set<string>, plan: PlanRef, attestations: seq<Attestation>,
                       secrets: Secrets, epoch: string, now: Num)
    ensures var reason := AuthorizeReason(k, AtLeastOne(q), consumed, plan, attestations, secrets, epoch, now);
      var n := |AuthorizingNodes(k, secrets, plan, epoch, attestations)|;
      var known := epoch == DeriveEpoch(k, plan);
      var expired := plan.expiresAt.Some? && plan.expiresAt.value.Lt(now);
      var enough := match q
        case NaN => true
        case NegInf => n >= 1
        case PosInf => false
        case Fin(v) => n >= 1 && v <= n as real;
      && (reason == EpochMismatch <==> !known)
      && (reason == PlanExpired <==> known && expired)
      && (reason == ReplayedPlan <==> known && !expired && plan.planId in consumed)
      && (reason == InvalidAttestation <==> known && !expired && plan.planId !in consumed && !enough)
      && (reason == QuorumReached <==> known && !expired && plan.planId !in consumed && enough)
  {
    hide AuthorizingNodes, DeriveEpoch;
  }

  /** No attestation at all is enough exactly when the quorum is NaN and the plan is otherwise acceptable. */
  lemma EmptyQuorumExact(k: Crypto, secrets: Secrets, consumed: set<string>, plan: RecoveryPlan, now: Num)
    ensures VerifyReason(k, secrets, consumed, plan, [], now) == QuorumReached <==>
      && plan.quorum == NaN && IsSha256(plan.planDigest) && IsSha256(plan.targetDigest)
      && !plan.expiresAt.Lt(now) && plan.planId !in consumed
  {
    hide IsSha256, Counts, DeriveEpoch;
    assert ValidNodes(k, secrets, plan, []) == {};
  }

  /** Likewise a mesh accepts a plan without attestations exactly when it was built with a NaN quorum. */
  lemma EmptyAcceptanceExact(k: Crypto, quorum: Num, consumed: set<string>, plan: PlanRef, secrets: Secrets,
                             epoch: string, now: Num)
    ensures AuthorizeReason(k, AtLeastOne(quorum), consumed, plan, [], secrets, epoch, now) == QuorumReached <==>
      && quorum == NaN && epoch == DeriveEpoch(k, plan)
      && !(plan.expiresAt.Some? && plan.expiresAt.value.Lt(now)) && plan.planId !in consumed
  {
    hide Authorizes, DeriveEpoch;
    assert AuthorizingNodes(k, secrets, plan, epoch, []) == {};
  }

  // What an attestation binds.

  /** SHA-256 taken to be injective; printed numbers hold no colon. */
  ghost predicate GoodCrypto(k: Crypto) {
    && (forall s, t :: k.sha256(s) == k.sha256(t) ==> s == t)
    && (forall n :: ':' !in k.printNumber(n))
  }

  /** The assumption can be met. */
  lemma GoodCryptoExists()
    ensures exists k :: GoodCrypto(k)
  {
    var k := Crypto(s => s, (secret, text) => text, n => "0");
    assert GoodCrypto(k);
  }

  /** The part of the epoch text behind the plan id. */
  function Terms(k: Crypto, plan: PlanRef): string {
    plan.planDigest + ":" + (k.printNumber(plan.targetSequence) + ":" + plan.targetDigest)
  }

  lemma EpochText(k: Crypto, plan: PlanRef)
    ensures DeriveEpoch(k, plan) == k.sha256(plan.planId + [':'] + Terms(k, plan))
  {
    var number := k.printNumber(plan.targetSequence);
    assert plan.planId + ":" + plan.planDigest + ":" + number + ":" + plan.targetDigest
        == plan.planId + [':'] + (plan.planDigest + ":" + (number + ":" + plan.targetDigest));
  }

  /** A listed node can attest a plan until it expires, and no other can; the attestation names node, plan and epoch. */
  lemma CreateExact(k: Crypto, plan: RecoveryPlan, nodeId: string, secret: string, now: Num)
    ensures var created, epoch := CreateAttestation(k, plan, nodeId, secret, now), DeriveEpoch(k, RefOf(plan));
      if nodeId in plan.authorizedNodes && !plan.expiresAt.Lt(now)
      then created == Some(Attestation(nodeId, plan.planId, epoch, k.hmac(secret, epoch + ":" + nodeId)))
      else created.None?
  {
    hide DeriveEpoch;
  }

  /** Plans of one id share an epoch exactly when their joined terms are equal. */
  lemma EpochExact(k: Crypto, a: PlanRef, b: PlanRef)
    requires GoodCrypto(k) && a.planId == b.planId
    ensures DeriveEpoch(k, a) == DeriveEpoch(k, b) <==> Terms(k, a) == Terms(k, b)
  {
    hide DeriveEpoch, Terms;
    EpochText(k, a);
    EpochText(k, b);
    var s, t := a.planId + [':'] + Terms(k, a), b.planId + [':'] + Terms(k, b);
    assert Terms(k, a) == s[|a.planId| + 1..] && Terms(k, b) == t[|a.planId| + 1..];
  }

  lemma HexFreeOfColons(s: string)
    requires IsSha256(s)
    ensures ':' !in s
  {
  }

  /** With the digests of one plan checked, equal terms are equal parts, whatever the digests of the other. */
  lemma TermsExact(k: Crypto, a: PlanRef, b: PlanRef)
    requires GoodCrypto(k) && IsSha256(b.planDigest) && IsSha256(b.targetDigest)
    ensures Terms(k, a) == Terms(k, b) <==>
      && a.planDigest == b.planDigest && a.targetDigest == b.targetDigest
      && k.printNumber(a.targetSequence) == k.printNumber(b.targetSequence)
  {
    hide IsSha256;
    HexFreeOfColons(b.planDigest);
    HexFreeOfColons(b.targetDigest);
    if Terms(k, a) == Terms(k, b) {
      var m, n := k.printNumber(a.targetSequence), k.printNumber(b.targetSequence);
      JoinedParts(a.planDigest, m, a.targetDigest, b.planDigest, n, b.targetDigest, ':');
    }
  }

  /**
   * An attestation created for one plan counts towards another exactly when that one has the same id, digests
   * and printed sequence, still lists the node, and knows its secret. Quorum, expiry and the rest of the node
   * list are not bound.
   */
  lemma AttestationBinds(k: Crypto, secrets: Secrets, plan: RecoveryPlan, other: RecoveryPlan, nodeId: string,
                         secret: string, now: Num, a: Attestation)
    requires GoodCrypto(k) && IsSha256(other.planDigest) && IsSha256(other.targetDigest)
    requires CreateAttestation(k, plan, nodeId, secret, now) == Some(a)
    ensures Counts(k, secrets, other, DeriveEpoch(k, RefOf(other)), a) <==>
      && plan.planId == other.planId && plan.planDigest == other.planDigest && plan.targetDigest == other.targetDigest
      && k.printNumber(plan.targetSequence) == k.printNumber(other.targetSequence)
      && nodeId in other.authorizedNodes && nodeId in secrets && secrets[nodeId] != "" && IsSha256(a.signature)
      && a.signature == k.hmac(secrets[nodeId], a.epoch + ":" + nodeId)
  {
    hide DeriveEpoch, Terms, IsSha256, GoodCrypto;
    if plan.planId == other.planId {
      EpochExact(k, RefOf(plan), RefOf(other));
      TermsExact(k, RefOf(plan), RefOf(other));
    }
  }

  /** `verifyAndAuthorize` checks no digests: there the joined terms decide. */
  lemma AttestationBindsTerms(k: Crypto, secrets: Secrets, plan: RecoveryPlan, other: PlanRef, nodeId: string,
                              secret: string, now: Num, a: Attestation)
    requires GoodCrypto(k) && CreateAttestation(k, plan, nodeId, secret, now) == Some(a)
    ensures Authorizes(k, secrets, other, DeriveEpoch(k, other), a) <==>
      && plan.planId == other.planId && Terms(k, RefOf(plan)) == Terms(k, other)
      && nodeId in secrets && secrets[nodeId] != "" && a.signature == k.hmac(secrets[nodeId], a.epoch + ":" + nodeId)
  {
    hide DeriveEpoch, Terms, GoodCrypto;
    if plan.planId == other.planId {
      EpochExact(k, RefOf(plan), other);
    }
  }

  /**
   * So one attestation approves its plan presented again with a quorum of one, that node as the whole list, and
   * any expiry not yet passed.
   */
  lemma OneAttestationApprovesNarrowed(k: Crypto, secrets: Secrets, consumed: set<string>, plan: RecoveryPlan,
                                       nodeId: string, now: Num, later: Num, at: Num, a: Attestation)
    requires nodeId in secrets && secrets[nodeId] != "" && IsSha256(a.signature)
    requires CreateAttestation(k, plan, nodeId, secrets[nodeId], now) == Some(a)
    requires IsSha256(plan.planDigest) && IsSha256(plan.targetDigest) && plan.planId !in consumed && !later.Lt(at)
    ensures var narrowed := plan.(quorum := Fin(1.0), expiresAt := later, authorizedNodes := [nodeId]);
      VerifyReason(k, secrets, consumed, narrowed, [a], at) == QuorumReached
  {
    hide IsSha256;
    var narrowed := plan.(quorum := Fin(1.0), expiresAt := later, authorizedNodes := [nodeId]);
    assert a in [a] && Counts(k, secrets, narrowed, DeriveEpoch(k, RefOf(narrowed)), a);
    assert nodeId in ValidNodes(k, secrets, narrowed, [a]);
  }

  lemma {:induction false} FewerThanListed(s: set<string>, list: seq<string>)
    requires forall x :: x in s ==> x in list
    ensures |s| <= |list|
  {
    if list != [] {
      var last := list[|list| - 1];
      assert list == list[..|list| - 1] + [last];
      FewerThanListed(s - {last}, list[..|list| - 1]);
      SubsetSize(s, (s - {last}) + {last});
    } else {
      assert forall x :: x !in s;
      assert s == {};
    }
  }

  /** Attestations created by distinct authorised nodes all count: they approve exactly when they reach the quorum. */
  lemma CreatedAttestationsApprove(k: Crypto, secrets: Secrets, consumed: set<string>, plan: RecoveryPlan,
                                   nodes: seq<string>, attestations: seq<Attestation>, now: Num)
    requires |attestations| == |nodes|
    requires forall secret, m :: IsSha256(k.hmac(secret, m))
    requires forall i :: 0 <= i < |nodes| ==>
      && nodes[i] in secrets && secrets[nodes[i]] != ""
      && CreateAttestation(k, plan, nodes[i], secrets[nodes[i]], now) == Some(attestations[i])
    requires IsSha256(plan.planDigest) && IsSha256(plan.targetDigest) && plan.planId !in consumed
    requires nodes != []
    ensures VerifyReason(k, secrets, consumed, plan, attestations, now) == QuorumReached
       <==> plan.quorum == NaN
            || (plan.quorum.Fin? && 1.0 <= plan.quorum.value <= |set i | 0 <= i < |nodes| :: nodes[i]| as real)
  {
    hide DeriveEpoch, IsSha256;
    var senders := set i | 0 <= i < |nodes| :: nodes[i];
    var valid := ValidNodes(k, secrets, plan, attestations);
    assert CreateAttestation(k, plan, nodes[0], secrets[nodes[0]], now).Some?;
    forall i | 0 <= i < |nodes|
      ensures nodes[i] in valid
    {
      assert attestations[i] in attestations;
      assert Counts(k, secrets, plan, DeriveEpoch(k, RefOf(plan)), attestations[i]);
    }
    forall n | n in valid
      ensures n in senders
    {
      var a :| a in attestations && a.nodeId == n;
      var i :| 0 <= i < |attestations| && attestations[i] == a;
      assert nodes[i] == n;
    }
    assert senders == valid;
    forall n | n in senders
      ensures n in plan.authorizedNodes
    {
      var i :| 0 <= i < |nodes| && nodes[i] == n;
      assert CreateAttestation(k, plan, nodes[i], secrets[nodes[i]], now).Some?;
    }
    FewerThanListed(senders, plan.authorizedNodes);
  }

  // Runs mixing the two operations on one mesh.

  datatype Call =
    | VerifyCall(plan: RecoveryPlan, attestations: seq<Attestation>, now: Num)
    | AuthorizeCall(ref: PlanRef, attestations: seq<Attestation>, secrets: Secrets, epoch: string, now: Num)
  {
    function PlanId(): string {
      if VerifyCall? then plan.planId else ref.planId
    }
  }

  datatype Settings = Settings(crypto: Crypto, quorum: Num, secretByNode: Secrets)

  function ReasonOf(s: Settings, consumed: set<string>, call: Call): Reason {
    match call
    case VerifyCall(plan, attestations, now) =>
      VerifyReason(s.crypto, s.secretByNode, consumed, plan, attestations, now)
    case AuthorizeCall(ref, attestations, secrets, epoch, now) =>
      AuthorizeReason(s.crypto, s.quorum, consumed, ref, attestations, secrets, epoch, now)
  }

  function Consumed(s: Settings, calls: seq<Call>): set<string> {
    if calls == [] then {}
    else
      var past, call := Consumed(s, calls[..|calls| - 1]), calls[|calls| - 1];
      if ReasonOf(s, past, call) == QuorumReached then past + {call.PlanId()} else past
  }

  predicate ApprovedAt(s: Settings, calls: seq<Call>, i: nat)
    requires i < |calls|
  {
    ReasonOf(s, Consumed(s, calls[..i]), calls[i]) == QuorumReached
  }

  lemma ConsumedStep(s: Settings, calls: seq<Call>)
    requires calls != []
    ensures var n := |calls| - 1;
      Consumed(s, calls) == Consumed(s, calls[..n]) + if ApprovedAt(s, calls, n) then {calls[n].PlanId()} else {}
  {
    hide ReasonOf;
  }

  lemma ApprovedPrefix(s: Settings, calls: seq<Call>, i: nat)
    requires i < |calls| - 1
    ensures ApprovedAt(s, calls[..|calls| - 1], i) == ApprovedAt(s, calls, i)
  {
    hide ReasonOf, Consumed;
    assert calls[..|calls| - 1][..i] == calls[..i];
  }

  /** Every approval consumes its plan id for good. */
  lemma {:induction false} ApprovedIsConsumed(s: Settings, calls: seq<Call>, i: nat)
    requires i < |calls| && ApprovedAt(s, calls, i)
    ensures calls[i].PlanId() in Consumed(s, calls)
  {
    hide ReasonOf, Consumed, ApprovedAt;
    ConsumedStep(s, calls);
    if i < |calls| - 1 {
      ApprovedPrefix(s, calls, i);
      ApprovedIsConsumed(s, calls[..|calls| - 1], i);
    }
  }

  /** Nothing else is consumed: every consumed id has its approval. */
  lemma {:induction false} ConsumedWasApproved(s: Settings, calls: seq<Call>, planId: string) returns (i: nat)
    requires planId in Consumed(s, calls)
    ensures i < |calls| && ApprovedAt(s, calls, i) && calls[i].PlanId() == planId
  {
    assert calls != [];
    hide ReasonOf, Consumed, ApprovedAt;
    ConsumedStep(s, calls);
    i := |calls| - 1;
    if !ApprovedAt(s, calls, i) || calls[i].PlanId() != planId {
      i := ConsumedWasApproved(s, calls[..i], planId);
      ApprovedPrefix(s, calls, i);
    }
  }

  /** After any run a plan id is consumed exactly when some call of it was approved. */
  lemma ConsumedExact(s: Settings, calls: seq<Call>, planId: string)
    ensures planId in Consumed(s, calls) <==>
            exists i: nat :: i < |calls| && ApprovedAt(s, calls, i) && calls[i].PlanId() == planId
  {
    hide Consumed, ApprovedAt;
    if planId in Consumed(s, calls) {
      var i := ConsumedWasApproved(s, calls, planId);
    }
    if i: nat :| i < |calls| && ApprovedAt(s, calls, i) && calls[i].PlanId() == planId {
      ApprovedIsConsumed(s, calls, i);
    }
  }

  /** Across any run mixing both operations a plan id is approved at most once. */
  lemma ApprovedAtMostOnce(s: Settings, calls: seq<Call>, i: nat, j: nat)
    requires i < j < |calls| && calls[i].PlanId() == calls[j].PlanId()
    requires ApprovedAt(s, calls, i)
    ensures !ApprovedAt(s, calls, j)
  {
    var past := calls[..j];
    assert past[..i] == calls[..i];
    assert ApprovedAt(s, past, i);
    ApprovedIsConsumed(s, past, i);
    hide Consumed;
    RefusedWhenConsumed(s, Consumed(s, past), calls[j]);
  }

  lemma RefusedWhenConsumed(s: Settings, consumed: set<string>, call: Call)
    requires call.PlanId() in consumed
    ensures ReasonOf(s, consumed, call) != QuorumReached
  {
    hide ValidNodes, AuthorizingNodes, DeriveEpoch, IsSha256;
  }
}
