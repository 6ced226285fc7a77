/** The dormant continuity node: a mode machine over a bounded ring of checkpoints. */
module ArgusAion {
  import opened Collections
  import opened Hex
  import opened JsNumbers

  datatype Mode = DORMANT | SHADOW | AION_ACTIVE | RECOVERY | QUARANTINED
  datatype Event = ARGUS_HEARTBEAT | ARGUS_DEGRADED | ARGUS_LOST | ARGUS_RESTORED

  datatype Checkpoint = Checkpoint(
    sequence: int, capturedAt: string, stateDigest: string, policyVersion: string,
    nodeIds: seq<string>, healthScore: real)

  datatype HeartbeatInput = HeartbeatInput(
    argusEpoch: string, sequence: Num, stateDigest: string, policyVersion: string,
    nodeIds: seq<string>, healthScore: Num, capturedAt: string)

  datatype Signal = Signal(event: Event, sequence: int, observedAt: int, argusEpoch: string)
  datatype Plan = Plan(activatedAt: int, targetCheckpoint: Checkpoint, requiredNodeIds: seq<string>)

  datatype Error =
    | InvalidStateDigest | InvalidSequence | InvalidHealthScore | InvalidNodeSet
    | NotActivated | InsufficientRecoveryHistory | InsufficientRecoveryNodes

  datatype Outcome =
    | Recorded(checkpoint: Checkpoint) | Emitted(signal: Signal) | Planned(plan: Plan) | Done | Failed(error: Error)

  datatype Config = Config(capacity: int, lossThresholdMs: int, minimumRecoveryNodes: int)

  datatype Node = Node(
    mode: Mode, checkpoints: seq<Checkpoint>, lastHeartbeatAt: int, lastSequence: int, argusEpoch: string)

  function Bounded(low: int, high: int, value: int): int {
    var m := if high < value then high else value;
    if low > m then low else m
  }

  function NewConfig(checkpointCapacity: int := 8, lossThresholdMs: int := 1_500,
                     minimumRecoveryNodes: int := 3): (c: Config)
    ensures 3 <= c.capacity <= 64 && 1 <= c.minimumRecoveryNodes <= 32
  {
    Config(Bounded(3, 64, checkpointCapacity), Bounded(100, 30_000, lossThresholdMs),
           Bounded(1, 32, minimumRecoveryNodes))
  }

  const INITIAL := Node(DORMANT, [], 0, 0, "")

  predicate Awake(m: Mode) {
    m == AION_ACTIVE || m == RECOVERY
  }

  // What each operation does, on values.

  function HeartbeatError(n: Node, i: HeartbeatInput): (e: seq<Error>)
    ensures |e| <= 1
    ensures e == [] ==> i.sequence.IsInteger() && i.healthScore.IsFinite()
  {
    if !IsSha256(i.stateDigest) then [InvalidStateDigest]
    else if i.argusEpoch == "" || !i.sequence.IsInteger() || i.sequence.value <= n.lastSequence as real
    then [InvalidSequence]
    else if !i.healthScore.IsFinite() || i.healthScore.value < 0.0 || i.healthScore.value > 1.0
    then [InvalidHealthScore]
    else if |i.nodeIds| == 0 || |i.nodeIds| > 256 then [InvalidNodeSet]
    else []
  }

  function CheckpointOf(i: HeartbeatInput): Checkpoint
    requires i.sequence.IsInteger() && i.healthScore.IsFinite()
  {
    Checkpoint(i.sequence.value.Floor, i.capturedAt, i.stateDigest, i.policyVersion, i.nodeIds, i.healthScore.value)
  }

  function Heartbeat(c: Config, n: Node, i: HeartbeatInput, clock: int): (Node, Outcome) {
    var error := HeartbeatError(n, i);
    if error != [] then (n, Failed(error[0]))
    else
      var cp := CheckpointOf(i);
      (Node(SHADOW, LastN(n.checkpoints + [cp], if c.capacity > 0 then c.capacity else 0), clock, cp.sequence,
            i.argusEpoch),
       Recorded(cp))
  }

  predicate Lost(c: Config, n: Node, event: Event, now: int) {
    event == ARGUS_LOST || (n.lastHeartbeatAt > 0 && now - n.lastHeartbeatAt > c.lossThresholdMs)
  }

  /** The event an inspection reports: a heartbeat always, else a loss when one is due, else the event itself. */
  function Reported(c: Config, n: Node, event: Event, now: int): Event {
    if event == ARGUS_HEARTBEAT then event else if Lost(c, n, event, now) then ARGUS_LOST else event
  }

  function ModeAfter(m: Mode, reported: Event): Mode {
    match reported
    case ARGUS_HEARTBEAT => if Awake(m) then m else SHADOW
    case ARGUS_LOST => if Awake(m) then m else AION_ACTIVE
    case ARGUS_DEGRADED => SHADOW
    case ARGUS_RESTORED => if m == QUARANTINED then m else SHADOW
  }

  function Inspect(c: Config, n: Node, event: Event, now: int): (Node, Outcome) {
    var reported := Reported(c, n, event, now);
    (n.(mode := ModeAfter(n.mode, reported)), Emitted(Signal(reported, n.lastSequence, now, n.argusEpoch)))
  }

  function Activate(c: Config, n: Node, now: int): (Node, Outcome) {
    if !Awake(n.mode) then (n, Failed(NotActivated))
    else if |n.checkpoints| < 2 then (n, Failed(InsufficientRecoveryHistory))
    else
      var target := n.checkpoints[if |n.checkpoints| >= 3 then |n.checkpoints| - 3 else 0];
      var wanted := if c.minimumRecoveryNodes > 1 then c.minimumRecoveryNodes else 1;
      var ids := if |target.nodeIds| <= wanted then target.nodeIds else target.nodeIds[..wanted];
      if |ids| < c.minimumRecoveryNodes then (n, Failed(InsufficientRecoveryNodes))
      else (n.(mode := RECOVERY), Planned(Plan(now, target, ids)))
  }

  class Aion {
    const config: Config
    var mode: Mode
    var checkpoints: seq<Checkpoint>
    var lastHeartbeatAt: int
    var lastSequence: int
    var argusEpoch: string

    function State(): Node
      reads this
    {
      Node(mode, checkpoints, lastHeartbeatAt, lastSequence, argusEpoch)
    }

    ghost predicate Valid()
      reads this
    {
      3 <= config.capacity && |checkpoints| <= config.capacity
    }

    constructor (checkpointCapacity: int := 8, lossThresholdMs: int := 1_500, minimumRecoveryNodes: int := 3)
      ensures Valid() && State() == INITIAL
      ensures config == NewConfig(checkpointCapacity, lossThresholdMs, minimumRecoveryNodes)
    {
      config := NewConfig(checkpointCapacity, lossThresholdMs, minimumRecoveryNodes);
      mode, checkpoints, lastHeartbeatAt, lastSequence, argusEpoch := DORMANT, [], 0, 0, "";
    }

    method ObserveHeartbeat(input: HeartbeatInput, clock: int) returns (outcome: Outcome)
      requires Valid()
      modifies this
      ensures Valid() && (State(), outcome) == Heartbeat(config, old(State()), input, clock)
    {
      hide IsSha256;
      if !IsSha256(input.stateDigest) {
        return Failed(InvalidStateDigest);
      }
      if input.argusEpoch == "" || !input.sequence.IsInteger() || input.sequence.value <= lastSequence as real {
        return Failed(InvalidSequence);
      }
      if !input.healthScore.IsFinite() || input.healthScore.value < 0.0 || input.healthScore.value > 1.0 {
        return Failed(InvalidHealthScore);
      }
      if |input.nodeIds| == 0 || |input.nodeIds| > 256 {
        return Failed(InvalidNodeSet);
      }
      argusEpoch := input.argusEpoch;
      lastSequence := input.sequence.value.Floor;
      lastHeartbeatAt := clock;
      mode := SHADOW;
      var checkpoint := CheckpointOf(input);
      checkpoints := checkpoints + [checkpoint];
      ghost var all := checkpoints;
      while |checkpoints| > config.capacity
        invariant |checkpoints| >= config.capacity || checkpoints == all
        invariant checkpoints == LastN(all, |checkpoints|)
        modifies this`checkpoints
      {
        checkpoints := checkpoints[1..];
      }
      return Recorded(checkpoint);
    }

    method InspectEvent(event: Event, now: int) returns (outcome: Outcome)
      modifies this
      ensures (State(), outcome) == Inspect(config, old(State()), event, now)
    {
      if event == ARGUS_HEARTBEAT {
        if mode != AION_ACTIVE && mode != RECOVERY {
          mode := SHADOW;
        }
        return Emitted(Signal(event, lastSequence, now, argusEpoch));
      }
      if event == ARGUS_LOST || (lastHeartbeatAt > 0 && now - lastHeartbeatAt > config.lossThresholdMs) {
        if mode != AION_ACTIVE && mode != RECOVERY {
          mode := AION_ACTIVE;
        }
        return Emitted(Signal(ARGUS_LOST, lastSequence, now, argusEpoch));
      }
      if event == ARGUS_DEGRADED {
        mode := SHADOW;
        return Emitted(Signal(event, lastSequence, now, argusEpoch));
      }
      if mode != QUARANTINED {
        mode := SHADOW;
      }
      return Emitted(Signal(event, lastSequence, now, argusEpoch));
    }

    method ActivateRecovery(now: int) returns (outcome: Outcome)
      modifies this
      ensures (State(), outcome) == Activate(config, old(State()), now)
    {
      if mode != AION_ACTIVE && mode != RECOVERY {
        return Failed(NotActivated);
      }
      if |checkpoints| < 2 {
        return Failed(InsufficientRecoveryHistory);
      }
      var target := checkpoints[if |checkpoints| >= 3 then |checkpoints| - 3 else 0];
      var wanted := if config.minimumRecoveryNodes > 1 then config.minimumRecoveryNodes else 1;
      var ids := if |target.nodeIds| <= wanted then target.nodeIds else target.nodeIds[..wanted];
      if |ids| < config.minimumRecoveryNodes {
        return Failed(InsufficientRecoveryNodes);
      }
      mode := RECOVERY;
      return Planned(Plan(now, target, ids));
    }

    method Quarantine()
      modifies this
      ensures State() == old(State()).(mode := QUARANTINED)
    {
      mode := QUARANTINED;
    }
  }

  // Runs.

  datatype Action =
    | HeartbeatAction(input: HeartbeatInput, clock: int)
    | InspectAction(event: Event, now: int)
    | ActivateAction(now: int)
    | QuarantineAction

  function Step(c: Config, n: Node, a: Action): (Node, Outcome) {
    match a
    case HeartbeatAction(input, clock) => Heartbeat(c, n, input, clock)
    case InspectAction(event, now) => Inspect(c, n, event, now)
    case ActivateAction(now) => Activate(c, n, now)
    case QuarantineAction => (n.(mode := QUARANTINED), Done)
  }

  function Run(c: Config, actions: seq<Action>): Node {
    if actions == [] then INITIAL else Step(c, Run(c, actions[..|actions| - 1]), actions[|actions| - 1]).0
  }

  function OutcomeAt(c: Config, actions: seq<Action>, i: nat): Outcome
    requires i < |actions|
  {
    Step(c, Run(c, actions[..i]), actions[i]).1
  }

  /** Every checkpoint ever accepted: the history nobody trims. */
  function History(c: Config, actions: seq<Action>): seq<Checkpoint> {
    if actions == [] then []
    else
      var past, outcome := History(c, actions[..|actions| - 1]), OutcomeAt(c, actions, |actions| - 1);
      if outcome.Recorded? then past + [outcome.checkpoint] else past
  }

  /** The ring is the newest part of the history, whose sequence numbers strictly increase. */
  lemma {:induction false} RingIsHistorySuffix(c: Config, actions: seq<Action>)
    requires c.capacity >= 3
    ensures var h, n := History(c, actions), Run(c, actions);
      && n.checkpoints == LastN(h, c.capacity)
      && n.lastSequence == (if h == [] then 0 else h[|h| - 1].sequence)
      && (forall i :: 0 <= i < |h| ==> h[i].sequence <= n.lastSequence)
      && (forall i, j :: 0 <= i < j < |h| ==> h[i].sequence < h[j].sequence)
  {
    hide *;
    if actions == [] {
      NothingRecorded(c);
    } else {
      var init, a := actions[..|actions| - 1], actions[|actions| - 1];
      RingIsHistorySuffix(c, init);
      LastStep(c, actions);
      RingStep(c, History(c, init), Run(c, init), a);
    }
  }

  lemma NothingRecorded(c: Config)
    requires c.capacity >= 3
    ensures History(c, []) == [] && Run(c, []).checkpoints == LastN<Checkpoint>([], c.capacity)
    ensures Run(c, []).lastSequence == 0
  {
  }

  lemma RingStep(c: Config, h: seq<Checkpoint>, n: Node, a: Action)
    requires c.capacity >= 3 && n.checkpoints == LastN(h, c.capacity)
    requires n.lastSequence == (if h == [] then 0 else h[|h| - 1].sequence)
    requires forall i :: 0 <= i < |h| ==> h[i].sequence <= n.lastSequence
    requires forall i, j :: 0 <= i < j < |h| ==> h[i].sequence < h[j].sequence
    ensures var (n', outcome) := Step(c, n, a);
      var h' := if outcome.Recorded? then h + [outcome.checkpoint] else h;
      && n'.checkpoints == LastN(h', c.capacity)
      && n'.lastSequence == (if h' == [] then 0 else h'[|h'| - 1].sequence)
      && (forall i :: 0 <= i < |h'| ==> h'[i].sequence <= n'.lastSequence)
      && (forall i, j :: 0 <= i < j < |h'| ==> h'[i].sequence < h'[j].sequence)
  {
    hide *;
    StepRing(c, n, a);
    var outcome := Step(c, n, a).1;
    if outcome.Recorded? {
      LastNAppend(h, outcome.checkpoint, c.capacity);
      SequencesExtend(h, outcome.checkpoint, n.lastSequence);
    }
  }

  lemma SequencesExtend(h: seq<Checkpoint>, x: Checkpoint, last: int)
    requires last < x.sequence && forall i :: 0 <= i < |h| ==> h[i].sequence <= last
    requires forall i, j :: 0 <= i < j < |h| ==> h[i].sequence < h[j].sequence
    ensures var all := h + [x];
      && (forall i :: 0 <= i < |all| ==> all[i].sequence <= x.sequence)
      && (forall i, j :: 0 <= i < j < |all| ==> all[i].sequence < all[j].sequence)
  {
  }

  /** A step either appends a checkpoint with a larger sequence number, or leaves the ring alone. */
  lemma StepRing(c: Config, n: Node, a: Action)
    requires c.capacity >= 3
    ensures var (after, outcome) := Step(c, n, a);
      if outcome.Recorded? then
        && after.checkpoints == LastN(n.checkpoints + [outcome.checkpoint], c.capacity)
        && n.lastSequence < outcome.checkpoint.sequence == after.lastSequence
      else
        after.checkpoints == n.checkpoints && after.lastSequence == n.lastSequence
  {
    hide LastN, IsSha256;
  }

  lemma LastStep(c: Config, actions: seq<Action>)
    requires actions != []
    ensures var init, last := actions[..|actions| - 1], actions[|actions| - 1];
      var (after, outcome) := Step(c, Run(c, init), last);
      && Run(c, actions) == after
      && OutcomeAt(c, actions, |actions| - 1) == outcome
      && History(c, actions)
         == if outcome.Recorded? then History(c, init) + [outcome.checkpoint] else History(c, init)
  {
    hide Step;
  }

  /**
   * A recovery plan is issued exactly when the node is awake, two heartbeats were ever accepted and the
   * target has enough nodes. The target is the third-newest checkpoint ever accepted (the older one of
   * two), never the newest, and the plan names exactly the configured number of its nodes.
   */
  lemma PlanTargetsThirdNewest(c: Config, actions: seq<Action>, now: int)
    requires c.capacity >= 3 && c.minimumRecoveryNodes >= 1
    ensures var h, outcome := History(c, actions), Activate(c, Run(c, actions), now).1;
      var k := if |h| >= 3 then |h| - 3 else 0;
      && (outcome.Planned? <==>
            Awake(Run(c, actions).mode) && |h| >= 2 && |h[k].nodeIds| >= c.minimumRecoveryNodes)
      && (outcome.Planned? ==>
            && outcome.plan.targetCheckpoint == h[k]
            && h[k].sequence < h[|h| - 1].sequence
            && outcome.plan.requiredNodeIds == h[k].nodeIds[..c.minimumRecoveryNodes])
  {
    hide Run, History;
    RingIsHistorySuffix(c, actions);
  }

  // Recovery only after loss.

  /** Heartbeats, quarantine, and DEGRADED or RESTORED reports put an earlier loss to rest. */
  predicate Clears(a: Action, outcome: Outcome) {
    || outcome.Recorded?
    || (outcome.Emitted? && outcome.signal.event in {ARGUS_DEGRADED, ARGUS_RESTORED})
    || a.QuarantineAction?
  }

  predicate LossAt(c: Config, actions: seq<Action>, i: nat)
    requires i < |actions|
  {
    OutcomeAt(c, actions, i).Emitted? && OutcomeAt(c, actions, i).signal.event == ARGUS_LOST
  }

  /** A loss was reported at i and nothing since has cleared it. */
  ghost predicate PendingSince(c: Config, actions: seq<Action>, i: nat)
    requires i < |actions|
  {
    LossAt(c, actions, i) && forall j :: i < j < |actions| ==> !Clears(actions[j], OutcomeAt(c, actions, j))
  }

  /** Over every trace: awake if and only if a reported loss is still pending. */
  lemma {:induction false} AwakeExactlyAfterLoss(c: Config, actions: seq<Action>)
    ensures Awake(Run(c, actions).mode) <==> exists i: nat :: i < |actions| && PendingSince(c, actions, i)
  {
    if actions != [] {
      var n := |actions| - 1;
      var init := actions[..n];
      AwakeExactlyAfterLoss(c, init);
      PendingExtends(c, actions);
      StepAwake(c, Run(c, init), actions[n]);
      hide Step, Clears, PendingSince;
      if i: nat :| i < n && PendingSince(c, init, i) && !Clears(actions[n], OutcomeAt(c, actions, n)) {
        assert PendingSince(c, actions, i);
      }
      if i: nat :| i < |actions| && PendingSince(c, actions, i) {
        assert i == n || PendingSince(c, init, i);
      }
    }
  }

  lemma PendingExtends(c: Config, actions: seq<Action>)
    requires actions != []
    ensures var n := |actions| - 1;
      && (forall i: nat :: i < n ==>
            (PendingSince(c, actions, i) <==>
             PendingSince(c, actions[..n], i) && !Clears(actions[n], OutcomeAt(c, actions, n))))
      && (PendingSince(c, actions, n) <==> LossAt(c, actions, n))
  {
    hide Step, Run, Clears;
    var n := |actions| - 1;
    var init := actions[..n];
    assert forall i: nat :: i < n ==> init[..i] == actions[..i];
    assert forall i: nat :: i < n ==> OutcomeAt(c, init, i) == OutcomeAt(c, actions, i);
    forall i: nat | i < n
      ensures PendingSince(c, actions, i) <==>
              PendingSince(c, init, i) && !Clears(actions[n], OutcomeAt(c, actions, n))
    {
      assert forall j :: i < j < n ==> actions[j] == init[j];
    }
  }

  /** One step: a loss wakes the node, a clearing step puts it to rest, anything else leaves it as it was. */
  lemma StepAwake(c: Config, n: Node, a: Action)
    ensures var (after, outcome) := Step(c, n, a);
      Awake(after.mode) <==>
      || (outcome.Emitted? && outcome.signal.event == ARGUS_LOST)
      || (Awake(n.mode) && !Clears(a, outcome))
  {
    hide IsSha256, LastN;
  }

  // What each operation answers over a trace, in terms of the actions themselves.

  /** The clock reading of the last accepted heartbeat; 0 before the first. */
  function LastBeat(c: Config, actions: seq<Action>): int {
    if actions == [] then 0
    else
      var n := |actions| - 1;
      if actions[n].HeartbeatAction? && OutcomeAt(c, actions, n).Recorded? then actions[n].clock
      else LastBeat(c, actions[..n])
  }

  /** Its epoch; empty before the first. */
  function LastEpoch(c: Config, actions: seq<Action>): string {
    if actions == [] then ""
    else
      var n := |actions| - 1;
      if actions[n].HeartbeatAction? && OutcomeAt(c, actions, n).Recorded? then actions[n].input.argusEpoch
      else LastEpoch(c, actions[..n])
  }

  function NewestSequence(c: Config, actions: seq<Action>): int {
    var h := History(c, actions);
    if h == [] then 0 else h[|h| - 1].sequence
  }

  lemma {:induction false} LastBeatKept(c: Config, actions: seq<Action>)
    ensures Run(c, actions).lastHeartbeatAt == LastBeat(c, actions)
    ensures Run(c, actions).argusEpoch == LastEpoch(c, actions)
  {
    if actions != [] {
      var n := |actions| - 1;
      LastBeatKept(c, actions[..n]);
      LastStep(c, actions);
      StepBeat(c, Run(c, actions[..n]), actions[n]);
      hide Step, Run, OutcomeAt;
    }
  }

  lemma StepBeat(c: Config, n: Node, a: Action)
    ensures var (after, outcome) := Step(c, n, a);
      if a.HeartbeatAction? && outcome.Recorded? then
        after.lastHeartbeatAt == a.clock && after.argusEpoch == a.input.argusEpoch
      else
        after.lastHeartbeatAt == n.lastHeartbeatAt && after.argusEpoch == n.argusEpoch
  {
    hide IsSha256, LastN;
  }

  lemma NextOutcome(c: Config, actions: seq<Action>, a: Action)
    ensures OutcomeAt(c, actions + [a], |actions|) == Step(c, Run(c, actions), a).1
  {
    hide Step, Run;
    assert (actions + [a])[..|actions|] == actions;
  }

  /**
   * After any trace an inspection reports a loss exactly when the event is one, or it is no heartbeat and the last
   * accepted heartbeat had a positive clock reading more than the threshold ago; otherwise it reports the event.
   */
  lemma InspectionExact(c: Config, actions: seq<Action>, event: Event, now: int)
    requires c.capacity >= 3
    ensures var beat := LastBeat(c, actions);
      var loss := event == ARGUS_LOST
                  || (event != ARGUS_HEARTBEAT && beat > 0 && now - beat > c.lossThresholdMs);
      OutcomeAt(c, actions + [InspectAction(event, now)], |actions|)
      == Emitted(Signal(if loss then ARGUS_LOST else event, NewestSequence(c, actions), now, LastEpoch(c, actions)))
  {
    NextOutcome(c, actions, InspectAction(event, now));
    LastBeatKept(c, actions);
    RingIsHistorySuffix(c, actions);
    hide Run, History, LastN, LastBeat, LastEpoch;
  }

  /**
   * After any trace a heartbeat is recorded, field by field, exactly when it is well formed and new; a refusal
   * names its first defect.
   */
  lemma HeartbeatExact(c: Config, actions: seq<Action>, i: HeartbeatInput, clock: int)
    requires c.capacity >= 3
    ensures var outcome := OutcomeAt(c, actions + [HeartbeatAction(i, clock)], |actions|);
      var digest := |i.stateDigest| == 64 && IsHex(i.stateDigest);
      var isNew := i.argusEpoch != "" && i.sequence.IsInteger()
                   && i.sequence.value.Floor > NewestSequence(c, actions);
      var healthy := i.healthScore.Fin? && 0.0 <= i.healthScore.value <= 1.0;
      var manned := 1 <= |i.nodeIds| <= 256;
      && (outcome == Failed(InvalidStateDigest) <==> !digest)
      && (outcome == Failed(InvalidSequence) <==> digest && !isNew)
      && (outcome == Failed(InvalidHealthScore) <==> digest && isNew && !healthy)
      && (outcome == Failed(InvalidNodeSet) <==> digest && isNew && healthy && !manned)
      && (outcome.Recorded? <==> digest && isNew && healthy && manned)
      && (outcome.Recorded? ==>
            var cp := outcome.checkpoint;
            && cp.sequence == i.sequence.value.Floor && cp.capturedAt == i.capturedAt
            && cp.stateDigest == i.stateDigest && cp.policyVersion == i.policyVersion
            && cp.nodeIds == i.nodeIds && cp.healthScore == i.healthScore.value)
  {
    NextOutcome(c, actions, HeartbeatAction(i, clock));
    RingIsHistorySuffix(c, actions);
    hide Run, History, LastN, IsHex;
  }

  /** The settings stay within their limits and are otherwise those asked for. */
  lemma ConfigExact(checkpointCapacity: int, lossThresholdMs: int, minimumRecoveryNodes: int)
    ensures var c := NewConfig(checkpointCapacity, lossThresholdMs, minimumRecoveryNodes);
      && (checkpointCapacity <= 3 ==> c.capacity == 3) && (checkpointCapacity >= 64 ==> c.capacity == 64)
      && (3 <= checkpointCapacity <= 64 ==> c.capacity == checkpointCapacity)
      && (lossThresholdMs <= 100 ==> c.lossThresholdMs == 100)
      && (lossThresholdMs >= 30_000 ==> c.lossThresholdMs == 30_000)
      && (100 <= lossThresholdMs <= 30_000 ==> c.lossThresholdMs == lossThresholdMs)
      && (minimumRecoveryNodes <= 1 ==> c.minimumRecoveryNodes == 1)
      && (minimumRecoveryNodes >= 32 ==> c.minimumRecoveryNodes == 32)
      && (1 <= minimumRecoveryNodes <= 32 ==> c.minimumRecoveryNodes == minimumRecoveryNodes)
    ensures NewConfig() == Config(8, 1_500, 3)
  {
  }

  // The other modes.

  /** A heartbeat, and every inspection but one that reports RESTORED, ends a quarantine. */
  predicate EndsQuarantine(outcome: Outcome) {
    outcome.Recorded? || (outcome.Emitted? && outcome.signal.event != ARGUS_RESTORED)
  }

  ghost predicate QuarantinedSince(c: Config, actions: seq<Action>, i: nat)
    requires i < |actions|
  {
    actions[i].QuarantineAction? && forall j :: i < j < |actions| ==> !EndsQuarantine(OutcomeAt(c, actions, j))
  }

  ghost predicate RecoveringSince(c: Config, actions: seq<Action>, i: nat)
    requires i < |actions|
  {
    OutcomeAt(c, actions, i).Planned? && forall j :: i < j < |actions| ==> !Clears(actions[j], OutcomeAt(c, actions, j))
  }

  lemma StepModes(c: Config, n: Node, a: Action)
    ensures var (after, outcome) := Step(c, n, a);
      && (after.mode == QUARANTINED <==> a.QuarantineAction? || (n.mode == QUARANTINED && !EndsQuarantine(outcome)))
      && (after.mode == RECOVERY <==> outcome.Planned? || (n.mode == RECOVERY && !Clears(a, outcome)))
      && (after.mode == DORMANT <==>
            n.mode == DORMANT && !outcome.Recorded? && !outcome.Emitted? && !a.QuarantineAction?)
      && (outcome.Planned? ==> a.ActivateAction?) && (outcome.Recorded? ==> a.HeartbeatAction?)
      && (outcome.Emitted? ==> a.InspectAction?)
  {
    hide IsSha256, LastN;
  }

  lemma PrefixOutcome(c: Config, actions: seq<Action>, j: nat)
    requires j < |actions| - 1
    ensures var init := actions[..|actions| - 1];
      init[j] == actions[j] && OutcomeAt(c, init, j) == OutcomeAt(c, actions, j)
  {
    hide Step, Run;
    assert actions[..|actions| - 1][..j] == actions[..j];
  }

  lemma PrefixOutcomes(c: Config, actions: seq<Action>)
    requires actions != []
    ensures var n := |actions| - 1;
      && (forall j: nat :: j < n ==> actions[..n][j] == actions[j])
      && (forall j: nat :: j < n ==> OutcomeAt(c, actions[..n], j) == OutcomeAt(c, actions, j))
  {
    hide Step, Run;
    var n := |actions| - 1;
    assert forall j: nat :: j < n ==> actions[..n][..j] == actions[..j];
  }

  lemma LastModes(c: Config, actions: seq<Action>)
    requires actions != []
    ensures var n := |actions| - 1;
      var before, after, outcome := Run(c, actions[..n]).mode, Run(c, actions).mode, OutcomeAt(c, actions, n);
      && (after == QUARANTINED <==>
            actions[n].QuarantineAction? || (before == QUARANTINED && !EndsQuarantine(outcome)))
      && (after == RECOVERY <==> outcome.Planned? || (before == RECOVERY && !Clears(actions[n], outcome)))
  {
    hide *;
    LastStep(c, actions);
    StepModes(c, Run(c, actions[..|actions| - 1]), actions[|actions| - 1]);
  }

  lemma QuarantinedExtends(c: Config, actions: seq<Action>, i: nat)
    requires i < |actions|
    ensures var n := |actions| - 1;
      if i == n then QuarantinedSince(c, actions, i) <==> actions[n].QuarantineAction?
      else QuarantinedSince(c, actions, i) <==>
           QuarantinedSince(c, actions[..n], i) && !EndsQuarantine(OutcomeAt(c, actions, n))
  {
    var n := |actions| - 1;
    hide OutcomeAt, EndsQuarantine;
    if i < n {
      forall j: nat | i < j < n
        ensures actions[..n][j] == actions[j] && OutcomeAt(c, actions[..n], j) == OutcomeAt(c, actions, j)
      {
        PrefixOutcome(c, actions, j);
      }
    }
  }

  lemma RecoveringExtends(c: Config, actions: seq<Action>, i: nat)
    requires i < |actions|
    ensures var n := |actions| - 1;
      if i == n then RecoveringSince(c, actions, i) <==> OutcomeAt(c, actions, n).Planned?
      else RecoveringSince(c, actions, i) <==>
           RecoveringSince(c, actions[..n], i) && !Clears(actions[n], OutcomeAt(c, actions, n))
  {
    var n := |actions| - 1;
    hide OutcomeAt, Clears;
    if i < n {
      PrefixOutcome(c, actions, i);
      forall j: nat | i < j < n
        ensures actions[..n][j] == actions[j] && OutcomeAt(c, actions[..n], j) == OutcomeAt(c, actions, j)
      {
        PrefixOutcome(c, actions, j);
      }
    }
  }

  lemma DormantAtFirst(c: Config)
    ensures Run(c, []).mode == DORMANT
  {
  }

  /** Over every trace: quarantined exactly since a quarantine that nothing has ended. */
  lemma {:induction false} QuarantinedExact(c: Config, actions: seq<Action>)
    ensures Run(c, actions).mode == QUARANTINED <==>
            exists i: nat :: i < |actions| && QuarantinedSince(c, actions, i)
  {
    hide *;
    DormantAtFirst(c);
    if actions != [] {
      var n := |actions| - 1;
      QuarantinedExact(c, actions[..n]);
      LastModes(c, actions);
      QuarantinedExtends(c, actions, n);
      if i: nat :| i < n && QuarantinedSince(c, actions[..n], i) {
        QuarantinedExtends(c, actions, i);
      }
      if i: nat :| i < |actions| && QuarantinedSince(c, actions, i) {
        QuarantinedExtends(c, actions, i);
      }
    }
  }

  /** Over every trace: in recovery exactly since a plan after which nothing cleared the loss. */
  lemma {:induction false} RecoveringExact(c: Config, actions: seq<Action>)
    ensures Run(c, actions).mode == RECOVERY <==>
            exists i: nat :: i < |actions| && RecoveringSince(c, actions, i)
  {
    hide *;
    DormantAtFirst(c);
    if actions != [] {
      var n := |actions| - 1;
      RecoveringExact(c, actions[..n]);
      LastModes(c, actions);
      RecoveringExtends(c, actions, n);
      if i: nat :| i < n && RecoveringSince(c, actions[..n], i) {
        RecoveringExtends(c, actions, i);
      }
      if i: nat :| i < |actions| && RecoveringSince(c, actions, i) {
        RecoveringExtends(c, actions, i);
      }
    }
  }

  /** Over every trace: dormant exactly while no heartbeat was recorded, nothing was inspected and no quarantine set. */
  lemma {:induction false} DormantExact(c: Config, actions: seq<Action>)
    ensures Run(c, actions).mode == DORMANT <==>
            forall j: nat :: j < |actions| ==>
              !OutcomeAt(c, actions, j).Recorded? && !actions[j].InspectAction? && !actions[j].QuarantineAction?
  {
    if actions != [] {
      var n := |actions| - 1;
      DormantExact(c, actions[..n]);
      PrefixOutcomes(c, actions);
      LastStep(c, actions);
      StepModes(c, Run(c, actions[..n]), actions[n]);
      InspectEmits(c, Run(c, actions[..n]), actions[n]);
      hide Step, Run, OutcomeAt;
    }
  }

  lemma InspectEmits(c: Config, n: Node, a: Action)
    ensures a.InspectAction? ==> Step(c, n, a).1.Emitted?
  {
  }

  /** Every recovery plan in a run is preceded by a loss report that nothing has cleared since. */
  lemma PlanFollowsLoss(c: Config, actions: seq<Action>, k: nat)
    requires k < |actions| && OutcomeAt(c, actions, k).Planned?
    ensures exists i: nat :: i < k && LossAt(c, actions, i)
              && forall j :: i < j < k ==> !Clears(actions[j], OutcomeAt(c, actions, j))
  {
    var past := actions[..k];
    AwakeExactlyAfterLoss(c, past);
    assert Awake(Run(c, past).mode);
    var i: nat :| i < k && PendingSince(c, past, i);
    hide Step, Run, Clears;
    assert forall j: nat :: j < k ==> past[..j] == actions[..j];
    assert forall j: nat :: j < k ==> OutcomeAt(c, past, j) == OutcomeAt(c, actions, j);
    assert forall j :: i < j < k ==> past[j] == actions[j];
    assert LossAt(c, actions, i);
  }
}
