/** The behavioural sentinel: four bounded baselines and a weighted anomaly score. */
module BehavioralSentinel {
  import opened Collections
  import opened JsNumbers
  import opened OrderStatistics

  datatype Observation = Observation(
    latencyMs: Num, riskScore: Num, vetoed: bool, policyVersion: string,
    sequence: Num, decisionDigest: string, timestamp: Num)

  datatype AionState = LEARNING | NORMAL | SUSPICIOUS | CRITICAL
  datatype Assessment = Assessment(state: AionState, anomalyScore: real, reasons: seq<string>, baselineSize: nat)
  datatype Config = Config(maxBaseline: nat, minimumSamples: nat)

  datatype Baseline = Baseline(
    latency: seq<real>, risk: seq<real>, veto: seq<real>, policyVersions: seq<string>,
    lastSequence: Num, lastTimestamp: Num)

  datatype DeviationSet = DeviationSet(latency: real, risk: real, veto: real, policy: real)

  function NewConfig(baselineWindow: int := 128, minimumSamples: int := 4): Config {
    Config(if baselineWindow > 4 then baselineWindow else 4, if minimumSamples > 1 then minimumSamples else 1)
  }

  const INITIAL := Baseline([], [], [], [], Fin(-1.0), Fin(0.0))

  predicate IsDigest(s: string) {
    32 <= |s| <= 128
    && forall i :: 0 <= i < |s| ==> '0' <= s[i] <= '9' || 'a' <= s[i] <= 'f' || 'A' <= s[i] <= 'F'
  }

  predicate ValidObservation(o: Observation) {
    && o.latencyMs.IsFinite() && o.latencyMs.value >= 0.0
    && o.riskScore.IsFinite() && 0.0 <= o.riskScore.value <= 1.0
    && o.sequence.IsSafeInteger() && o.sequence.value >= 0.0
    && IsDigest(o.decisionDigest)
    && 0 < |o.policyVersion| <= 64
  }

  /** An observation that updates the baselines. */
  predicate Accepts(b: Baseline, o: Observation) {
    ValidObservation(o) && !o.sequence.Le(b.lastSequence) && !o.timestamp.Lt(b.lastTimestamp)
  }

  function VetoValue(o: Observation): real {
    if o.vetoed then 1.0 else 0.0
  }

  function DeviationsOf(b: Baseline, o: Observation): (d: DeviationSet)
    requires ValidObservation(o)
    ensures 0.0 <= d.latency <= 1.0 && 0.0 <= d.risk <= 1.0 && 0.0 <= d.veto <= 1.0 && 0.0 <= d.policy <= 1.0
  {
    DeviationSet(
      RobustDeviation(o.latencyMs.value, b.latency),
      RobustDeviation(o.riskScore.value, b.risk),
      RobustDeviation(VetoValue(o), b.veto),
      if |b.policyVersions| > 0 && o.policyVersion !in b.policyVersions then 1.0 else 0.0)
  }

  function WeightedSum(d: DeviationSet): real {
    d.latency * 0.34 + d.risk * 0.31 + d.veto * 0.25 + d.policy * 0.1
  }

  function Reasons(d: DeviationSet): seq<string> {
    (if d.latency >= 0.5 then ["latency_deviation"] else [])
    + (if d.risk >= 0.5 then ["risk_deviation"] else [])
    + (if d.veto >= 0.5 then ["veto_deviation"] else [])
    + (if d.policy >= 0.5 then ["policy_deviation"] else [])
  }

  function Push<T>(values: seq<T>, value: T, max: nat): seq<T> {
    var longer := values + [value];
    if |longer| > max then longer[1..] else longer
  }

  function Updated(c: Config, b: Baseline, o: Observation): Baseline
    requires ValidObservation(o)
  {
    Baseline(
      Push(b.latency, o.latencyMs.value, c.maxBaseline),
      Push(b.risk, o.riskScore.value, c.maxBaseline),
      Push(b.veto, VetoValue(o), c.maxBaseline),
      Push(b.policyVersions, o.policyVersion, c.maxBaseline),
      o.sequence, o.timestamp)
  }

  function Step(c: Config, b: Baseline, o: Observation): Baseline {
    if Accepts(b, o) then Updated(c, b, o) else b
  }

  /** The state of an accepted observation: by sample count, then by unclamped score. */
  function StateOf(c: Config, b: Baseline, o: Observation): AionState
    requires ValidObservation(o)
  {
    var score := WeightedSum(DeviationsOf(b, o));
    if |b.latency| < c.minimumSamples then LEARNING
    else if score >= 0.8 then CRITICAL
    else if score >= 0.45 then SUSPICIOUS
    else NORMAL
  }

  class Sentinel {
    const config: Config
    var latency: seq<real>
    var risk: seq<real>
    var veto: seq<real>
    var policyVersions: seq<string>
    var lastSequence: Num
    var lastTimestamp: Num

    function State(): Baseline
      reads this
    {
      Baseline(latency, risk, veto, policyVersions, lastSequence, lastTimestamp)
    }

    constructor (baselineWindow: int := 128, minimumSamples: int := 4)
      ensures State() == INITIAL && config == NewConfig(baselineWindow, minimumSamples)
    {
      config := NewConfig(baselineWindow, minimumSamples);
      latency, risk, veto, policyVersions := [], [], [], [];
      lastSequence, lastTimestamp := Fin(-1.0), Fin(0.0);
    }

    method Observe(o: Observation) returns (a: Assessment)
      modifies this
      ensures State() == Step(config, old(State()), o)
      ensures a.baselineSize == |latency|
      ensures !ValidObservation(o) ==>
                a.state == CRITICAL && a.anomalyScore == 1.0 && a.reasons == ["invalid_observation"]
      ensures ValidObservation(o) && !Accepts(old(State()), o) ==>
                a.state == CRITICAL && a.anomalyScore == 1.0 && a.reasons == ["sequence_or_time_regression"]
      ensures Accepts(old(State()), o) ==>
                && a.state == StateOf(config, old(State()), o)
                && a.anomalyScore == WeightedSum(DeviationsOf(old(State()), o))
                && a.reasons == Reasons(DeviationsOf(old(State()), o))
    {
      hide RobustDeviation, Push, IsDigest, Reasons;
      if !ValidObservation(o) {
        return Assessment(CRITICAL, 1.0, ["invalid_observation"], |latency|);
      }
      if o.sequence.Le(lastSequence) || o.timestamp.Lt(lastTimestamp) {
        return Assessment(CRITICAL, 1.0, ["sequence_or_time_regression"], |latency|);
      }
      var d := DeviationsOf(State(), o);
      var score := Clamp(WeightedSum(d), 0.0, 1.0);
      ScoreNeedsNoClamp(d);
      var reasons := Reasons(d);
      var state := if |latency| < config.minimumSamples then LEARNING
                   else if score >= 0.8 then CRITICAL
                   else if score >= 0.45 then SUSPICIOUS
                   else NORMAL;
      lastSequence := o.sequence;
      lastTimestamp := o.timestamp;
      latency := Push(latency, o.latencyMs.value, config.maxBaseline);
      risk := Push(risk, o.riskScore.value, config.maxBaseline);
      veto := Push(veto, VetoValue(o), config.maxBaseline);
      policyVersions := Push(policyVersions, o.policyVersion, config.maxBaseline);
      return Assessment(state, score, reasons, |latency|);
    }
  }

  // Scores.

  /** The weighted score already lies in [0, 1]. */
  lemma ScoreNeedsNoClamp(d: DeviationSet)
    requires 0.0 <= d.latency <= 1.0 && 0.0 <= d.risk <= 1.0 && 0.0 <= d.veto <= 1.0 && 0.0 <= d.policy <= 1.0
    ensures 0.0 <= WeightedSum(d) <= 1.0 && Clamp(WeightedSum(d), 0.0, 1.0) == WeightedSum(d)
  {
  }

  /**
   * A score-based CRITICAL needs latency, risk and veto to deviate all three, and a SUSPICIOUS
   * at least two of them: a new policy version never tips the balance alone.
   */
  lemma ThresholdsNeedSignals(c: Config, b: Baseline, o: Observation)
    requires ValidObservation(o)
    ensures var d := DeviationsOf(b, o);
      && (StateOf(c, b, o) == CRITICAL ==> d.latency > 0.0 && d.risk > 0.0 && d.veto > 0.0)
      && (StateOf(c, b, o) == SUSPICIOUS ==>
            (d.latency > 0.0 && d.risk > 0.0) || (d.latency > 0.0 && d.veto > 0.0) || (d.risk > 0.0 && d.veto > 0.0))
  {
    hide RobustDeviation;
  }

  // Whole runs.

  function Run(c: Config, os: seq<Observation>): Baseline {
    if os == [] then INITIAL else Step(c, Run(c, os[..|os| - 1]), os[|os| - 1])
  }

  /** The accepted observations of a run, oldest first. */
  function Accepted(c: Config, os: seq<Observation>): (r: seq<Observation>)
    ensures forall i :: 0 <= i < |r| ==> ValidObservation(r[i])
  {
    if os == [] then []
    else
      var init, o := os[..|os| - 1], os[|os| - 1];
      if Accepts(Run(c, init), o) then Accepted(c, init) + [o] else Accepted(c, init)
  }

  function Latencies(os: seq<Observation>): (r: seq<real>)
    ensures |r| == |os|
  {
    seq(|os|, i requires 0 <= i < |os| => os[i].latencyMs.OrZero())
  }

  function Risks(os: seq<Observation>): (r: seq<real>)
    ensures |r| == |os|
  {
    seq(|os|, i requires 0 <= i < |os| => os[i].riskScore.OrZero())
  }

  function Vetoes(os: seq<Observation>): (r: seq<real>)
    ensures |r| == |os|
  {
    seq(|os|, i requires 0 <= i < |os| => VetoValue(os[i]))
  }

  function Versions(os: seq<Observation>): (r: seq<string>)
    ensures |r| == |os|
  {
    seq(|os|, i requires 0 <= i < |os| => os[i].policyVersion)
  }

  lemma PushIsLastN<T>(s: seq<T>, x: T, n: nat)
    requires n > 0
    ensures Push(LastN(s, n), x, n) == LastN(s + [x], n)
  {
    LastNAppend(s, x, n);
  }

  /** After any run the four baselines are the same last min(n, max) accepted observations. */
  lemma {:induction false} WindowsAreSuffixes(c: Config, os: seq<Observation>)
    requires c.maxBaseline > 0
    ensures var seen, b, n := Accepted(c, os), Run(c, os), c.maxBaseline;
      && b.latency == LastN(Latencies(seen), n) && b.risk == LastN(Risks(seen), n)
      && b.veto == LastN(Vetoes(seen), n) && b.policyVersions == LastN(Versions(seen), n)
      && (seen != [] ==> b.lastSequence == seen[|seen| - 1].sequence && b.lastTimestamp == seen[|seen| - 1].timestamp)
      && (seen == [] ==> b == INITIAL)
  {
    hide Push, LastN, Accepts;
    if os != [] {
      var init, o, n := os[..|os| - 1], os[|os| - 1], c.maxBaseline;
      WindowsAreSuffixes(c, init);
      var seen := Accepted(c, init);
      if Accepts(Run(c, init), o) {
        assert ValidObservation(o) by { AcceptedValid(Run(c, init), o); }
        PushIsLastN(Latencies(seen), o.latencyMs.value, n);
        PushIsLastN(Risks(seen), o.riskScore.value, n);
        PushIsLastN(Vetoes(seen), VetoValue(o), n);
        PushIsLastN(Versions(seen), o.policyVersion, n);
        assert Latencies(seen + [o]) == Latencies(seen) + [o.latencyMs.value];
        assert Risks(seen + [o]) == Risks(seen) + [o.riskScore.value];
        assert Vetoes(seen + [o]) == Vetoes(seen) + [VetoValue(o)];
        assert Versions(seen + [o]) == Versions(seen) + [o.policyVersion];
      }
    }
  }

  lemma AcceptedValid(b: Baseline, o: Observation)
    ensures Accepts(b, o) ==> ValidObservation(o)
  {
  }

  /** An accepted observation is judged LEARNING exactly while too few came before it, or the window is too small. */
  lemma LearningExact(c: Config, os: seq<Observation>, o: Observation)
    requires c.maxBaseline > 0 && Accepts(Run(c, os), o)
    ensures StateOf(c, Run(c, os), o) == LEARNING <==>
            |Accepted(c, os)| < c.minimumSamples || c.maxBaseline < c.minimumSamples
  {
    hide Run, Accepted, DeviationsOf, WeightedSum;
    WindowsAreSuffixes(c, os);
  }

  /**
   * The assessment of an accepted observation, over everything accepted before: each measure is held against the
   * newest of its own kind, the deviations are weighted 34, 31, 25 and 10, and the thresholds are 0.8 and 0.45.
   */
  lemma AssessmentExact(c: Config, os: seq<Observation>, o: Observation)
    requires c.maxBaseline > 0 && Accepts(Run(c, os), o)
    ensures var seen, n, d := Accepted(c, os), c.maxBaseline, DeviationsOf(Run(c, os), o);
      var known := exists i :: 0 <= i < |seen| && |seen| - n <= i && seen[i].policyVersion == o.policyVersion;
      && d.latency == RobustDeviation(o.latencyMs.value, LastN(Latencies(seen), n))
      && d.risk == RobustDeviation(o.riskScore.value, LastN(Risks(seen), n))
      && d.veto == RobustDeviation(if o.vetoed then 1.0 else 0.0, LastN(Vetoes(seen), n))
      && d.policy == (if seen != [] && !known then 1.0 else 0.0)
      && WeightedSum(d) == 0.34 * d.latency + 0.31 * d.risk + 0.25 * d.veto + 0.1 * d.policy
      && var samples := if |seen| < n then |seen| else n;
      && StateOf(c, Run(c, os), o)
         == (if samples < c.minimumSamples then LEARNING
             else if WeightedSum(d) >= 0.8 then CRITICAL
             else if WeightedSum(d) >= 0.45 then SUSPICIOUS
             else NORMAL)
      && Reasons(d) == (if d.latency >= 0.5 then ["latency_deviation"] else [])
                       + (if d.risk >= 0.5 then ["risk_deviation"] else [])
                       + (if d.veto >= 0.5 then ["veto_deviation"] else [])
                       + (if d.policy >= 0.5 then ["policy_deviation"] else [])
  {
    hide Run, Accepted, RobustDeviation, Latencies, Risks, Vetoes;
    WindowsAreSuffixes(c, os);
    var seen, n := Accepted(c, os), c.maxBaseline;
    assert ValidObservation(o) by { AcceptedValid(Run(c, os), o); }
    hide Accepts, ValidObservation;
    KnownVersion(seen, n, o.policyVersion);
  }

  lemma KnownVersion(seen: seq<Observation>, n: nat, version: string)
    ensures version in LastN(Versions(seen), n) <==>
            exists i :: 0 <= i < |seen| && |seen| - n <= i && seen[i].policyVersion == version
  {
    var last := LastN(Versions(seen), n);
    var from := |seen| - |last|;
    assert forall i :: from <= i < |seen| ==> last[i - from] == seen[i].policyVersion;
    if version in last {
      var k :| 0 <= k < |last| && last[k] == version;
      assert seen[from + k].policyVersion == version;
    }
    if i :| 0 <= i < |seen| && |seen| - n <= i && seen[i].policyVersion == version {
      assert last[i - from] == version;
    }
  }

  /** The measures of the accepted observations, one by one. */
  lemma MeasuresExact(seen: seq<Observation>, i: nat)
    requires i < |seen| && ValidObservation(seen[i])
    ensures Latencies(seen)[i] == seen[i].latencyMs.value && Risks(seen)[i] == seen[i].riskScore.value
    ensures Vetoes(seen)[i] == if seen[i].vetoed then 1.0 else 0.0
  {
  }

  /** The window holds at least four observations, and learning takes at least one. */
  lemma ConfigExact(baselineWindow: int, minimumSamples: int)
    ensures var c := NewConfig(baselineWindow, minimumSamples);
      && (baselineWindow <= 4 ==> c.maxBaseline == 4) && (baselineWindow >= 4 ==> c.maxBaseline == baselineWindow)
      && (minimumSamples <= 1 ==> c.minimumSamples == 1) && (minimumSamples >= 1 ==> c.minimumSamples == minimumSamples)
    ensures NewConfig() == Config(128, 4)
  {
  }

  // Sequence and time.

  /** The newest accepted timestamp and sequence number; before the first, what the sentinel starts from. */
  function NewestTime(c: Config, os: seq<Observation>): Num {
    var seen := Accepted(c, os);
    if seen == [] then Fin(0.0) else seen[|seen| - 1].timestamp
  }

  function NewestSequence(c: Config, os: seq<Observation>): real {
    var seen := Accepted(c, os);
    if seen == [] then -1.0 else seen[|seen| - 1].sequence.OrZero()
  }

  lemma AcceptedFrom(c: Config, os: seq<Observation>, p: Observation)
    requires c.maxBaseline > 0
    ensures Accepts(Run(c, os), p) <==>
            && ValidObservation(p) && p.sequence.OrZero() > NewestSequence(c, os)
            && !p.timestamp.Lt(NewestTime(c, os))
  {
    hide Run, Accepted, Latencies, Risks, Vetoes, Versions, IsDigest;
    WindowsAreSuffixes(c, os);
    var seen := Accepted(c, os);
    if seen != [] {
      assert ValidObservation(seen[|seen| - 1]);
    }
  }

  /** In every run an observation is accepted exactly when it is well formed, new in sequence, and not earlier. */
  lemma AcceptedExact(c: Config, os: seq<Observation>, p: Observation)
    requires c.maxBaseline > 0
    ensures Accepts(Run(c, os), p) <==>
      && p.latencyMs.Fin? && 0.0 <= p.latencyMs.value
      && p.riskScore.Fin? && 0.0 <= p.riskScore.value <= 1.0
      && p.sequence.Fin? && p.sequence.value == p.sequence.value.Floor as real
      && NewestSequence(c, os) < p.sequence.value <= 9007199254740991.0
      && 32 <= |p.decisionDigest| <= 128
      && (forall i :: 0 <= i < |p.decisionDigest| ==>
            var ch := p.decisionDigest[i]; '0' <= ch <= '9' || 'a' <= ch <= 'f' || 'A' <= ch <= 'F')
      && 1 <= |p.policyVersion| <= 64
      && !p.timestamp.Lt(NewestTime(c, os))
  {
    AcceptedFrom(c, os, p);
    NewestInRange(c, os);
    hide Run, NewestSequence, NewestTime;
  }

  /** Accepted sequence numbers strictly increase; timestamps never fall across a stretch without NaN. */
  lemma {:induction false} AcceptedInOrder(c: Config, os: seq<Observation>)
    requires c.maxBaseline > 0
    ensures var seen := Accepted(c, os);
      forall i, j :: 0 <= i < j < |seen| ==>
        && seen[i].sequence.Lt(seen[j].sequence)
        && ((forall k :: i <= k <= j ==> seen[k].timestamp != NaN) ==> seen[i].timestamp.Le(seen[j].timestamp))
  {
    if os != [] {
      var init, o := os[..|os| - 1], os[|os| - 1];
      AcceptedInOrder(c, init);
      WindowsAreSuffixes(c, init);
      var before := Accepted(c, init);
      if Accepts(Run(c, init), o) && before != [] {
        hide Run, Accepted, Accepts, Latencies, Risks, Vetoes, Versions;
        AcceptedAfter(c, Run(c, init), o);
        ExtendsOrder(before, o);
      }
    }
  }

  lemma AcceptedAfter(c: Config, b: Baseline, o: Observation)
    requires Accepts(b, o)
    ensures !o.sequence.Le(b.lastSequence) && !o.timestamp.Lt(b.lastTimestamp) && o.sequence.Fin?
  {
  }

  lemma LeTransitive(x: Num, y: Num, z: Num)
    requires x.Le(y) && !z.Lt(y) && z != NaN
    ensures x.Le(z)
  {
  }

  lemma ExtendsOrder(before: seq<Observation>, o: Observation)
    requires before != [] && forall i :: 0 <= i < |before| ==> before[i].sequence.Fin?
    requires o.sequence.Fin? && !o.sequence.Le(before[|before| - 1].sequence)
    requires !o.timestamp.Lt(before[|before| - 1].timestamp)
    requires forall i, j :: 0 <= i < j < |before| ==>
        && before[i].sequence.Lt(before[j].sequence)
        && ((forall k :: i <= k <= j ==> before[k].timestamp != NaN) ==> before[i].timestamp.Le(before[j].timestamp))
    ensures var seen := before + [o];
      forall i, j :: 0 <= i < j < |seen| ==>
        && seen[i].sequence.Lt(seen[j].sequence)
        && ((forall k :: i <= k <= j ==> seen[k].timestamp != NaN) ==> seen[i].timestamp.Le(seen[j].timestamp))
  {
    var seen, n := before + [o], |before|;
    var last := before[n - 1];
    forall i, j | 0 <= i < j < |seen|
      ensures seen[i].sequence.Lt(seen[j].sequence)
      ensures (forall k :: i <= k <= j ==> seen[k].timestamp != NaN) ==> seen[i].timestamp.Le(seen[j].timestamp)
    {
      if j == n && i < n - 1 {
        assert before[i].sequence.Lt(last.sequence);
      }
      if forall k :: i <= k <= j ==> seen[k].timestamp != NaN {
        assert forall k :: i <= k <= j && k < n ==> before[k].timestamp == seen[k].timestamp;
        if j == n {
          assert seen[n].timestamp != NaN && seen[n - 1].timestamp != NaN;
          assert before[i].timestamp.Le(last.timestamp);
          LeTransitive(before[i].timestamp, last.timestamp, o.timestamp);
        }
      }
    }
  }

  /** Whatever came before, one accepted NaN timestamp disarms the check: the next may carry any timestamp. */
  lemma NaNTimestampDisarms(c: Config, os: seq<Observation>, o: Observation, p: Observation)
    requires Accepts(Run(c, os), o) && o.timestamp == NaN
    ensures Accepts(Run(c, os + [o]), p) <==> ValidObservation(p) && o.sequence.Lt(p.sequence)
  {
    hide Run, Accepted, Push, IsDigest;
    RunAppend(c, os, o);
  }

  /** Every valid observation with a new sequence number is accepted, whatever its timestamp. */
  ghost predicate AnyTimeAccepted(c: Config, os: seq<Observation>) {
    forall p :: ValidObservation(p) && p.sequence.OrZero() > NewestSequence(c, os) ==> Accepts(Run(c, os), p)
  }

  function Sample(sequence: nat, timestamp: Num): Observation {
    Observation(Fin(1.0), Fin(0.0), false, "v1", Fin(sequence as real), seq(32, _ => '0'), timestamp)
  }

  lemma SampleValid(sequence: nat, timestamp: Num)
    requires sequence <= 9007199254740991
    ensures ValidObservation(Sample(sequence, timestamp))
  {
  }

  /**
   * The next observation may carry any timestamp exactly when the newest accepted one is NaN or -Infinity, or
   * the sequence numbers are used up.
   */
  lemma AnyTimeExact(c: Config, os: seq<Observation>)
    requires c.maxBaseline > 0
    ensures AnyTimeAccepted(c, os) <==>
            NewestTime(c, os) == NaN || NewestTime(c, os) == NegInf || NewestSequence(c, os) == 9007199254740991.0
  {
    NewestInRange(c, os);
    hide Run, Accepted, Accepts, ValidObservation, NewestTime, NewestSequence, Sample;
    var sequence := NewestSequence(c, os);
    forall p
      ensures Accepts(Run(c, os), p) <==>
              ValidObservation(p) && p.sequence.OrZero() > sequence && !p.timestamp.Lt(NewestTime(c, os))
    {
      AcceptedFrom(c, os, p);
    }
    forall p | ValidObservation(p)
      ensures p.sequence.OrZero() <= 9007199254740991.0
    {
      ValidSequence(p);
    }
    if sequence < 9007199254740991.0 {
      var next := Sample(sequence.Floor + 1, NegInf);
      SampleValid(sequence.Floor + 1, NegInf);
      SampleParts(sequence.Floor + 1, NegInf);
      assert next.sequence.OrZero() > sequence && next.timestamp == NegInf;
    }
  }

  lemma SampleParts(sequence: nat, timestamp: Num)
    ensures Sample(sequence, timestamp).sequence == Fin(sequence as real)
    ensures Sample(sequence, timestamp).timestamp == timestamp
  {
  }

  lemma ValidSequence(p: Observation)
    requires ValidObservation(p)
    ensures p.sequence.OrZero() <= 9007199254740991.0
  {
  }

  lemma NewestInRange(c: Config, os: seq<Observation>)
    ensures NewestSequence(c, os) == NewestSequence(c, os).Floor as real
    ensures -1.0 <= NewestSequence(c, os) <= 9007199254740991.0
  {
    hide Accepted, IsDigest;
    var seen := Accepted(c, os);
    if seen != [] {
      assert ValidObservation(seen[|seen| - 1]);
    }
  }

  /** Until a NaN has been accepted the check is armed: no accepted timestamp is negative or -Infinity. */
  lemma {:induction false} ArmedUntilNaN(c: Config, os: seq<Observation>)
    requires c.maxBaseline > 0 && forall i :: 0 <= i < |Accepted(c, os)| ==> Accepted(c, os)[i].timestamp != NaN
    ensures Fin(0.0).Le(NewestTime(c, os))
  {
    if os != [] {
      var init, o := os[..|os| - 1], os[|os| - 1];
      var before := Accepted(c, init);
      RunAppend(c, init, o);
      assert init + [o] == os;
      assert forall i :: 0 <= i < |before| ==> before[i] == Accepted(c, os)[i];
      hide Run, Accepts, Accepted;
      ArmedUntilNaN(c, init);
      AcceptedFrom(c, init, o);
      if Accepts(Run(c, init), o) {
        assert Accepted(c, os)[|before|] == o;
        LeTransitive(Fin(0.0), NewestTime(c, init), o.timestamp);
      }
    }
  }

  /** So the timestamps 100, NaN, 50 are accepted in this order. */
  lemma TimeCanRunBackwards(c: Config)
    ensures var os := [] + [Sample(1, Fin(100.0))] + [Sample(2, NaN)] + [Sample(3, Fin(50.0))];
      Accepted(c, os) == os
  {
    hide Run, Accepted, ValidObservation, Push;
    var first, second, third := Sample(1, Fin(100.0)), Sample(2, NaN), Sample(3, Fin(50.0));
    SampleValid(1, Fin(100.0));
    SampleValid(2, NaN);
    SampleValid(3, Fin(50.0));
    RunAppend(c, [], first);
    RunAppend(c, [] + [first], second);
    NaNTimestampDisarms(c, [] + [first], second, third);
    RunAppend(c, [] + [first] + [second], third);
  }

  lemma RunAppend(c: Config, os: seq<Observation>, o: Observation)
    ensures Run(c, os + [o]) == Step(c, Run(c, os), o)
    ensures Accepted(c, os + [o]) == if Accepts(Run(c, os), o) then Accepted(c, os) + [o] else Accepted(c, os)
    ensures Run(c, []) == INITIAL && Accepted(c, []) == []
  {
    hide Accepts, Step;
    assert (os + [o])[..|os|] == os;
  }
}
