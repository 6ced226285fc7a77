/** Noisy-or scoring of semantic findings, with the actor's history on top. */
module AegisScoring {
  import opened Collections
  import opened JsNumbers
  import opened Options

  const DENY_THRESHOLD := 0.8
  const FLAG_THRESHOLD := 0.45

  datatype Verdict = Allow | Flag | Deny
  datatype Finding = Finding(detector: string, signal: string, weight: real)
  datatype ActorStats = ActorStats(blockedCount: real, requestsLastMinute: real)

  function Unit(w: real): (u: real)
    ensures 0.0 <= u <= 1.0
  {
    Min(Max(w, 0.0), 1.0)
  }

  /** The factor a weight contributes. */
  function Miss(w: real): (m: real)
    ensures 0.0 <= m <= 1.0
  {
    1.0 - Unit(w)
  }

  /** The probability that no independent signal fires. */
  function Complement(weights: seq<real>): (c: real)
    ensures 0.0 <= c <= 1.0
  {
    if weights == [] then 1.0
    else
      var rest := Complement(weights[1..]);
      ShrinkProduct(Miss(weights[0]), rest);
      Miss(weights[0]) * rest
  }

  function Combined(weights: seq<real>): real {
    1.0 - Complement(weights)
  }

  lemma ShrinkProduct(a: real, b: real)
    requires 0.0 <= a <= 1.0 && 0.0 <= b <= 1.0
    ensures 0.0 <= a * b <= a && a * b <= b
  {
  }

  method CombineScores(weights: seq<real>) returns (score: real)
    ensures score == Combined(weights)
  {
    hide Complement;
    var complement := 1.0;
    assert weights[0..] == weights;
    for i := 0 to |weights|
      invariant complement * Complement(weights[i..]) == Complement(weights)
    {
      var clamped := Min(Max(weights[i], 0.0), 1.0);
      NextFactor(weights, i);
      Regroup(complement, 1.0 - clamped, Complement(weights[i + 1..]));
      complement := complement * (1.0 - clamped);
    }
    ComplementEmpty();
    assert weights[|weights|..] == [];
    return 1.0 - complement;
  }

  lemma NextFactor(weights: seq<real>, i: nat)
    requires i < |weights|
    ensures Complement(weights[i..]) == (1.0 - Unit(weights[i])) * Complement(weights[i + 1..])
  {
    assert weights[i..][1..] == weights[i + 1..];
  }

  lemma Regroup(a: real, b: real, c: real)
    ensures a * (b * c) == (a * b) * c == b * (a * c)
  {
  }

  // Order, range and monotonicity of the combination.

  lemma {:induction false} TakeOut(s: seq<real>, i: nat)
    requires i < |s|
    ensures Complement(s) == Miss(s[i]) * Complement(s[..i] + s[i + 1..])
  {
    hide *;
    ComplementHead(s);
    if i == 0 {
      assert s[..0] + s[1..] == s[1..];
    } else {
      TakeOut(s[1..], i - 1);
      TailTakeOut(s, i);
      ComplementHead(s[..i] + s[i + 1..]);
      Regroup(Miss(s[0]), Miss(s[i]), Complement(s[1..][..i - 1] + s[1..][i..]));
    }
  }

  lemma ComplementHead(s: seq<real>)
    requires s != []
    ensures Complement(s) == Miss(s[0]) * Complement(s[1..])
  {
    hide Miss;
  }

  lemma RemoveAt<T>(s: seq<T>, i: nat)
    requires i < |s|
    ensures multiset(s) == multiset{s[i]} + multiset(s[..i] + s[i + 1..])
  {
    assert s == s[..i] + [s[i]] + s[i + 1..];
  }

  /** More weights, in any order, never lower the combined score. */
  lemma {:induction false} MoreWeightsScoreHigher(a: seq<real>, b: seq<real>)
    requires multiset(a) <= multiset(b)
    ensures Combined(a) <= Combined(b)
    decreases |a|
  {
    hide Complement;
    if a == [] {
      ComplementEmpty();
    } else {
      assert a == [a[0]] + a[1..];
      assert a[0] in multiset(a) && a[0] in multiset(b);
      var i :| 0 <= i < |b| && b[i] == a[0];
      var rest := b[..i] + b[i + 1..];
      RemoveAt(b, i);
      CancelInclusion(a[0], multiset(a[1..]), multiset(rest));
      MoreWeightsScoreHigher(a[1..], rest);
      SameHead(a, b, i);
    }
  }

  lemma ComplementEmpty()
    ensures Complement([]) == 1.0
  {
  }

  lemma SameHead(a: seq<real>, b: seq<real>, i: nat)
    requires a != [] && i < |b| && b[i] == a[0]
    requires Complement(b[..i] + b[i + 1..]) <= Complement(a[1..])
    ensures Complement(b) <= Complement(a)
  {
    hide *;
    TakeOut(a, 0);
    assert a[..0] + a[1..] == a[1..];
    TakeOut(b, i);
    ScaledOrder(Miss(a[0]), Complement(b[..i] + b[i + 1..]), Complement(a[1..]), Complement(b), Complement(a));
  }

  lemma ScaleOrder(f: real, x: real, y: real)
    requires f >= 0.0 && x <= y
    ensures f * x <= f * y
  {
  }

  lemma ScaledOrder(f: real, x: real, y: real, fx: real, fy: real)
    requires f >= 0.0 && x <= y && fx == f * x && fy == f * y
    ensures fx <= fy
  {
  }

  /** The combined score does not depend on the order of the weights. */
  lemma CombinedIgnoresOrder(a: seq<real>, b: seq<real>)
    requires multiset(a) == multiset(b)
    ensures Combined(a) == Combined(b)
  {
    MoreWeightsScoreHigher(a, b);
    MoreWeightsScoreHigher(b, a);
  }

  lemma ComplementBound(weights: seq<real>, i: nat)
    requires i < |weights|
    ensures Complement(weights) <= Miss(weights[i])
  {
    hide Miss, Complement;
    TakeOut(weights, i);
    var m, c := Miss(weights[i]), Complement(weights[..i] + weights[i + 1..]);
    assert Complement(weights) == m * c;
    ShrinkProduct(m, c);
    assert m * c <= m;
  }

  /** It lies in [0, 1] and is at least every clamped weight. */
  lemma CombinedBounds(weights: seq<real>, i: nat)
    requires i < |weights|
    ensures Unit(weights[i]) <= Combined(weights) <= 1.0
  {
    hide Complement;
    ComplementBound(weights, i);
  }

  // Scoring.

  function Weights(findings: seq<Finding>): (r: seq<real>)
    ensures |r| == |findings|
  {
    if findings == [] then [] else [findings[0].weight] + Weights(findings[1..])
  }

  /** The two structural signals: imperative density and an oversized message. */
  function Structural(density: real, length: nat): seq<real> {
    (if density >= 0.5 then [0.35] else []) + (if length > 6000 then [0.25] else [])
  }

  /** The score before the final clause that resets it. */
  function RawScore(findings: seq<Finding>, density: real, length: nat, stats: ActorStats): real {
    var base := Combined(Weights(findings) + Structural(density, length));
    var boosted :=
      if stats.blockedCount >= 2.0 then Min(base * 1.3, 1.0)
      else if stats.blockedCount == 1.0 then Min(base * 1.1, 1.0)
      else base;
    if stats.requestsLastMinute > 20.0 then Min(boosted + 0.15, 1.0) else boosted
  }

  function VerdictOf(score: real): Verdict {
    if score >= DENY_THRESHOLD then Deny else if score >= FLAG_THRESHOLD then Flag else Allow
  }

  /** `density` is the imperative density of the input and `length` its size in characters. */
  method ScoreBehavior(findings: seq<Finding>, density: real, length: nat, stats: ActorStats)
    returns (score: real, verdict: Verdict)
    ensures score == RawScore(findings, density, length, stats) && verdict == VerdictOf(score)
  {
    var weights := Weights(findings);
    if density >= 0.5 {
      weights := weights + [0.35];
    }
    if length > 6000 {
      weights := weights + [0.25];
    }
    assert weights == Weights(findings) + Structural(density, length);
    score := CombineScores(weights);
    var blocked := stats.blockedCount;
    if blocked >= 2.0 {
      score := Min(score * 1.3, 1.0);
    } else if blocked == 1.0 {
      score := Min(score * 1.1, 1.0);
    }
    var rpm := stats.requestsLastMinute;
    if rpm > 20.0 {
      score := Min(score + 0.15, 1.0);
    }
    if |findings| == 0 && blocked == 0.0 && rpm <= 20.0 && density < 0.5 && length <= 6000 {
      ZeroingChangesNothing(findings, density, length, stats);
      score := 0.0;
    }
    verdict := VerdictOf(score);
  }

  /** The final clause of the source only ever resets a score that is already zero. */
  lemma ZeroingChangesNothing(findings: seq<Finding>, density: real, length: nat, stats: ActorStats)
    requires |findings| == 0 && stats.blockedCount == 0.0 && stats.requestsLastMinute <= 20.0
    requires density < 0.5 && length <= 6000
    ensures RawScore(findings, density, length, stats) == 0.0
  {
    assert Weights(findings) + Structural(density, length) == [];
  }

  function Strength(v: Verdict): nat {
    match v
    case Allow => 0
    case Flag => 1
    case Deny => 2
  }

  function VerdictFor(findings: seq<Finding>, density: real, length: nat, stats: ActorStats): Verdict {
    VerdictOf(RawScore(findings, density, length, stats))
  }

  lemma {:induction false} MoreFindingsMoreWeights(a: seq<Finding>, b: seq<Finding>)
    requires multiset(a) <= multiset(b)
    ensures multiset(Weights(a)) <= multiset(Weights(b))
    decreases |a|
  {
    if a != [] {
      assert a == [a[0]] + a[1..];
      assert a[0] in multiset(a) && a[0] in multiset(b);
      var i :| 0 <= i < |b| && b[i] == a[0];
      var rest := b[..i] + b[i + 1..];
      RemoveAt(b, i);
      CancelInclusion(a[0], multiset(a[1..]), multiset(rest));
      MoreFindingsMoreWeights(a[1..], rest);
      WeightsTakeOut(b, i);
    }
  }

  lemma {:induction false} WeightsTakeOut(s: seq<Finding>, i: nat)
    requires i < |s|
    ensures multiset(Weights(s)) == multiset{s[i].weight} + multiset(Weights(s[..i] + s[i + 1..]))
  {
    hide *;
    WeightsHead(s);
    if i == 0 {
      assert s[..0] + s[1..] == s[1..];
    } else {
      WeightsTakeOut(s[1..], i - 1);
      TailTakeOut(s, i);
      WeightsHead(s[..i] + s[i + 1..]);
    }
  }

  /** Taking an element out of the tail, seen from the whole sequence. */
  lemma TailTakeOut<T>(s: seq<T>, i: nat)
    requires 0 < i < |s|
    ensures var rest := s[..i] + s[i + 1..];
      rest[0] == s[0] && rest[1..] == s[1..][..i - 1] + s[1..][i..] && s[1..][i - 1] == s[i]
  {
  }

  lemma WeightsHead(s: seq<Finding>)
    requires s != []
    ensures multiset(Weights(s)) == multiset{s[0].weight} + multiset(Weights(s[1..]))
  {
  }

  /** The count of blocked requests as the source weighs it. */
  function Boost(blocked: real): real {
    if blocked >= 2.0 then 1.3 else if blocked == 1.0 then 1.1 else 1.0
  }

  lemma RawScoreOrder(a: seq<Finding>, b: seq<Finding>, density: real, length: nat, s: ActorStats, t: ActorStats)
    requires multiset(a) <= multiset(b)
    requires Boost(s.blockedCount) <= Boost(t.blockedCount) && s.requestsLastMinute <= t.requestsLastMinute
    ensures 0.0 <= RawScore(a, density, length, s) <= RawScore(b, density, length, t) <= 1.0
  {
    hide *;
    var x, y := Weights(a) + Structural(density, length), Weights(b) + Structural(density, length);
    MoreFindingsMoreWeights(a, b);
    MoreWeightsScoreHigher(x, y);
    RawScoreShape(a, density, length, s);
    RawScoreShape(b, density, length, t);
    BoostOrder(Combined(x), Combined(y), Boost(s.blockedCount), Boost(t.blockedCount));
    RateOrder(WithBoost(Combined(x), Boost(s.blockedCount)), WithBoost(Combined(y), Boost(t.blockedCount)),
              s.requestsLastMinute, t.requestsLastMinute);
  }

  function WithBoost(score: real, factor: real): real {
    Min(score * factor, 1.0)
  }

  function WithRate(score: real, rpm: real): real {
    if rpm > 20.0 then Min(score + 0.15, 1.0) else score
  }

  lemma RateOrder(p: real, q: real, r: real, t: real)
    requires 0.0 <= p <= q <= 1.0 && r <= t
    ensures 0.0 <= WithRate(p, r) <= WithRate(q, t) <= 1.0
  {
  }

  lemma RawScoreShape(findings: seq<Finding>, density: real, length: nat, s: ActorStats)
    ensures var base := Combined(Weights(findings) + Structural(density, length));
      && 0.0 <= base <= 1.0 && 1.0 <= Boost(s.blockedCount)
      && RawScore(findings, density, length, s)
         == WithRate(WithBoost(base, Boost(s.blockedCount)), s.requestsLastMinute)
  {
    hide Complement, Weights, Structural;
  }

  lemma BoostOrder(p: real, q: real, f: real, g: real)
    requires 0.0 <= p <= q <= 1.0 && 1.0 <= f <= g
    ensures 0.0 <= WithBoost(p, f) <= WithBoost(q, g) <= 1.0
  {
    ScaleOrder(f, p, q);
    ScaleOrder(q, f, g);
    ScaleOrder(p, 1.0, f);
    assert p * f == f * p && q * f == f * q;
    assert p * f <= q * g;
  }

  /**
   * Adding findings, or raising the request rate, or raising the blocked count, never weakens the verdict,
   * provided the count does not move from 1 to strictly between 1 and 2.
   */
  lemma VerdictNeverWeakens(a: seq<Finding>, b: seq<Finding>, density: real, length: nat, s: ActorStats, t: ActorStats)
    requires multiset(a) <= multiset(b)
    requires s.blockedCount <= t.blockedCount && s.requestsLastMinute <= t.requestsLastMinute
    requires !(s.blockedCount == 1.0 && 1.0 < t.blockedCount < 2.0)
    ensures Strength(VerdictFor(a, density, length, s)) <= Strength(VerdictFor(b, density, length, t))
  {
    RawScoreOrder(a, b, density, length, s, t);
  }

  /** That proviso is exact: every whole-numbered rise is safe, and a rise from 1 to a fraction below 2 is not. */
  lemma BlockedCountExact(from: real, to: real)
    requires from <= to
    ensures (from == 1.0 && 1.0 < to < 2.0) <==>
            exists findings, density, length, rpm ::
              Strength(VerdictFor(findings, density, length, ActorStats(from, rpm)))
              > Strength(VerdictFor(findings, density, length, ActorStats(to, rpm)))
  {
    if from == 1.0 && 1.0 < to < 2.0 {
      var findings := [Finding("semantic", "role-reassignment", 0.75)];
      SingleWeight(findings[0]);
      assert VerdictFor(findings, 0.0, 0, ActorStats(from, 0.0)) == Deny;
      assert VerdictFor(findings, 0.0, 0, ActorStats(to, 0.0)) == Flag;
    }
    forall findings, density, length, rpm | !(from == 1.0 && 1.0 < to < 2.0)
      ensures Strength(VerdictFor(findings, density, length, ActorStats(from, rpm)))
           <= Strength(VerdictFor(findings, density, length, ActorStats(to, rpm)))
    {
      VerdictNeverWeakens(findings, findings, density, length, ActorStats(from, rpm), ActorStats(to, rpm));
    }
  }

  lemma SingleWeight(f: Finding)
    ensures Combined(Weights([f]) + Structural(0.0, 0)) == Unit(f.weight)
  {
    var w := Weights([f]) + Structural(0.0, 0);
    assert w == [f.weight];
    assert w[1..] == [];
    assert Complement([]) == 1.0;
    assert Complement(w) == 1.0 - Unit(f.weight);
  }

  lemma StructuralFactor(weights: seq<real>, density: real, length: nat)
    ensures Complement(weights + Structural(density, length))
         == Complement(weights) * (if density >= 0.5 then 0.65 else 1.0) * (if length > 6000 then 0.75 else 1.0)
  {
    hide Complement;
    var dense := if density >= 0.5 then [0.35] else [];
    var long := if length > 6000 then [0.25] else [];
    assert weights + Structural(density, length) == (weights + dense) + long;
    ComplementAppends(weights + dense, 0.25);
    ComplementAppends(weights, 0.35);
    assert weights + [] == weights && (weights + dense) + [] == weights + dense;
  }

  lemma {:induction false} ComplementAppends(weights: seq<real>, w: real)
    ensures Complement(weights + [w]) == Complement(weights) * (1.0 - Unit(w))
  {
    ComplementEmpty();
    ComplementHead(weights + [w]);
    if weights == [] {
      assert ([] + [w])[1..] == [];
    } else {
      ComplementHead(weights);
      ComplementAppends(weights[1..], w);
      assert (weights + [w])[1..] == weights[1..] + [w];
      hide Complement, Unit;
      Regroup(Miss(weights[0]), Complement(weights[1..]), 1.0 - Unit(w));
    }
  }

  /**
   * The score in full: dense imperatives leave 0.65 and an oversized message 0.75 of the complement; the history
   * of blocks scales the score, a busy minute adds to it, and one is the ceiling each time.
   */
  lemma ScoreExact(findings: seq<Finding>, density: real, length: nat, stats: ActorStats)
    ensures var base := 1.0 - Complement(Weights(findings))
                        * (if density >= 0.5 then 0.65 else 1.0) * (if length > 6000 then 0.75 else 1.0);
      var scaled := base * (if stats.blockedCount >= 2.0 then 1.3 else if stats.blockedCount == 1.0 then 1.1 else 1.0);
      var capped := if scaled > 1.0 then 1.0 else scaled;
      var raised := if stats.requestsLastMinute > 20.0 then capped + 0.15 else capped;
      RawScore(findings, density, length, stats) == if raised > 1.0 then 1.0 else raised
  {
    StructuralFactor(Weights(findings), density, length);
    RawScoreShape(findings, density, length, stats);
    hide Complement, Weights, Structural;
  }

  /** The verdict in terms of the score. */
  lemma VerdictExact(findings: seq<Finding>, density: real, length: nat, stats: ActorStats)
    ensures var score := RawScore(findings, density, length, stats);
      var verdict := VerdictFor(findings, density, length, stats);
      && (verdict == Deny <==> score >= 0.8) && (verdict == Flag <==> 0.45 <= score < 0.8)
      && (verdict == Allow <==> score < 0.45)
  {
    hide RawScore;
  }

  /** One finding of weight 0.8 or more forces a denial, whatever else is known. */
  lemma StrongFindingDenies(findings: seq<Finding>, i: nat, density: real, length: nat, stats: ActorStats)
    requires i < |findings| && findings[i].weight >= 0.8
    ensures VerdictFor(findings, density, length, stats) == Deny
  {
    var alone := [findings[i]];
    RemoveAt(findings, i);
    assert multiset(alone) <= multiset(findings);
    var calm := ActorStats(0.0, if stats.requestsLastMinute < 0.0 then stats.requestsLastMinute else 0.0);
    RawScoreOrder(alone, findings, density, length, calm, stats);
    var w := Weights(alone) + Structural(density, length);
    assert w[0] == findings[i].weight;
    CombinedBounds(w, 0);
  }

  // The unified analysis.

  datatype Text = Text(text: string, source: string)

  /** The seven detectors, whose pattern catalogues are left uninterpreted. */
  datatype Detectors = Detectors(
    intent: string -> seq<Finding>,
    contextual: (string, seq<string>) -> seq<Finding>,
    exfiltration: string -> seq<Finding>,
    indirect: Text -> seq<Finding>,
    tool: string -> seq<Finding>,
    doc: Text -> seq<Finding>,
    density: string -> real)

  datatype Context = Context(
    history: seq<string>, untrustedData: seq<Text>, toolDef: Option<string>, retrievedDocs: seq<Text>,
    stats: ActorStats)

  function FlatMap(f: Text -> seq<Finding>, items: seq<Text>): seq<Finding> {
    if items == [] then [] else FlatMap(f, items[..|items| - 1]) + f(items[|items| - 1])
  }

  function AllFindings(d: Detectors, input: string, ctx: Context): seq<Finding> {
    d.intent(input) + d.contextual(input, ctx.history) + d.exfiltration(input)
    + FlatMap(d.indirect, ctx.untrustedData)
    + (if ctx.toolDef.Some? then d.tool(ctx.toolDef.value) else [])
    + FlatMap(d.doc, ctx.retrievedDocs)
  }

  method Analyze(d: Detectors, input: string, ctx: Context)
    returns (score: real, verdict: Verdict, findings: seq<Finding>)
    ensures findings == AllFindings(d, input, ctx)
    ensures score == RawScore(findings, d.density(input), |input|, ctx.stats) && verdict == VerdictOf(score)
  {
    findings := d.intent(input) + d.contextual(input, ctx.history) + d.exfiltration(input);
    ghost var base := findings;
    for i := 0 to |ctx.untrustedData|
      invariant findings == base + FlatMap(d.indirect, ctx.untrustedData[..i])
    {
      assert ctx.untrustedData[..i + 1][..i] == ctx.untrustedData[..i];
      findings := findings + d.indirect(ctx.untrustedData[i]);
    }
    assert ctx.untrustedData[..|ctx.untrustedData|] == ctx.untrustedData;
    if ctx.toolDef.Some? {
      findings := findings + d.tool(ctx.toolDef.value);
    }
    base := findings;
    for i := 0 to |ctx.retrievedDocs|
      invariant findings == base + FlatMap(d.doc, ctx.retrievedDocs[..i])
    {
      assert ctx.retrievedDocs[..i + 1][..i] == ctx.retrievedDocs[..i];
      findings := findings + d.doc(ctx.retrievedDocs[i]);
    }
    assert ctx.retrievedDocs[..|ctx.retrievedDocs|] == ctx.retrievedDocs;
    score, verdict := ScoreBehavior(findings, d.density(input), |input|, ctx.stats);
  }

  lemma {:induction false} FlatMapSplit(f: Text -> seq<Finding>, a: seq<Text>, b: seq<Text>)
    ensures FlatMap(f, a + b) == FlatMap(f, a) + FlatMap(f, b)
  {
    if b == [] {
      assert a + b == a;
    } else {
      var n := |b| - 1;
      assert (a + b)[..|a + b| - 1] == a + b[..n];
      FlatMapSplit(f, a, b[..n]);
    }
  }

  lemma {:induction false} FlatMapExact(f: Text -> seq<Finding>, items: seq<Text>, x: Finding)
    ensures x in FlatMap(f, items) <==> exists t :: t in items && x in f(t)
  {
    if items != [] {
      var n := |items| - 1;
      FlatMapExact(f, items[..n], x);
      assert items == items[..n] + [items[n]];
    }
  }

  /** Every detector's findings, and nothing else, reach the analysis. */
  lemma FindingsExact(d: Detectors, input: string, ctx: Context, x: Finding)
    ensures x in AllFindings(d, input, ctx) <==>
      || x in d.intent(input) || x in d.contextual(input, ctx.history) || x in d.exfiltration(input)
      || (exists t :: t in ctx.untrustedData && x in d.indirect(t))
      || (ctx.toolDef.Some? && x in d.tool(ctx.toolDef.value))
      || (exists t :: t in ctx.retrievedDocs && x in d.doc(t))
  {
    FlatMapExact(d.indirect, ctx.untrustedData, x);
    FlatMapExact(d.doc, ctx.retrievedDocs, x);
    hide FlatMap;
  }

  lemma FlatMapOne(f: Text -> seq<Finding>, t: Text)
    ensures FlatMap(f, [t]) == f(t)
  {
    assert [t][..0] == [];
    assert FlatMap(f, [t]) == [] + f(t);
  }

  /** In the order of the source, once each: shown for one item of every kind; more items follow in their order. */
  lemma FindingsInOrder(d: Detectors, input: string, history: seq<string>, datum: Text, tool: string, doc: Text,
                        stats: ActorStats)
    ensures AllFindings(d, input, Context(history, [datum], Some(tool), [doc], stats))
         == d.intent(input) + d.contextual(input, history) + d.exfiltration(input) + d.indirect(datum) + d.tool(tool)
            + d.doc(doc)
  {
    FlatMapOne(d.indirect, datum);
    FlatMapOne(d.doc, doc);
    hide FlatMap;
  }

  /** Showing the analysis more untrusted data, documents or a tool definition never weakens its verdict. */
  lemma MoreContextNeverWeakens(d: Detectors, input: string, ctx: Context, data: seq<Text>, docs: seq<Text>,
                                tool: Option<string>)
    requires ctx.toolDef == None || ctx.toolDef == tool
    ensures var wider := ctx.(untrustedData := ctx.untrustedData + data,
                              retrievedDocs := ctx.retrievedDocs + docs, toolDef := tool);
      Strength(VerdictFor(AllFindings(d, input, ctx), d.density(input), |input|, ctx.stats))
      <= Strength(VerdictFor(AllFindings(d, input, wider), d.density(input), |input|, ctx.stats))
  {
    var wider := ctx.(untrustedData := ctx.untrustedData + data, retrievedDocs := ctx.retrievedDocs + docs,
                      toolDef := tool);
    FlatMapSplit(d.indirect, ctx.untrustedData, data);
    FlatMapSplit(d.doc, ctx.retrievedDocs, docs);
    VerdictNeverWeakens(AllFindings(d, input, ctx), AllFindings(d, input, wider), d.density(input), |input|,
                        ctx.stats, ctx.stats);
  }
}
