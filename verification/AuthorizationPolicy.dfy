/** The staged policy decision, and the key under which its result is cached. */
module AuthorizationPolicy {
  import opened Options
  import opened JsNumbers
  import opened Texts
  import Abac

  const POLICY_VERSION := "v4.1.0-native-context"

  datatype Geo = Geo(country: Option<string>, region: Option<string>, city: Option<string>, source: string)
  datatype ThreatIntel = ThreatIntel(riskScore: Double, source: string, signals: seq<string>)

  datatype DynamicContext = DynamicContext(
    geoIp: Option<Geo>, deviceFingerprint: Option<string>, behaviorScore: Option<Double>,
    threatIntel: Option<ThreatIntel>, geoMismatch: bool, deviceChanged: bool)

  datatype Request = Request(
    tenantId: string, subjectId: string, action: string, resource: string, role: Option<string>,
    authenticated: bool, resourceTenantId: Option<string>, resourceOwner: Option<string>, dynamic: DynamicContext)

  datatype Permission = Permitted(permission: string) | Forbidden(reason: string)
  datatype RbacResult = Granted | Refused(reason: string)

  /** The role catalogue, the permission matrix and the role-based check, which this model leaves open. */
  datatype Env = Env(
    roles: set<string>, resources: set<string>, actions: set<string>,
    permissionFor: (string, string) -> Permission, checkPermission: (string, string) -> RbacResult)

  datatype Verdict = Allow | Deny(reason: string)

  /** The canonical operation: skills and tools all need tool:execute. */
  function Canonical(env: Env, r: Request): Option<(string, string)> {
    if "skill:" <= r.resource || "tool:" <= r.resource then Some(("tool", "execute"))
    else if r.resource in env.resources && r.action in env.actions then Some((r.resource, r.action))
    else None
  }

  predicate ScoreInvalid(score: Option<Num>) {
    score.Some? && (!score.value.IsFinite() || score.value.value < 0.0 || score.value.value > 100.0)
  }

  function RiskOf(score: Option<Num>): real {
    if score.None? then 0.5 else Min(Max(score.value.OrZero() / 100.0, 0.0), 1.0)
  }

  function Attributes(r: Request): Abac.AttributeContext
    requires r.role.Some?
  {
    Abac.AttributeContext(
      r.role.value, r.tenantId, r.resource, r.action,
      if r.resourceTenantId.Some? then r.resourceTenantId.value else "",
      if r.resourceOwner.Some? then r.resourceOwner.value else "",
      r.subjectId, RiskOf(r.dynamic.behaviorScore), r.authenticated, "UTC")
  }

  function Decide(env: Env, r: Request): Verdict {
    var score := r.dynamic.behaviorScore;
    if r.subjectId == "" || r.tenantId == "" then Deny("missing-identity")
    else if ScoreInvalid(score) then Deny("invalid-behavior-score")
    else if score.Some? && score.value.OrZero() > 80.0 then Deny("behavior-anomaly")
    else if r.role.None? || r.role.value !in env.roles then Deny("unknown-role")
    else
      var op := Canonical(env, r);
      if op.None? then Deny("unknown-operation")
      else
        var derived := env.permissionFor(op.value.0, op.value.1);
        if derived.Forbidden? then Deny("forbidden-operation:" + derived.reason)
        else
          var rbac := env.checkPermission(r.role.value, derived.permission);
          if rbac.Refused? then Deny("rbac-deny:" + rbac.reason)
          else
            var abac := Abac.Evaluate(Attributes(r), Abac.DEFAULT_POLICIES);
            if abac.decision == Abac.Deny
            then Deny("abac-deny:" + (if abac.policy.Some? then abac.policy.value else "unknown") + ":" + abac.reason)
            else Allow
  }

  const ALLOW_OBLIGATIONS := ["log_verbose", "pqc_signature_required"]

  /** The stages as the evaluator runs them, filling in its three results. */
  method EvaluatePolicy(env: Env, r: Request) returns (allow: bool, obligations: seq<string>, denyReason: string)
    ensures allow == Decide(env, r).Allow?
    ensures obligations == if allow then ALLOW_OBLIGATIONS else []
    ensures !allow ==> denyReason == Decide(env, r).reason
  {
    allow, obligations, denyReason := false, [], "deny-by-default";
    var score := r.dynamic.behaviorScore;
    if r.subjectId == "" || r.tenantId == "" {
      denyReason := "missing-identity";
    } else if ScoreInvalid(score) {
      denyReason := "invalid-behavior-score";
    } else if score.Some? && score.value.OrZero() > 80.0 {
      denyReason := "behavior-anomaly";
    } else if r.role.None? || r.role.value !in env.roles {
      denyReason := "unknown-role";
    } else {
      var op := Canonical(env, r);
      if op.None? {
        denyReason := "unknown-operation";
      } else {
        var derived := env.permissionFor(op.value.0, op.value.1);
        if derived.Forbidden? {
          denyReason := "forbidden-operation:" + derived.reason;
        } else {
          var rbac := env.checkPermission(r.role.value, derived.permission);
          if rbac.Refused? {
            denyReason := "rbac-deny:" + rbac.reason;
          } else {
            var abac := Abac.Evaluate(Attributes(r), Abac.DEFAULT_POLICIES);
            if abac.decision == Abac.Deny {
              denyReason := "abac-deny:" + (if abac.policy.Some? then abac.policy.value else "unknown")
                            + ":" + abac.reason;
            } else {
              allow := true;
              obligations := obligations + ["log_verbose", "pqc_signature_required"];
            }
          }
        }
      }
    }
  }

  /** The role-based part grants the canonical operation to the role. */
  predicate RbacGrants(env: Env, r: Request) {
    r.role.Some? && r.role.value in env.roles &&
    var op := Canonical(env, r);
    op.Some? &&
    var derived := env.permissionFor(op.value.0, op.value.1);
    derived.Permitted? && env.checkPermission(r.role.value, derived.permission).Granted?
  }

  /**
   * Fail-closed: a request is allowed exactly when identity, score, role, permission and attributes all
   * speak for it. A behaviour score above 80 never reaches the attribute policies, so their own risk
   * threshold of 0.9 plays no part; authentication, personal data and territory do.
   */
  lemma AllowExactly(env: Env, r: Request)
    ensures Decide(env, r).Allow? <==>
      && r.subjectId != "" && r.tenantId != ""
      && (r.dynamic.behaviorScore.Some? ==>
            r.dynamic.behaviorScore.value.Fin? && 0.0 <= r.dynamic.behaviorScore.value.value <= 80.0)
      && RbacGrants(env, r)
      && r.authenticated
      && !("data:personal" <= r.resource && r.resourceOwner.Some? && r.resourceOwner.value !in {"", r.subjectId}
           && r.role.value !in {"SovereignOwner", "governance_admin"})
      && !(r.resourceTenantId.Some? && r.resourceTenantId.value !in {"", r.tenantId}
           && r.role.value !in {"SovereignOwner", "Auditor"})
  {
    if r.role.Some? {
      Abac.DefaultDeniesExactly(Attributes(r));
    }
  }

  /** The canonical operation: skills and tools are executed, other resources keep their catalogued action. */
  lemma CanonicalExact(env: Env, r: Request)
    ensures "skill:" <= r.resource || "tool:" <= r.resource ==> Canonical(env, r) == Some(("tool", "execute"))
    ensures !("skill:" <= r.resource) && !("tool:" <= r.resource) ==>
              Canonical(env, r) == if r.resource in env.resources && r.action in env.actions
                                   then Some((r.resource, r.action)) else None
  {
  }

  /** The denial of an attribute policy, by name. */
  function AbacDenial(policy: string): Verdict {
    Deny("abac-deny:" + policy + ":" + ("ABAC denegó por política '" + policy + "'."))
  }

  /** Every refusal names the first stage that fails. */
  lemma ReasonExact(env: Env, r: Request)
    ensures var v, score, op := Decide(env, r), r.dynamic.behaviorScore, Canonical(env, r);
      if r.subjectId == "" || r.tenantId == "" then v == Deny("missing-identity")
      else if score.Some? && !(score.value.Fin? && 0.0 <= score.value.value <= 100.0)
      then v == Deny("invalid-behavior-score")
      else if score.Some? && score.value.value > 80.0 then v == Deny("behavior-anomaly")
      else if r.role.None? || r.role.value !in env.roles then v == Deny("unknown-role")
      else if op.None? then v == Deny("unknown-operation")
      else if env.permissionFor(op.value.0, op.value.1).Forbidden?
      then v == Deny("forbidden-operation:" + env.permissionFor(op.value.0, op.value.1).reason)
      else
        var rbac := env.checkPermission(r.role.value, env.permissionFor(op.value.0, op.value.1).permission);
        if rbac.Refused? then v == Deny("rbac-deny:" + rbac.reason)
        else if !r.authenticated then v == AbacDenial("risk:deny-high")
        else if "data:personal" <= r.resource && r.resourceOwner.Some? && r.resourceOwner.value !in {"", r.subjectId}
                && r.role.value !in {"SovereignOwner", "governance_admin"}
        then v == AbacDenial("residency:personal-data")
        else if r.resourceTenantId.Some? && r.resourceTenantId.value !in {"", r.tenantId}
                && r.role.value !in {"SovereignOwner", "Auditor"}
        then v == AbacDenial("isolation:territorial")
        else v == Allow
  {
    hide Canonical, Abac.Evaluate, Attributes;
    if r.role.Some? && (r.dynamic.behaviorScore.Some? ==>
         r.dynamic.behaviorScore.value.Fin? && 0.0 <= r.dynamic.behaviorScore.value.value <= 80.0)
    {
      AbacReasons(r);
    }
  }

  /** What the three default policies make of a request that has passed the score check. */
  lemma AbacReasons(r: Request)
    requires r.role.Some?
    requires r.dynamic.behaviorScore.Some? ==>
               r.dynamic.behaviorScore.value.Fin? && 0.0 <= r.dynamic.behaviorScore.value.value <= 80.0
    ensures var e := Abac.Evaluate(Attributes(r), Abac.DEFAULT_POLICIES);
      if !r.authenticated then Refuses(e, "risk:deny-high")
      else if "data:personal" <= r.resource && r.resourceOwner.Some? && r.resourceOwner.value !in {"", r.subjectId}
              && r.role.value !in {"SovereignOwner", "governance_admin"}
      then Refuses(e, "residency:personal-data")
      else if r.resourceTenantId.Some? && r.resourceTenantId.value !in {"", r.tenantId}
              && r.role.value !in {"SovereignOwner", "Auditor"}
      then Refuses(e, "isolation:territorial")
      else e.decision != Abac.Deny
  {
    Abac.DefaultReasons(Attributes(r));
    hide Abac.Evaluate;
  }

  predicate Refuses(e: Abac.Evaluation, policy: string) {
    e.decision == Abac.Deny && e.policy == Some(policy) && e.reason == "ABAC denegó por política '" + policy + "'."
  }

  // The anomaly score that the signed payload reports.

  function ScorePart(c: DynamicContext): Num {
    if c.behaviorScore.Some? then c.behaviorScore.value else Fin(0.0)
  }

  function ThreatPart(c: DynamicContext): Num {
    if c.threatIntel.Some? then c.threatIntel.value.riskScore else Fin(0.0)
  }

  /** `Math.min(100, Math.max(0, Math.max(score, threat, device, place)))`. */
  function Worst(score: Num, threat: Num, device: real, place: real): Num {
    Fin(100.0).MinWith(Fin(0.0).MaxWith(score.MaxWith(threat).MaxWith(Fin(device)).MaxWith(Fin(place))))
  }

  function DynamicRisk(c: DynamicContext): Num {
    Worst(ScorePart(c), ThreatPart(c), if c.deviceChanged then 20.0 else 0.0, if c.geoMismatch then 15.0 else 0.0)
  }

  lemma WorstExact(s: Num, t: Num, device: real, place: real)
    requires 0.0 <= place <= 100.0 && 0.0 <= device <= 100.0
    ensures var change, risk := if device < place then place else device, Worst(s, t, device, place);
      && (risk == NaN <==> s == NaN || t == NaN)
      && (risk != NaN ==>
            && risk.Fin? && change <= risk.value <= 100.0
            && (risk.value < 100.0 ==> s.Le(risk) && t.Le(risk))
            && (risk == Fin(100.0) || risk == s || risk == t || risk == Fin(change))
            && (risk == Fin(100.0) && change < 100.0 ==> Fin(100.0).Le(s) || Fin(100.0).Le(t)))
  {
  }

  /** What the attribute policies are told: the request's own fields, empty texts for absent ones, and the risk. */
  lemma AttributesExact(r: Request)
    requires r.role.Some? && !ScoreInvalid(r.dynamic.behaviorScore)
    ensures var a, score := Attributes(r), r.dynamic.behaviorScore;
      && a.role == r.role.value && a.subjectTenant == r.tenantId && a.subject == r.subjectId
      && a.resource == r.resource && a.action == r.action && a.authenticated == r.authenticated && a.timezone == "UTC"
      && a.resourceTenant == (if r.resourceTenantId.Some? then r.resourceTenantId.value else "")
      && a.resourceOwner == (if r.resourceOwner.Some? then r.resourceOwner.value else "")
      && (if score.None? then a.risk == 0.5 else 100.0 * a.risk == score.value.value)
  {
  }

  /**
   * The anomaly score is NaN exactly when the behaviour score or the threat risk is; otherwise it is the largest
   * of score, threat and change, kept within 0 and 100, and never below the change.
   */
  lemma RiskExact(c: DynamicContext)
    ensures var s: Num := if c.behaviorScore.Some? then c.behaviorScore.value else Fin(0.0);
      var t: Num := if c.threatIntel.Some? then c.threatIntel.value.riskScore else Fin(0.0);
      var change := if c.deviceChanged then 20.0 else if c.geoMismatch then 15.0 else 0.0;
      var risk := DynamicRisk(c);
      && (risk == NaN <==> s == NaN || t == NaN)
      && (risk != NaN ==>
            && risk.Fin? && change <= risk.value <= 100.0
            && (risk.value < 100.0 ==> s.Le(risk) && t.Le(risk))
            && (risk == Fin(100.0) || risk == s || risk == t || risk == Fin(change))
            && (risk == Fin(100.0) ==> Fin(100.0).Le(s) || Fin(100.0).Le(t)))
  {
    WorstExact(ScorePart(c), ThreatPart(c), if c.deviceChanged then 20.0 else 0.0, if c.geoMismatch then 15.0 else 0.0);
    hide Worst;
  }

  // The cache key.

  /** What `JSON.stringify` leaves of a number: every non-finite value becomes null. */
  function JsonNumber(n: Double): Option<Dyadic> {
    if n.Fin? then Some(n.value) else None
  }

  datatype JsonThreat = JsonThreat(riskScore: Option<Dyadic>, source: string, signals: seq<string>)

  datatype KeyRecord = KeyRecord(
    tenantId: string, subjectId: string, action: string, resource: string, role: Option<string>,
    authenticated: bool, resourceTenantId: Option<string>, resourceOwner: Option<string>, policyVersion: string,
    geoIp: Option<Geo>, deviceFingerprint: Option<string>, behaviorScore: Option<Option<Dyadic>>,
    threatIntel: Option<JsonThreat>, geoMismatch: bool, deviceChanged: bool)

  /** The serialised record: empty fingerprints are dropped, absent values are told apart from null. */
  function KeyRecordOf(r: Request): KeyRecord {
    var d := r.dynamic;
    KeyRecord(
      r.tenantId, r.subjectId, r.action, r.resource, r.role, r.authenticated, r.resourceTenantId, r.resourceOwner,
      POLICY_VERSION, d.geoIp,
      if d.deviceFingerprint == Some("") then None else d.deviceFingerprint,
      if d.behaviorScore.Some? then Some(JsonNumber(d.behaviorScore.value)) else None,
      if d.threatIntel.Some?
      then Some(JsonThreat(JsonNumber(d.threatIntel.value.riskScore), d.threatIntel.value.source,
                           d.threatIntel.value.signals))
      else None,
      d.geoMismatch, d.deviceChanged)
  }

  type Digest = KeyRecord -> string

  /** SHA-256 over the JSON text, taken to be injective (`DigestExists`: that can be met). */
  ghost predicate Injective(digest: Digest) {
    forall j, k :: digest(j) == digest(k) ==> j == k
  }

  // Such digests exist: a text of the record from which every field can be read back.

  function OfBool(b: bool): string {
    if b then "t" else "f"
  }

  function OfOption(o: Option<string>): string {
    if o.None? then "" else "+" + o.value
  }

  ghost function OfDyadic(x: Dyadic): string {
    assert IsDyadic(x);
    var m, k: nat :| x == Dyad(m, k);
    PrintInt(m) + ['/'] + PrintInt(k)
  }

  ghost function OfNumber(n: Option<Dyadic>): string {
    OfOption(if n.Some? then Some(OfDyadic(n.value)) else None)
  }

  function OfGeo(g: Geo): string {
    Flat([OfOption(g.country), OfOption(g.region), OfOption(g.city), g.source])
  }

  ghost function OfThreat(t: JsonThreat): string {
    Flat([OfNumber(t.riskScore), t.source, Flat(t.signals)])
  }

  ghost function Fields(k: KeyRecord): seq<string> {
    [k.tenantId, k.subjectId, k.action, k.resource, OfOption(k.role), OfBool(k.authenticated),
     OfOption(k.resourceTenantId), OfOption(k.resourceOwner), k.policyVersion,
     OfOption(if k.geoIp.Some? then Some(OfGeo(k.geoIp.value)) else None), OfOption(k.deviceFingerprint),
     OfOption(if k.behaviorScore.Some? then Some(OfNumber(k.behaviorScore.value)) else None),
     OfOption(if k.threatIntel.Some? then Some(OfThreat(k.threatIntel.value)) else None),
     OfBool(k.geoMismatch), OfBool(k.deviceChanged)]
  }

  lemma OptionInjective(a: Option<string>, b: Option<string>)
    requires OfOption(a) == OfOption(b)
    ensures a == b
  {
    if a.Some? && b.Some? {
      assert a.value == ("+" + a.value)[1..] && b.value == ("+" + b.value)[1..];
    }
  }

  lemma DyadicInjective(x: Dyadic, y: Dyadic)
    requires OfDyadic(x) == OfDyadic(y)
    ensures x == y
  {
    var m, k: nat :| x == Dyad(m, k) && OfDyadic(x) == PrintInt(m) + ['/'] + PrintInt(k);
    var n, l: nat :| y == Dyad(n, l) && OfDyadic(y) == PrintInt(n) + ['/'] + PrintInt(l);
    PrintFreeOf(m, '/');
    PrintFreeOf(n, '/');
    HeadUnique(PrintInt(m), PrintInt(k), PrintInt(n), PrintInt(l), '/');
    PrintInjective(m, n);
    PrintInjective(k, l);
  }

  lemma NumberInjective(a: Option<Dyadic>, b: Option<Dyadic>)
    requires OfNumber(a) == OfNumber(b)
    ensures a == b
  {
    hide OfDyadic;
    OptionInjective(if a.Some? then Some(OfDyadic(a.value)) else None,
                    if b.Some? then Some(OfDyadic(b.value)) else None);
    if a.Some? && b.Some? {
      DyadicInjective(a.value, b.value);
    }
  }

  lemma GeoInjective(a: Geo, b: Geo)
    requires OfGeo(a) == OfGeo(b)
    ensures a == b
  {
    hide OfOption, Flat;
    var s, t := [OfOption(a.country), OfOption(a.region), OfOption(a.city), a.source],
                [OfOption(b.country), OfOption(b.region), OfOption(b.city), b.source];
    FlatInjective(s, t);
    assert s[0] == t[0] && s[1] == t[1] && s[2] == t[2] && s[3] == t[3];
    OptionInjective(a.country, b.country);
    OptionInjective(a.region, b.region);
    OptionInjective(a.city, b.city);
  }

  lemma ThreatInjective(a: JsonThreat, b: JsonThreat)
    requires OfThreat(a) == OfThreat(b)
    ensures a == b
  {
    hide OfNumber, Flat;
    var s, t := [OfNumber(a.riskScore), a.source, Flat(a.signals)], [OfNumber(b.riskScore), b.source, Flat(b.signals)];
    FlatInjective(s, t);
    assert s[0] == t[0] && s[1] == t[1] && s[2] == t[2];
    NumberInjective(a.riskScore, b.riskScore);
    FlatInjective(a.signals, b.signals);
  }

  lemma FieldsInjective(j: KeyRecord, k: KeyRecord)
    requires Fields(j) == Fields(k)
    ensures j == k
  {
    hide OfOption, OfNumber, OfThreat, OfGeo;
    var s, t := Fields(j), Fields(k);
    assert forall i :: 0 <= i < 15 ==> s[i] == t[i];
    OptionInjective(j.role, k.role);
    OptionInjective(j.resourceTenantId, k.resourceTenantId);
    OptionInjective(j.resourceOwner, k.resourceOwner);
    OptionInjective(j.deviceFingerprint, k.deviceFingerprint);
    OptionInjective(if j.geoIp.Some? then Some(OfGeo(j.geoIp.value)) else None,
                    if k.geoIp.Some? then Some(OfGeo(k.geoIp.value)) else None);
    if j.geoIp.Some? && k.geoIp.Some? {
      GeoInjective(j.geoIp.value, k.geoIp.value);
    }
    OptionInjective(if j.behaviorScore.Some? then Some(OfNumber(j.behaviorScore.value)) else None,
                    if k.behaviorScore.Some? then Some(OfNumber(k.behaviorScore.value)) else None);
    if j.behaviorScore.Some? && k.behaviorScore.Some? {
      NumberInjective(j.behaviorScore.value, k.behaviorScore.value);
    }
    OptionInjective(if j.threatIntel.Some? then Some(OfThreat(j.threatIntel.value)) else None,
                    if k.threatIntel.Some? then Some(OfThreat(k.threatIntel.value)) else None);
    if j.threatIntel.Some? && k.threatIntel.Some? {
      ThreatInjective(j.threatIntel.value, k.threatIntel.value);
    }
  }

  /** The assumption on the digest can be met: key records hold doubles, and every record can be written as a text. */
  lemma DigestExists()
    ensures exists digest: Digest :: Injective(digest)
  {
    hide Fields, Flat;
    var digest: Digest := (k: KeyRecord) => Flat(Fields(k));
    forall j, k | digest(j) == digest(k)
      ensures j == k
    {
      FlatInjective(Fields(j), Fields(k));
      FieldsInjective(j, k);
    }
    assert Injective(digest);
  }

  function CacheKey(digest: Digest, r: Request): string {
    digest(KeyRecordOf(r))
  }

  /** A serialised number tells finite values apart and makes one of all others. */
  predicate SameNumber(m: Num, n: Num) {
    m == n || (!m.Fin? && !n.Fin?)
  }

  /**
   * Two requests share a key exactly when all their fields do, but that an empty fingerprint counts as none and all
   * non-finite numbers as one.
   */
  lemma KeyExact(digest: Digest, r: Request, s: Request)
    requires Injective(digest)
    ensures CacheKey(digest, r) == CacheKey(digest, s) <==>
      var c, d := r.dynamic, s.dynamic;
      && r.tenantId == s.tenantId && r.subjectId == s.subjectId && r.action == s.action && r.resource == s.resource
      && r.role == s.role && r.authenticated == s.authenticated
      && r.resourceTenantId == s.resourceTenantId && r.resourceOwner == s.resourceOwner
      && c.geoIp == d.geoIp && c.geoMismatch == d.geoMismatch && c.deviceChanged == d.deviceChanged
      && (c.deviceFingerprint == d.deviceFingerprint
          || (c.deviceFingerprint in {None, Some("")} && d.deviceFingerprint in {None, Some("")}))
      && (c.behaviorScore.Some? <==> d.behaviorScore.Some?)
      && (c.behaviorScore.Some? ==> SameNumber(c.behaviorScore.value, d.behaviorScore.value))
      && (c.threatIntel.Some? <==> d.threatIntel.Some?)
      && (c.threatIntel.Some? ==>
            && SameNumber(c.threatIntel.value.riskScore, d.threatIntel.value.riskScore)
            && c.threatIntel.value.source == d.threatIntel.value.source
            && c.threatIntel.value.signals == d.threatIntel.value.signals)
  {
    assert CacheKey(digest, r) == CacheKey(digest, s) <==> KeyRecordOf(r) == KeyRecordOf(s);
    hide CacheKey, Injective;
  }

  /**
   * The key determines the decision and its reason, although NaN and the infinities share one
   * serialisation: all of them are refused as invalid scores.
   */
  lemma KeySufficient(env: Env, digest: Digest, r: Request, s: Request)
    requires Injective(digest) && CacheKey(digest, r) == CacheKey(digest, s)
    ensures Decide(env, r) == Decide(env, s)
  {
    assert KeyRecordOf(r) == KeyRecordOf(s);
    var a, b := r.dynamic.behaviorScore, s.dynamic.behaviorScore;
    assert a.Some? <==> b.Some?;
    if a.Some? && a.value.Fin? {
      assert a == b;
    }
    assert ScoreInvalid(a) == ScoreInvalid(b);
  }
}
