/** The scope decision of the Python runtime, taken from verified claims only. */
module ScopeRuntime {
  import opened Options
  import opened Texts

  datatype Condition = Condition(name: string, kind: string, value: string)

  datatype ScopeSpec = ScopeSpec(
    tenantBound: bool, minimumRole: string, assurance: string, requiresStepUp: bool, requiresDualControl: bool,
    conditions: seq<Condition>)

  /** `assurance` maps a level to its rank, if the level states one. */
  datatype Catalog = Catalog(
    scopes: map<string, ScopeSpec>, roles: map<string, int>, assurance: map<string, Option<int>>)

  /** The claims of a token whose signature has been checked; absent ones carry their lowest defaults. */
  datatype Claims = Claims(
    scopes: set<string>, roles: seq<string>, aal: string, stepUp: bool, dualControl: bool, environment: string,
    exp: real)

  /** What the decision reads of a request: nothing the client asserts about itself. */
  datatype Request = Request(scope: string, resourceTenant: Option<string>)

  datatype Code =
    | UnknownScope | TenantBoundaryViolation | ScopeDenied | RoleInsufficient | AssuranceInsufficient
    | StepUpRequired | DualControlRequired | ConditionFailed

  datatype Result =
    | Allowed(matchedScope: string, obligations: seq<string>, createdAt: real, expiresAt: real)
    | Refused(code: Code)

  function RoleRank(c: Catalog, role: string, absent: int): int {
    if role in c.roles then c.roles[role] else absent
  }

  function HighestRank(c: Catalog, roles: seq<string>): int {
    if roles == [] then -1
    else
      var rest, first := HighestRank(c, roles[1..]), RoleRank(c, roles[0], -1);
      if first > rest || |roles| == 1 then first else rest
  }

  function AssuranceRank(c: Catalog, level: string, absent: int): int {
    if level in c.assurance && c.assurance[level].Some? then c.assurance[level].value else absent
  }

  function Namespace(scope: string): string {
    Split(scope, ':')[0]
  }

  function Matched(granted: set<string>, scope: string): Option<string> {
    if scope in granted then Some(scope)
    else if Namespace(scope) + ":*" in granted then Some(Namespace(scope) + ":*")
    else None
  }

  predicate Fails(c: Condition, environment: string) {
    c.kind == "environment_equals" && environment != c.value
  }

  predicate AnyFails(cs: seq<Condition>, environment: string) {
    exists i :: 0 <= i < |cs| && Fails(cs[i], environment)
  }

  function Obligations(spec: ScopeSpec): seq<string> {
    ["audit", "tenant-isolation"]
    + (if spec.requiresStepUp then ["step-up"] else [])
    + (if spec.requiresDualControl then ["dual-control"] else [])
  }

  function Evaluate(c: Catalog, r: Request, claims: Claims, tenant: string, now: real): Result {
    if r.scope !in c.scopes then Refused(UnknownScope)
    else
      var spec := c.scopes[r.scope];
      var matched := Matched(claims.scopes, r.scope);
      if spec.tenantBound && r.resourceTenant.Some? && r.resourceTenant.value != tenant
      then Refused(TenantBoundaryViolation)
      else if matched.None? then Refused(ScopeDenied)
      else if HighestRank(c, claims.roles) < RoleRank(c, spec.minimumRole, 999) then Refused(RoleInsufficient)
      else if AssuranceRank(c, claims.aal, 0) < AssuranceRank(c, spec.assurance, 999)
      then Refused(AssuranceInsufficient)
      else if spec.requiresStepUp && !claims.stepUp then Refused(StepUpRequired)
      else if spec.requiresDualControl && !claims.dualControl then Refused(DualControlRequired)
      else if AnyFails(spec.conditions, claims.environment) then Refused(ConditionFailed)
      else Allowed(matched.value, Obligations(spec), now, if claims.exp <= now + 30.0 then claims.exp else now + 30.0)
  }

  lemma {:induction false} HighestRankExact(c: Catalog, roles: seq<string>, bar: int)
    ensures HighestRank(c, roles) >= bar <==>
            if roles == [] then bar <= -1 else exists i :: 0 <= i < |roles| && RoleRank(c, roles[i], -1) >= bar
  {
    if roles != [] {
      HighestRankExact(c, roles[1..], bar);
      assert forall i :: 0 <= i < |roles| - 1 ==> roles[1..][i] == roles[i + 1];
      if i :| 0 <= i < |roles| && RoleRank(c, roles[i], -1) >= bar {
        assert i == 0 || RoleRank(c, roles[1..][i - 1], -1) >= bar;
      }
    }
  }

  /** Stronger claims: more scopes and roles, a level of no lower rank, more confirmations, the same environment. */
  ghost predicate AtLeast(c: Catalog, strong: Claims, weak: Claims) {
    && weak.scopes <= strong.scopes
    && weak.roles != [] && (forall i :: 0 <= i < |weak.roles| ==> weak.roles[i] in strong.roles)
    && AssuranceRank(c, weak.aal, 0) <= AssuranceRank(c, strong.aal, 0)
    && (weak.stepUp ==> strong.stepUp) && (weak.dualControl ==> strong.dualControl)
    && weak.environment == strong.environment
  }

  /** Stronger claims never turn an allow into a refusal, and leave its obligations as they were. */
  lemma StrongerClaimsStayAllowed(c: Catalog, r: Request, weak: Claims, strong: Claims, tenant: string, now: real)
    requires AtLeast(c, strong, weak)
    requires Evaluate(c, r, weak, tenant, now).Allowed?
    ensures Evaluate(c, r, strong, tenant, now).Allowed?
    ensures Evaluate(c, r, strong, tenant, now).obligations == Evaluate(c, r, weak, tenant, now).obligations
  {
    var bar := RoleRank(c, c.scopes[r.scope].minimumRole, 999);
    HighestRankExact(c, weak.roles, bar);
    HighestRankExact(c, strong.roles, bar);
    var i :| 0 <= i < |weak.roles| && RoleRank(c, weak.roles[i], -1) >= bar;
    assert weak.roles[i] in strong.roles;
    hide HighestRank, Namespace;
  }

  /** What an allow establishes, whichever check comes first. */
  lemma AllowedExactly(c: Catalog, r: Request, claims: Claims, tenant: string, now: real)
    requires claims.roles != []
    ensures Evaluate(c, r, claims, tenant, now).Allowed? <==>
      && r.scope in c.scopes
      && var spec := c.scopes[r.scope];
      && (spec.tenantBound ==> r.resourceTenant in {None, Some(tenant)})
      && (r.scope in claims.scopes || Namespace(r.scope) + ":*" in claims.scopes)
      && (exists i :: 0 <= i < |claims.roles| && RoleRank(c, claims.roles[i], -1) >= RoleRank(c, spec.minimumRole, 999))
      && AssuranceRank(c, claims.aal, 0) >= AssuranceRank(c, spec.assurance, 999)
      && (spec.requiresStepUp ==> claims.stepUp) && (spec.requiresDualControl ==> claims.dualControl)
      && (forall i :: 0 <= i < |spec.conditions| && spec.conditions[i].kind == "environment_equals" ==>
            spec.conditions[i].value == claims.environment)
  {
    hide HighestRank, Namespace, RoleRank, AssuranceRank;
    if r.scope in c.scopes {
      var spec := c.scopes[r.scope];
      var bar := RoleRank(c, spec.minimumRole, 999);
      HighestRankExact(c, claims.roles, bar);
      assert AnyFails(spec.conditions, claims.environment) <==>
             exists i :: 0 <= i < |spec.conditions| && spec.conditions[i].kind == "environment_equals"
                         && spec.conditions[i].value != claims.environment;
      assert (spec.tenantBound && r.resourceTenant.Some? && r.resourceTenant.value != tenant)
         <==> !(spec.tenantBound ==> r.resourceTenant in {None, Some(tenant)});
    }
  }

  /** The namespace of a scope is what stands before its first colon. */
  lemma NamespaceExact(head: string, rest: string)
    requires ':' !in head
    ensures Namespace(head) == head && Namespace(head + ":" + rest) == head
  {
    hide Split;
    SplitNone(head, ':');
    SplitFirst(head, ':', rest);
    assert head + ":" + rest == head + [':'] + rest;
  }

  /** Some role reaches the rank the scope asks for; an unknown role ranks -1, an unknown minimum 999. */
  ghost predicate Ranked(c: Catalog, spec: ScopeSpec, roles: seq<string>) {
    var bar := if spec.minimumRole in c.roles then c.roles[spec.minimumRole] else 999;
    if roles == [] then bar <= -1
    else exists role :: role in roles && (if role in c.roles then c.roles[role] else -1) >= bar
  }

  /** Likewise the assurance level; an unknown one ranks 0. */
  ghost predicate Assured(c: Catalog, spec: ScopeSpec, aal: string) {
    (if aal in c.assurance && c.assurance[aal].Some? then c.assurance[aal].value else 0)
    >= (if spec.assurance in c.assurance && c.assurance[spec.assurance].Some? then c.assurance[spec.assurance].value
        else 999)
  }

  lemma RankedExact(c: Catalog, spec: ScopeSpec, roles: seq<string>)
    ensures Ranked(c, spec, roles) <==> HighestRank(c, roles) >= RoleRank(c, spec.minimumRole, 999)
  {
    hide HighestRank;
    var bar := RoleRank(c, spec.minimumRole, 999);
    HighestRankExact(c, roles, bar);
    if roles != [] && Ranked(c, spec, roles) {
      var role :| role in roles && (if role in c.roles then c.roles[role] else -1) >= bar;
      var i :| 0 <= i < |roles| && roles[i] == role;
      assert RoleRank(c, roles[i], -1) >= bar;
    }
  }

  /** Every answer: the first check that fails gives the code, and an allow carries its scope, obligations and times. */
  lemma ResultExact(c: Catalog, r: Request, claims: Claims, tenant: string, now: real)
    ensures var result := Evaluate(c, r, claims, tenant, now);
      if r.scope !in c.scopes then result == Refused(UnknownScope)
      else
        var spec, wide := c.scopes[r.scope], Namespace(r.scope) + ":*";
        if spec.tenantBound && r.resourceTenant.Some? && r.resourceTenant.value != tenant
        then result == Refused(TenantBoundaryViolation)
        else if r.scope !in claims.scopes && wide !in claims.scopes then result == Refused(ScopeDenied)
        else if !Ranked(c, spec, claims.roles) then result == Refused(RoleInsufficient)
        else if !Assured(c, spec, claims.aal) then result == Refused(AssuranceInsufficient)
        else if spec.requiresStepUp && !claims.stepUp then result == Refused(StepUpRequired)
        else if spec.requiresDualControl && !claims.dualControl then result == Refused(DualControlRequired)
        else if exists i :: 0 <= i < |spec.conditions| && spec.conditions[i].kind == "environment_equals"
                            && spec.conditions[i].value != claims.environment
        then result == Refused(ConditionFailed)
        else
          && result.Allowed? && result.matchedScope == (if r.scope in claims.scopes then r.scope else wide)
          && result.obligations == ["audit", "tenant-isolation"]
                                   + (if spec.requiresStepUp then ["step-up"] else [])
                                   + (if spec.requiresDualControl then ["dual-control"] else [])
          && result.createdAt == now
          && result.expiresAt <= claims.exp && result.expiresAt <= now + 30.0
          && (result.expiresAt == claims.exp || result.expiresAt == now + 30.0)
  {
    hide HighestRank, Namespace, RoleRank, AssuranceRank, Ranked, Assured;
    if r.scope in c.scopes {
      var spec := c.scopes[r.scope];
      RankedExact(c, spec, claims.roles);
      AssuredExact(c, spec, claims.aal);
      FailureExact(spec.conditions, claims.environment);
      hide AnyFails;
    }
  }

  lemma AssuredExact(c: Catalog, spec: ScopeSpec, aal: string)
    ensures Assured(c, spec, aal) <==> AssuranceRank(c, aal, 0) >= AssuranceRank(c, spec.assurance, 999)
  {
  }

  lemma FailureExact(conditions: seq<Condition>, environment: string)
    ensures AnyFails(conditions, environment) <==>
            exists i :: 0 <= i < |conditions| && conditions[i].kind == "environment_equals"
                        && conditions[i].value != environment
  {
    if i :| 0 <= i < |conditions| && conditions[i].kind == "environment_equals" && conditions[i].value != environment {
      assert Fails(conditions[i], environment);
    }
  }
}
