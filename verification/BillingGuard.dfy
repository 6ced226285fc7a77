/** Step-up tokens and the authorization of billing operations. */
module BillingGuard {
  import opened Options
  import opened Texts

  datatype Operation = Checkout | Topup | Refund | MarketplacePublish | MarketplacePurchase | AuthorizeRun

  datatype Binding = Binding(tenantId: string, userId: string, operation: Operation)

  /** HMAC-SHA256 printed in base64url, and the base64url reader. */
  datatype Mac = Mac(text: string -> string, decode: string -> seq<int>)

  /** Distinct payloads have distinct codes, and the printed code contains no dot. */
  ghost predicate GoodMac(mac: Mac) {
    && (forall p, q :: mac.decode(mac.text(p)) == mac.decode(mac.text(q)) ==> p == q)
    && (forall p :: '.' !in mac.text(p))
  }

  /** A text of code points, in decimal, each followed by a colon. */
  function CodePoints(s: string): string {
    if s == [] then [] else PrintInt(s[0] as int) + [':'] + CodePoints(s[1..])
  }

  lemma {:induction false} CodePointsInjective(s: string, t: string)
    requires CodePoints(s) == CodePoints(t)
    ensures s == t
  {
    if s != [] && t != [] {
      PrintFreeOf(s[0] as int, ':');
      PrintFreeOf(t[0] as int, ':');
      HeadUnique(PrintInt(s[0] as int), CodePoints(s[1..]), PrintInt(t[0] as int), CodePoints(t[1..]), ':');
      PrintInjective(s[0] as int, t[0] as int);
      CodePointsInjective(s[1..], t[1..]);
    }
  }

  lemma {:induction false} CodePointsFreeOfDots(s: string)
    ensures '.' !in CodePoints(s)
  {
    if s != [] {
      PrintFreeOf(s[0] as int, '.');
      CodePointsFreeOfDots(s[1..]);
    }
  }

  function Bytes(s: string): (r: seq<int>)
    ensures |r| == |s| && forall i :: 0 <= i < |r| ==> r[i] == s[i] as int
  {
    seq(|s|, i requires 0 <= i < |s| => s[i] as int)
  }

  /** The assumption can be met. */
  lemma GoodMacExists()
    ensures exists mac :: GoodMac(mac)
  {
    var mac := Mac(s => CodePoints(s), s => Bytes(s));
    forall p
      ensures '.' !in mac.text(p)
    {
      CodePointsFreeOfDots(p);
    }
    forall p, q | mac.decode(mac.text(p)) == mac.decode(mac.text(q))
      ensures p == q
    {
      assert Bytes(CodePoints(p)) == Bytes(CodePoints(q));
      assert CodePoints(p) == CodePoints(q);
      CodePointsInjective(p, q);
    }
    assert GoodMac(mac);
  }

  const STEP_UP_PREFIX := "bst1"
  const DEFAULT_TTL_MS := 300_000
  const MAX_TTL_MS := 900_000
  const FUTURE_SKEW_MS := 30_000

  const PRIVILEGED_ROLES: set<string> := {"SovereignOwner", "governance_admin"}

  const ALL_BILLING_SCOPES: seq<string> := [
    "billing:checkout", "billing:topup", "billing:refund", "billing:authorize-run",
    "marketplace:publish", "marketplace:purchase"]

  function OperationName(op: Operation): string {
    match op
    case Checkout => "checkout"
    case Topup => "topup"
    case Refund => "refund"
    case MarketplacePublish => "marketplace-publish"
    case MarketplacePurchase => "marketplace-purchase"
    case AuthorizeRun => "authorize-run"
  }

  function RequiredScope(op: Operation): string {
    match op
    case Checkout => "billing:checkout"
    case Topup => "billing:topup"
    case Refund => "billing:refund"
    case MarketplacePublish => "marketplace:publish"
    case MarketplacePurchase => "marketplace:purchase"
    case AuthorizeRun => "billing:authorize-run"
  }

  function Payload(b: Binding, expiresAt: int): string {
    b.tenantId + ":" + b.userId + ":" + OperationName(b.operation) + ":" + PrintInt(expiresAt)
  }

  function Expiry(now: int, ttlMs: int): int {
    var ttl := if ttlMs < 1_000 then 1_000 else ttlMs;
    now + if ttl > MAX_TTL_MS then MAX_TTL_MS else ttl
  }

  function Issue(mac: Mac, b: Binding, now: int, ttlMs: int := DEFAULT_TTL_MS): string {
    var expiresAt := Expiry(now, ttlMs);
    STEP_UP_PREFIX + "." + PrintInt(expiresAt) + "." + mac.text(Payload(b, expiresAt))
  }

  predicate Verifies(mac: Mac, token: Option<string>, expected: Binding, now: int) {
    token.Some? && token.value != "" &&
    var parts := Split(token.value, '.');
    |parts| == 3 && parts[0] == STEP_UP_PREFIX &&
    var expiresAt := ParseInt(parts[1]);
    && expiresAt.Some? && now < expiresAt.value <= now + MAX_TTL_MS + FUTURE_SKEW_MS
    && mac.decode(parts[2]) == mac.decode(mac.text(Payload(expected, expiresAt.value)))
  }

  /** The expiry asked for, but at least a second and at most a quarter of an hour away; five minutes by default. */
  lemma ExpiryExact(mac: Mac, b: Binding, now: int, ttlMs: int)
    ensures ttlMs <= 1_000 ==> Expiry(now, ttlMs) == now + 1_000
    ensures ttlMs >= 900_000 ==> Expiry(now, ttlMs) == now + 900_000
    ensures 1_000 <= ttlMs <= 900_000 ==> Expiry(now, ttlMs) == now + ttlMs
    ensures Issue(mac, b, now) == Issue(mac, b, now, 300_000)
  {
  }

  /** The text of a token: prefix, expiry, and the code over tenant, user, operation and expiry joined by colons. */
  lemma TokenText(mac: Mac, b: Binding, now: int, ttlMs: int)
    ensures var e := PrintInt(Expiry(now, ttlMs));
      var operation := match b.operation
        case Checkout => "checkout"
        case Topup => "topup"
        case Refund => "refund"
        case MarketplacePublish => "marketplace-publish"
        case MarketplacePurchase => "marketplace-purchase"
        case AuthorizeRun => "authorize-run";
      Issue(mac, b, now, ttlMs)
      == "bst1" + "." + e + "." + mac.text(b.tenantId + ":" + b.userId + ":" + operation + ":" + e)
  {
    hide PrintInt, Expiry;
  }

  // The step-up round trip.

  lemma OperationNames(p: Operation, q: Operation)
    ensures ':' !in OperationName(p)
    ensures OperationName(p) == OperationName(q) ==> p == q
  {
    assert OperationName(p) != [] && OperationName(q) != [];
    if OperationName(p) == OperationName(q) {
      assert OperationName(p)[|OperationName(p)| - 3..] == OperationName(q)[|OperationName(q)| - 3..];
      assert |OperationName(p)| == |OperationName(q)|;
    }
  }

  /** Two payloads are equal exactly when operation, expiry and the joined tenant and user are. */
  lemma PayloadExact(a: Binding, e: int, b: Binding, f: int)
    ensures Payload(a, e) == Payload(b, f) <==>
            a.tenantId + ":" + a.userId == b.tenantId + ":" + b.userId && a.operation == b.operation && e == f
  {
    PrintFreeOf(e, ':');
    PrintFreeOf(f, ':');
    OperationNames(a.operation, b.operation);
    OperationNames(b.operation, a.operation);
    if Payload(a, e) == Payload(b, f) {
      var x, y := a.tenantId + ":" + a.userId, b.tenantId + ":" + b.userId;
      hide OperationName, PrintInt;
      assert Payload(a, e) == (x + ":" + OperationName(a.operation)) + [':'] + PrintInt(e);
      assert Payload(b, f) == (y + ":" + OperationName(b.operation)) + [':'] + PrintInt(f);
      TailUnique(x + ":" + OperationName(a.operation), PrintInt(e),
                 y + ":" + OperationName(b.operation), PrintInt(f), ':');
      assert x + ":" + OperationName(a.operation) == x + [':'] + OperationName(a.operation);
      assert y + ":" + OperationName(b.operation) == y + [':'] + OperationName(b.operation);
      TailUnique(x, OperationName(a.operation), y, OperationName(b.operation), ':');
      PrintInjective(e, f);
    }
  }

  lemma TokenParts(mac: Mac, b: Binding, now: int, ttlMs: int)
    requires GoodMac(mac)
    ensures var e := Expiry(now, ttlMs);
      Split(Issue(mac, b, now, ttlMs), '.') == [STEP_UP_PREFIX, PrintInt(e), mac.text(Payload(b, e))]
  {
    var e := Expiry(now, ttlMs);
    var code := mac.text(Payload(b, e));
    PrintFreeOf(e, '.');
    assert '.' !in STEP_UP_PREFIX;
    hide Payload, PrintInt, Expiry, Split;
    SplitNone(code, '.');
    SplitFirst(PrintInt(e), '.', code);
    SplitFirst(STEP_UP_PREFIX, '.', PrintInt(e) + ['.'] + code);
    assert Issue(mac, b, now, ttlMs) == STEP_UP_PREFIX + ['.'] + (PrintInt(e) + ['.'] + code);
  }

  /** An issued token verifies exactly for its operation and joined tenant and user, inside its time window. */
  lemma RoundTripExact(mac: Mac, issued: Binding, issuedAt: int, ttlMs: int, expected: Binding, now: int)
    requires GoodMac(mac)
    ensures Verifies(mac, Some(Issue(mac, issued, issuedAt, ttlMs)), expected, now) <==>
      && expected.operation == issued.operation
      && expected.tenantId + ":" + expected.userId == issued.tenantId + ":" + issued.userId
      && now < Expiry(issuedAt, ttlMs) <= now + 930_000
  {
    var e := Expiry(issuedAt, ttlMs);
    TokenParts(mac, issued, issuedAt, ttlMs);
    ParsePrinted(e);
    PayloadExact(issued, e, expected, e);
    assert Issue(mac, issued, issuedAt, ttlMs) != [];
    hide Payload, PrintInt, Expiry, Split, ParseInt;
    var p, q := Payload(issued, e), Payload(expected, e);
    assert mac.decode(mac.text(p)) == mac.decode(mac.text(q)) ==> p == q;
  }

  /** With tenant ids free of ':' that is the issued binding and no other. */
  lemma RoundTrip(mac: Mac, issued: Binding, issuedAt: int, ttlMs: int, expected: Binding, now: int)
    requires GoodMac(mac)
    requires ':' !in issued.tenantId && ':' !in expected.tenantId
    ensures Verifies(mac, Some(Issue(mac, issued, issuedAt, ttlMs)), expected, now) <==>
            expected == issued && now < Expiry(issuedAt, ttlMs) <= now + 930_000
  {
    RoundTripExact(mac, issued, issuedAt, ttlMs, expected, now);
    var a, b := issued.tenantId, expected.tenantId;
    if b + ":" + expected.userId == a + ":" + issued.userId {
      assert b + [':'] + expected.userId == a + [':'] + issued.userId;
      HeadUnique(b, expected.userId, a, issued.userId, ':');
    }
  }

  /** Without that, a token of tenant "a:b" and user "c" also verifies for tenant "a" and user "b:c". */
  lemma ColonInTenantConfuses(mac: Mac, op: Operation, now: int)
    requires GoodMac(mac)
    ensures Verifies(mac, Some(Issue(mac, Binding("a:b", "c", op), now, DEFAULT_TTL_MS)), Binding("a", "b:c", op), now)
  {
    RoundTripExact(mac, Binding("a:b", "c", op), now, DEFAULT_TTL_MS, Binding("a", "b:c", op), now);
    assert "a:b" + ":" + "c" == "a" + ":" + "b:c";
  }

  // Scopes.

  function WithMissing(scopes: seq<string>, required: seq<string>): seq<string>
    decreases |required|
  {
    if required == [] then scopes
    else WithMissing(if required[0] in scopes then scopes else scopes + [required[0]], required[1..])
  }

  function EffectiveScopes(role: string, scope: string): seq<string> {
    if role in PRIVILEGED_ROLES then WithMissing(Words(scope), ALL_BILLING_SCOPES) else Words(scope)
  }

  method DeriveBillingScopes(role: string, scope: string) returns (scopes: seq<string>)
    ensures scopes == EffectiveScopes(role, scope)
  {
    hide Words, WithMissing;
    scopes := Words(scope);
    if role !in PRIVILEGED_ROLES {
      return;
    }
    assert ALL_BILLING_SCOPES[0..] == ALL_BILLING_SCOPES;
    for i := 0 to |ALL_BILLING_SCOPES|
      invariant WithMissing(scopes, ALL_BILLING_SCOPES[i..]) == EffectiveScopes(role, scope)
    {
      assert ALL_BILLING_SCOPES[i..][1..] == ALL_BILLING_SCOPES[i + 1..];
      NextMissing(scopes, ALL_BILLING_SCOPES[i..]);
      if ALL_BILLING_SCOPES[i] !in scopes {
        scopes := scopes + [ALL_BILLING_SCOPES[i]];
      }
    }
    NoneMissing(scopes);
  }

  lemma NextMissing(scopes: seq<string>, required: seq<string>)
    requires required != []
    ensures WithMissing(scopes, required)
         == WithMissing(if required[0] in scopes then scopes else scopes + [required[0]], required[1..])
  {
  }

  lemma NoneMissing(scopes: seq<string>)
    ensures WithMissing(scopes, []) == scopes
  {
  }

  /** The signed scopes stay, in order and in front; the missing required ones follow, each once. */
  lemma {:induction false} WithMissingExact(scopes: seq<string>, required: seq<string>)
    ensures var r := WithMissing(scopes, required);
      && scopes <= r
      && (forall x :: x in r <==> x in scopes || x in required)
      && (forall i, j :: |scopes| <= i < |r| && 0 <= j < i ==> r[i] != r[j])
    decreases |required|
  {
    if required != [] {
      var next := if required[0] in scopes then scopes else scopes + [required[0]];
      WithMissingExact(next, required[1..]);
      assert forall x :: x in required <==> x == required[0] || x in required[1..];
    }
  }

  /** Signed scopes for everyone, the billing catalogue on top for the two privileged roles, and nothing else. */
  lemma ScopesExact(role: string, scope: string, x: string)
    ensures x in EffectiveScopes(role, scope) <==>
            x in Words(scope) || (role in PRIVILEGED_ROLES && x in ALL_BILLING_SCOPES)
  {
    WithMissingExact(Words(scope), ALL_BILLING_SCOPES);
  }

  // Authorization.

  datatype Result = Ok | ScopeRequired | StepUpRequired | Forbidden

  predicate NeedsStepUp(op: Operation) {
    op == Refund || op == Topup
  }

  predicate HasBillingAuthorization(op: Operation, role: string, scopes: seq<string>, stepUpVerified: bool) {
    && RequiredScope(op) in scopes
    && (NeedsStepUp(op) ==> role in PRIVILEGED_ROLES && stepUpVerified)
    && (op == MarketplacePublish ==> role in PRIVILEGED_ROLES)
  }

  method AuthorizeBillingOperation(mac: Mac, b: Binding, role: string, scope: string, token: Option<string>, now: int)
    returns (result: Result)
    ensures result == Decision(mac, b, role, scope, token, now)
  {
    var scopes := DeriveBillingScopes(role, scope);
    var needsStepUp := NeedsStepUp(b.operation);
    var stepUpVerified := needsStepUp && Verifies(mac, token, b, now);
    if HasBillingAuthorization(b.operation, role, scopes, stepUpVerified) {
      return Ok;
    }
    if RequiredScope(b.operation) !in scopes {
      return ScopeRequired;
    }
    if needsStepUp && !stepUpVerified {
      return StepUpRequired;
    }
    return Forbidden;
  }

  function Decision(mac: Mac, b: Binding, role: string, scope: string, token: Option<string>, now: int): Result {
    var scopes := EffectiveScopes(role, scope);
    var stepUpVerified := NeedsStepUp(b.operation) && Verifies(mac, token, b, now);
    if HasBillingAuthorization(b.operation, role, scopes, stepUpVerified) then Ok
    else if RequiredScope(b.operation) !in scopes then ScopeRequired
    else if NeedsStepUp(b.operation) && !stepUpVerified then StepUpRequired
    else Forbidden
  }

  lemma RequiredInCatalogue(op: Operation)
    ensures RequiredScope(op) in ALL_BILLING_SCOPES
  {
    assert ALL_BILLING_SCOPES[0] == RequiredScope(Checkout) && ALL_BILLING_SCOPES[1] == RequiredScope(Topup);
    assert ALL_BILLING_SCOPES[2] == RequiredScope(Refund) && ALL_BILLING_SCOPES[3] == RequiredScope(AuthorizeRun);
    assert ALL_BILLING_SCOPES[4] == RequiredScope(MarketplacePublish);
    assert ALL_BILLING_SCOPES[5] == RequiredScope(MarketplacePurchase);
  }

  /** The scope each operation needs. */
  lemma RequiredScopes()
    ensures RequiredScope(Checkout) == "billing:checkout" && RequiredScope(Topup) == "billing:topup"
    ensures RequiredScope(Refund) == "billing:refund" && RequiredScope(AuthorizeRun) == "billing:authorize-run"
    ensures RequiredScope(MarketplacePublish) == "marketplace:publish"
    ensures RequiredScope(MarketplacePurchase) == "marketplace:purchase"
  {
  }

  /**
   * Who may do what: refund and topup need a privileged role and a verifying token; publishing a privileged
   * role; the rest a privileged role or the signed scope. Each refusal names the first thing missing.
   */
  lemma DecisionExact(mac: Mac, b: Binding, role: string, scope: string, token: Option<string>, now: int)
    ensures var privileged := role == "SovereignOwner" || role == "governance_admin";
      var scoped := privileged || match b.operation
        case Checkout => "billing:checkout" in Words(scope)
        case Topup => "billing:topup" in Words(scope)
        case Refund => "billing:refund" in Words(scope)
        case MarketplacePublish => "marketplace:publish" in Words(scope)
        case MarketplacePurchase => "marketplace:purchase" in Words(scope)
        case AuthorizeRun => "billing:authorize-run" in Words(scope);
      var guarded := b.operation == Refund || b.operation == Topup;
      var stepped := !guarded || Verifies(mac, token, b, now);
      && (Decision(mac, b, role, scope, token, now) == Ok <==>
            if guarded then privileged && stepped
            else if b.operation == MarketplacePublish then privileged
            else scoped)
      && (Decision(mac, b, role, scope, token, now) == ScopeRequired <==> !scoped)
      && (Decision(mac, b, role, scope, token, now) == StepUpRequired <==> scoped && !stepped)
      && (Decision(mac, b, role, scope, token, now) == Forbidden <==>
            scoped && stepped && !privileged && (guarded || b.operation == MarketplacePublish))
  {
    ScopesExact(role, scope, RequiredScope(b.operation));
    RequiredInCatalogue(b.operation);
    RequiredScopes();
    hide Verifies, EffectiveScopes, RequiredScope;
  }

  /** A refund or topup backed by an issued token succeeds exactly for its own binding, role and time window. */
  lemma IssuedTokenAuthorizes(mac: Mac, issued: Binding, issuedAt: int, ttlMs: int, b: Binding, role: string,
                              scope: string, now: int)
    requires GoodMac(mac) && (b.operation == Refund || b.operation == Topup)
    requires ':' !in issued.tenantId && ':' !in b.tenantId
    ensures Decision(mac, b, role, scope, Some(Issue(mac, issued, issuedAt, ttlMs)), now) == Ok <==>
            && (role == "SovereignOwner" || role == "governance_admin") && b == issued
            && now < Expiry(issuedAt, ttlMs) <= now + 930_000
  {
    hide Issue, Verifies, Decision, Expiry;
    DecisionExact(mac, b, role, scope, Some(Issue(mac, issued, issuedAt, ttlMs)), now);
    RoundTrip(mac, issued, issuedAt, ttlMs, b, now);
  }
}
