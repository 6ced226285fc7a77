/** A token on its way through the Python runtime: checked, consumed once, and then decided on. */
module TokenGate {
  import opened Options
  import opened ReplayStore
  import opened TenantKeys
  import S = ScopeRuntime

  /** A decoded token; the claims carry its expiry. */
  datatype Token = Token(tenant: string, jti: string, iat: real, claims: S.Claims)

  datatype Timing = Timing(clockSkew: real, maxLifetime: real)

  /**
   * One presentation of a token, with the clock readings of its check and of its consumption. The token is
   * absent when decoding it fails (signature, issuer, audience) or a required claim is missing or malformed.
   */
  datatype Attempt = Attempt(token: Option<Token>, checkedAt: real, consumedAt: real)

  datatype Answer =
    | TokenRejected
    | TimeInvalid
    | NotConsumed(outcome: Outcome)
    | Decided(result: S.Result)

  predicate InTime(t: Timing, token: Token, checkedAt: real) {
    && token.iat <= checkedAt + t.clockSkew && token.claims.exp > checkedAt
    && token.claims.exp - token.iat <= t.maxLifetime
  }

  predicate Verified(t: Timing, a: Attempt) {
    a.token.Some? && InTime(t, a.token.value, a.checkedAt)
  }

  function CallOf(a: Attempt): Call
    requires a.token.Some?
  {
    Call(KeyOf(a.token.value.tenant, a.token.value.jti), a.token.value.claims.exp, a.consumedAt)
  }

  /** The store after one presentation, and the answer. */
  ghost function Authorized(c: S.Catalog, t: Timing, values: map<string, real>, capacity: int, a: Attempt,
                            request: S.Request, evaluatedAt: real): (map<string, real>, Answer)
  {
    if a.token.None? then (values, TokenRejected)
    else if !Verified(t, a) then (values, TimeInvalid)
    else
      var (after, outcome) := Step(values, capacity, CallOf(a));
      if outcome != Accepted then (after, NotConsumed(outcome))
      else (after, Decided(S.Evaluate(c, request, a.token.value.claims, a.token.value.tenant, evaluatedAt)))
  }

  class Runtime {
    const catalog: S.Catalog
    const timing: Timing
    const replay: FastReplayStore

    constructor (catalog: S.Catalog, timing: Timing)
      ensures this.catalog == catalog && this.timing == timing
      ensures fresh(replay) && replay.Valid() && replay.values == map[] && replay.capacity == 100000
    {
      this.catalog, this.timing := catalog, timing;
      replay := new FastReplayStore();
    }

    method Authorize(a: Attempt, request: S.Request, evaluatedAt: real) returns (answer: Answer)
      requires replay.Valid()
      modifies replay
      ensures replay.Valid()
      ensures (replay.values, answer)
           == Authorized(catalog, timing, old(replay.values), replay.capacity, a, request, evaluatedAt)
    {
      if a.token.None? {
        return TokenRejected;
      }
      var token := a.token.value;
      if token.iat > a.checkedAt + timing.clockSkew || token.claims.exp <= a.checkedAt
         || token.claims.exp - token.iat > timing.maxLifetime {
        return TimeInvalid;
      }
      var outcome := replay.Consume(token.tenant, token.jti, token.claims.exp, a.consumedAt);
      if outcome != Accepted {
        return NotConsumed(outcome);
      }
      return Decided(S.Evaluate(catalog, request, token.claims, token.tenant, evaluatedAt));
    }
  }

  // Runs, in the order in which the lock of the store serialises them.

  /** The calls that reach the store. */
  function Consumes(t: Timing, attempts: seq<Attempt>): seq<Call> {
    if attempts == [] then []
    else
      var past, a := Consumes(t, attempts[..|attempts| - 1]), attempts[|attempts| - 1];
      if Verified(t, a) then past + [CallOf(a)] else past
  }

  ghost function Values(t: Timing, capacity: int, attempts: seq<Attempt>): map<string, real> {
    Run(capacity, Consumes(t, attempts))
  }

  /** Attempt j passes the check and its token is consumed, so that it is decided on. */
  ghost predicate Through(t: Timing, capacity: int, attempts: seq<Attempt>, j: nat)
    requires j < |attempts|
  {
    Verified(t, attempts[j]) && Step(Values(t, capacity, attempts[..j]), capacity, CallOf(attempts[j])).1 == Accepted
  }

  /** Presenting one more token extends the run, and is decided on exactly when it is let through. */
  lemma AuthorizedExtendsRun(c: S.Catalog, t: Timing, capacity: int, attempts: seq<Attempt>, a: Attempt,
                             request: S.Request, evaluatedAt: real)
    ensures var (after, answer) := Authorized(c, t, Values(t, capacity, attempts), capacity, a, request, evaluatedAt);
      && after == Values(t, capacity, attempts + [a])
      && (answer.Decided? <==> Through(t, capacity, attempts + [a], |attempts|))
      && (Verified(t, a) ==>
            var token := a.token.value;
            Consumes(t, attempts + [a])
            == Consumes(t, attempts) + [Call(token.tenant + ":" + token.jti, token.claims.exp, a.consumedAt)])
  {
    hide Step, Verified, S.Evaluate;
    assert (attempts + [a])[..|attempts|] == attempts;
    var past := Consumes(t, attempts);
    if a.token.Some? {
      assert (past + [CallOf(a)])[..|past|] == past;
    }
    if Verified(t, a) {
      VerifiedHasToken(t, a);
    }
  }

  lemma VerifiedHasToken(t: Timing, a: Attempt)
    requires Verified(t, a)
    ensures a.token.Some? && a.token.value.claims.exp > a.checkedAt
  {
  }

  // Attempts and the calls of the store.

  function Position(t: Timing, attempts: seq<Attempt>, j: nat): nat
    requires j <= |attempts|
  {
    |Consumes(t, attempts[..j])|
  }

  lemma {:induction false} ConsumesPrefix(t: Timing, attempts: seq<Attempt>, j: nat)
    requires j <= |attempts|
    ensures var calls, p := Consumes(t, attempts), Position(t, attempts, j);
      && p <= |calls| && calls[..p] == Consumes(t, attempts[..j])
      && (j < |attempts| && Verified(t, attempts[j]) ==> p < |calls| && calls[p] == CallOf(attempts[j]))
  {
    hide Verified;
    if j == |attempts| {
      assert attempts[..j] == attempts;
    } else {
      var n := |attempts| - 1;
      if Verified(t, attempts[n]) {
        VerifiedHasToken(t, attempts[n]);
      }
      assert attempts[..n][..j] == attempts[..j];
      ConsumesPrefix(t, attempts[..n], j);
    }
  }

  lemma {:induction false} Origin(t: Timing, attempts: seq<Attempt>, p: nat) returns (i: nat)
    requires p < |Consumes(t, attempts)|
    ensures i < |attempts| && Verified(t, attempts[i]) && Position(t, attempts, i) == p
  {
    hide Verified;
    var n := |attempts| - 1;
    if p < |Consumes(t, attempts[..n])| {
      i := Origin(t, attempts[..n], p);
      assert attempts[..n][..i] == attempts[..i];
    } else {
      i := n;
    }
  }

  lemma PositionsAscend(t: Timing, attempts: seq<Attempt>, i: nat, j: nat)
    requires i < j <= |attempts| && Verified(t, attempts[i])
    ensures Position(t, attempts, i) < Position(t, attempts, j)
  {
    hide Verified, Consumes;
    assert attempts[..j][..i] == attempts[..i];
    ConsumesPrefix(t, attempts[..j], i);
  }

  lemma ThroughIsAccepted(t: Timing, capacity: int, attempts: seq<Attempt>, j: nat)
    requires j < |attempts| && Verified(t, attempts[j])
    ensures var calls, p := Consumes(t, attempts), Position(t, attempts, j);
      && p < |calls| && calls[p] == CallOf(attempts[j])
      && OutcomeAt(capacity, calls, p) == Step(Values(t, capacity, attempts[..j]), capacity, CallOf(attempts[j])).1
  {
    hide Verified, Consumes, Step, Run;
    ConsumesPrefix(t, attempts, j);
  }

  // When a token is let through again.

  /** No clock reading of the store after attempt i, up to attempt j, has reached the expiry of i. */
  ghost predicate Unreached(t: Timing, attempts: seq<Attempt>, i: nat, j: nat)
    requires i < j < |attempts| && attempts[i].token.Some?
  {
    forall m :: i < m <= j && Verified(t, attempts[m]) ==> attempts[m].consumedAt < attempts[i].token.value.claims.exp
  }

  ghost predicate SameKey(attempts: seq<Attempt>, i: nat, j: nat)
    requires i < |attempts| && j < |attempts|
  {
    attempts[i].token.Some? && attempts[j].token.Some? && CallOf(attempts[i]).key == CallOf(attempts[j]).key
  }

  lemma HoldsIsUnreached(t: Timing, capacity: int, attempts: seq<Attempt>, i: nat, j: nat)
    requires i < j < |attempts| && Verified(t, attempts[i]) && Verified(t, attempts[j])
    ensures var calls := Consumes(t, attempts);
      var p, q := Position(t, attempts, i), Position(t, attempts, j);
      p < q < |calls|
      && (Holds(capacity, calls, p, q + 1) <==> Through(t, capacity, attempts, i) && Unreached(t, attempts, i, j))
  {
    hide Consumes, Step, Run, OutcomeAt, Position, Values;
    var calls := Consumes(t, attempts);
    var p, q := Position(t, attempts, i), Position(t, attempts, j);
    ThroughIsAccepted(t, capacity, attempts, i);
    ThroughIsAccepted(t, capacity, attempts, j);
    PositionsAscend(t, attempts, i, j);
    if Holds(capacity, calls, p, q + 1) {
      forall m | i < m <= j && Verified(t, attempts[m])
        ensures attempts[m].consumedAt < attempts[i].token.value.claims.exp
      {
        ThroughIsAccepted(t, capacity, attempts, m);
        PositionsAscend(t, attempts, i, m);
        if m < j {
          PositionsAscend(t, attempts, m, j);
        }
        assert calls[Position(t, attempts, m)].now < calls[p].exp;
      }
    }
    if Unreached(t, attempts, i, j) {
      forall r | p < r < q + 1
        ensures calls[r].now < calls[p].exp
      {
        var m := Origin(t, attempts, r);
        ThroughIsAccepted(t, capacity, attempts, m);
        if m < i {
          PositionsAscend(t, attempts, m, i);
        }
        if j < m {
          PositionsAscend(t, attempts, j, m);
        }
      }
    }
  }

  /** The store has room when attempt j reaches it. */
  ghost predicate Room(t: Timing, capacity: int, attempts: seq<Attempt>, j: nat)
    requires j < |attempts|
  {
    |Purged(Values(t, capacity, attempts[..j]), attempts[j].consumedAt)| < capacity
  }

  /** Attempt i, let through with the key of j, still stands in the way of j. */
  ghost predicate Blocks(t: Timing, capacity: int, attempts: seq<Attempt>, i: nat, j: nat)
    requires i < j < |attempts|
  {
    Through(t, capacity, attempts, i) && SameKey(attempts, i, j) && Unreached(t, attempts, i, j)
  }

  /**
   * A presentation is let through exactly when its token passes the check, the store has room, and every earlier
   * one let through with its key has been reached by a later reading of the store's clock.
   */
  lemma ThroughExact(t: Timing, capacity: int, attempts: seq<Attempt>, j: nat)
    requires j < |attempts|
    ensures Through(t, capacity, attempts, j) <==>
      && attempts[j].token.Some?
      && var token, checkedAt := attempts[j].token.value, attempts[j].checkedAt;
      && token.iat <= checkedAt + t.clockSkew && checkedAt < token.claims.exp <= token.iat + t.maxLifetime
      && Room(t, capacity, attempts, j)
      && forall i: nat :: i < j ==> !Blocks(t, capacity, attempts, i, j)
  {
    if Verified(t, attempts[j]) {
      var calls, q := Consumes(t, attempts), Position(t, attempts, j);
      ThroughIsAccepted(t, capacity, attempts, j);
      ReplayExact(capacity, calls, q);
      hide Consumes, Run, Position, Values, Holds, OutcomeAt, Unreached, Verified;
      forall i: nat | i < j && Blocks(t, capacity, attempts, i, j)
        ensures OutcomeAt(capacity, calls, q) == TokenReplay
      {
        HoldsIsUnreached(t, capacity, attempts, i, j);
        ThroughIsAccepted(t, capacity, attempts, i);
      }
      if OutcomeAt(capacity, calls, q) == TokenReplay {
        var p: nat :| p < q && Holds(capacity, calls, p, q + 1) && calls[p].key == calls[q].key;
        var i := Origin(t, attempts, p);
        if j < i {
          PositionsAscend(t, attempts, j, i);
        }
        VerifiedHasToken(t, attempts[i]);
        VerifiedHasToken(t, attempts[j]);
        HoldsIsUnreached(t, capacity, attempts, i, j);
        ThroughIsAccepted(t, capacity, attempts, i);
        assert Blocks(t, capacity, attempts, i, j);
      }
    }
  }

  /** What is let through expires after its check, but no later than the longest lifetime and the skew allow. */
  lemma ThroughExpiresSoon(t: Timing, capacity: int, attempts: seq<Attempt>, j: nat)
    requires j < |attempts| && Through(t, capacity, attempts, j)
    ensures attempts[j].token.Some?
    ensures var exp, checkedAt := attempts[j].token.value.claims.exp, attempts[j].checkedAt;
      checkedAt < exp <= checkedAt + t.clockSkew + t.maxLifetime
  {
    ThroughExact(t, capacity, attempts, j);
    hide Through, Room, Blocks;
  }

  /** The readings of the store's clock never fall. */
  ghost predicate InOrder(t: Timing, attempts: seq<Attempt>) {
    forall i, j :: 0 <= i < j < |attempts| && Verified(t, attempts[i]) && Verified(t, attempts[j]) ==>
      attempts[i].consumedAt <= attempts[j].consumedAt
  }

  /** Each key names one token: presentations that share it share the expiry. */
  ghost predicate OneTokenPerKey(attempts: seq<Attempt>) {
    forall i, j :: 0 <= i < |attempts| && 0 <= j < |attempts| && SameKey(attempts, i, j) ==>
      attempts[i].token.value.claims.exp == attempts[j].token.value.claims.exp
  }

  /**
   * With an ordered clock, a token that was let through is let through again exactly when it expires between
   * its check and its consumption, and the store has room.
   */
  lemma TwiceExact(t: Timing, capacity: int, attempts: seq<Attempt>, i: nat, j: nat)
    requires i < j < |attempts| && SameKey(attempts, i, j) && Through(t, capacity, attempts, i)
    requires InOrder(t, attempts) && OneTokenPerKey(attempts)
    ensures Through(t, capacity, attempts, j) <==>
      var a, exp := attempts[j], attempts[j].token.value.claims.exp;
      Verified(t, a) && a.checkedAt < exp <= a.consumedAt && Room(t, capacity, attempts, j)
  {
    hide Room, Through, SameKey;
    ThroughExact(t, capacity, attempts, j);
    ThroughVerified(t, capacity, attempts, i);
    SharedKeys(attempts, i, j);
    var exp := attempts[j].token.value.claims.exp;
    if Verified(t, attempts[j]) {
      if attempts[j].consumedAt < exp {
        forall m | i < m <= j && Verified(t, attempts[m])
          ensures attempts[m].consumedAt < exp
        {
          assert m < j ==> attempts[m].consumedAt <= attempts[j].consumedAt;
        }
        assert Blocks(t, capacity, attempts, i, j);
      } else {
        forall k: nat | k < j
          ensures !Blocks(t, capacity, attempts, k, j)
        {
          if SameKey(attempts, k, j) {
            SharedKeys(attempts, k, j);
          }
        }
      }
    }
  }

  lemma ThroughVerified(t: Timing, capacity: int, attempts: seq<Attempt>, i: nat)
    requires i < |attempts| && Through(t, capacity, attempts, i)
    ensures Verified(t, attempts[i])
  {
  }

  lemma SharedKeys(attempts: seq<Attempt>, i: nat, j: nat)
    requires i < |attempts| && j < |attempts| && SameKey(attempts, i, j) && OneTokenPerKey(attempts)
    ensures attempts[i].token.Some? && attempts[j].token.Some?
    ensures attempts[i].token.value.claims.exp == attempts[j].token.value.claims.exp
  {
  }

  /** A second allow has expired when it is created: no token yields two decisions that are ever in force. */
  lemma SecondAllowIsExpired(c: S.Catalog, t: Timing, capacity: int, attempts: seq<Attempt>, i: nat, j: nat,
                             request: S.Request, evaluatedAt: real)
    requires i < j < |attempts| && SameKey(attempts, i, j)
    requires Through(t, capacity, attempts, i) && Through(t, capacity, attempts, j)
    requires InOrder(t, attempts) && OneTokenPerKey(attempts) && attempts[j].consumedAt <= evaluatedAt
    ensures var token := attempts[j].token.value;
      var result := S.Evaluate(c, request, token.claims, token.tenant, evaluatedAt);
      result.Allowed? ==> result.expiresAt <= result.createdAt
  {
    TwiceExact(t, capacity, attempts, i, j);
    hide Through, Room, S.AnyFails, S.HighestRank, S.Matched;
  }

  lemma EmptyStoreAccepts(capacity: int, first: Call, second: Call)
    requires capacity > 0 && first.exp <= second.now
    ensures Step(map[], capacity, first) == (map[first.key := first.exp], Accepted)
    ensures Step(map[first.key := first.exp], capacity, second).1 == Accepted
  {
    assert Purged(map[], first.now) == map[];
    assert Purged(map[first.key := first.exp], second.now) == map[];
  }

  /**
   * That happens: a token presented twice, checked both times before its expiry and the second time consumed at
   * or after it, is let through both times.
   */
  lemma LateConsumptionReadmits(t: Timing, capacity: int, a: Attempt, b: Attempt)
    requires capacity > 0 && Verified(t, a) && Verified(t, b) && a.token == b.token
    requires b.token.value.claims.exp <= b.consumedAt
    ensures Through(t, capacity, [a, b], 0) && Through(t, capacity, [a, b], 1)
  {
    hide Step, Purged, Verified;
    VerifiedHasToken(t, a);
    assert [a, b][..0] == [] && [a, b][..1] == [a] && [a][..0] == [];
    assert Consumes(t, [a]) == [CallOf(a)] && [CallOf(a)][..0] == [];
    EmptyStoreAccepts(capacity, CallOf(a), CallOf(b));
  }
}
