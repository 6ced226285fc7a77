/** Single-use token ids: a dictionary of expiries with a heap that finds the expired ones. */
module ReplayStore {
  import opened Collections
  import opened TenantKeys

  /** A heap entry: expiry, then key. */
  type Entry = (real, string)

  datatype Outcome = Accepted | TokenReplay | StoreFull

  // The heap, seen through the contract of heapq: the first entry is a least one.

  ghost predicate HeapOrdered(heap: seq<Entry>) {
    forall i, j :: 0 <= i < j < |heap| ==> heap[i].0 <= heap[j].0
  }

  function HeapPush(heap: seq<Entry>, e: Entry): seq<Entry> {
    if heap == [] || e.0 < heap[0].0 then [e] + heap else [heap[0]] + HeapPush(heap[1..], e)
  }

  lemma {:induction false} HeapPushAdds(heap: seq<Entry>, e: Entry)
    ensures multiset(HeapPush(heap, e)) == multiset(heap) + multiset{e}
  {
    if heap != [] && e.0 >= heap[0].0 {
      HeapPushAdds(heap[1..], e);
      assert heap == [heap[0]] + heap[1..];
    }
  }

  lemma {:induction false} HeapPushOrders(heap: seq<Entry>, e: Entry)
    requires HeapOrdered(heap)
    ensures HeapOrdered(HeapPush(heap, e))
  {
    if heap != [] && e.0 >= heap[0].0 {
      var rest := HeapPush(heap[1..], e);
      HeapPushOrders(heap[1..], e);
      HeapPushAdds(heap[1..], e);
      hide HeapPush;
      NotEarlier(heap[0].0, e, heap[1..], rest);
    }
  }

  lemma NotEarlier(least: real, e: Entry, s: seq<Entry>, rest: seq<Entry>)
    requires least <= e.0 && (forall i :: 0 <= i < |s| ==> least <= s[i].0)
    requires multiset(rest) == multiset(s) + multiset{e}
    ensures forall i :: 0 <= i < |rest| ==> least <= rest[i].0
  {
    forall i | 0 <= i < |rest|
      ensures least <= rest[i].0
    {
      assert rest[i] in multiset(rest);
    }
  }

  /** The (expiry, key) pairs of the dictionary. */
  ghost function Pairs(values: map<string, real>): set<Entry> {
    set k | k in values :: (values[k], k)
  }

  lemma InPairs(values: map<string, real>)
    ensures forall e: Entry :: e in Pairs(values) <==> e.1 in values && values[e.1] == e.0
  {
    forall e: Entry | e.1 in values && values[e.1] == e.0
      ensures e in Pairs(values)
    {
      assert e == (values[e.1], e.1);
    }
  }

  /** What is left after removing every id whose expiry has been reached. */
  ghost function Purged(values: map<string, real>, now: real): map<string, real> {
    map k | k in values && values[k] > now :: values[k]
  }

  /** Heap and dictionary hold exactly the same pairs, each once. */
  ghost predicate InStep(values: map<string, real>, heap: seq<Entry>) {
    HeapOrdered(heap) && multiset(heap) == multiset(Pairs(values))
  }

  class FastReplayStore {
    const capacity: int
    var values: map<string, real>
    var heap: seq<Entry>

    ghost predicate Valid()
      reads this
    {
      InStep(values, heap)
    }

    constructor (capacity: int := 100000)
      ensures Valid() && values == map[] && this.capacity == capacity
    {
      this.capacity := capacity;
      values, heap := map[], [];
    }

    method Consume(tenant: string, jti: string, exp: real, now: real) returns (outcome: Outcome)
      requires Valid()
      modifies this
      ensures Valid()
      ensures (values, outcome) == Step(old(values), capacity, Call(KeyOf(tenant, jti), exp, now))
    {
      hide InStep, HeapPush;
      var key := KeyOf(tenant, jti);
      while |heap| > 0 && heap[0].0 <= now
        invariant Valid()
        invariant forall k :: k in values ==> k in old(values) && values[k] == old(values)[k]
        invariant forall k :: k in old(values) && k !in values ==> old(values)[k] <= now
        decreases |heap|
      {
        var expiry, oldKey := heap[0].0, heap[0].1;
        PopKeepsStep(values, heap);
        heap := heap[1..];
        if oldKey in values && values[oldKey] == expiry {
          values := values - {oldKey};
        } else {
          assert false; // the guard on popping never fails
        }
      }
      NoneExpired(values, heap, now);
      assert values == Purged(old(values), now);
      if key in values {
        return TokenReplay;
      }
      if |values| >= capacity {
        return StoreFull;
      }
      PushKeepsStep(values, heap, key, exp);
      values := values[key := exp];
      heap := HeapPush(heap, (exp, key));
      return Accepted;
    }
  }

  /** The popped entry names a pair of the dictionary, and removing both keeps the two in step. */
  lemma PopKeepsStep(values: map<string, real>, heap: seq<Entry>)
    requires heap != [] && InStep(values, heap)
    ensures heap[0].1 in values && values[heap[0].1] == heap[0].0
    ensures InStep(values - {heap[0].1}, heap[1..])
  {
    assert HeapOrdered(heap[1..]);
    hide Pairs, HeapOrdered;
    InPairs(values);
    InPairs(values - {heap[0].1});
    assert heap[0] in multiset(heap);
    assert heap == [heap[0]] + heap[1..];
    assert Pairs(values - {heap[0].1}) == Pairs(values) - {heap[0]};
    var rest, others := multiset(heap[1..]), multiset(Pairs(values - {heap[0].1}));
    assert multiset(heap) == multiset{heap[0]} + rest;
    RemoveOne(Pairs(values), heap[0]);
    Cancel(heap[0], rest, others);
  }

  lemma PushKeepsStep(values: map<string, real>, heap: seq<Entry>, key: string, exp: real)
    requires InStep(values, heap) && key !in values
    ensures InStep(values[key := exp], HeapPush(heap, (exp, key)))
  {
    hide HeapPush, HeapOrdered, Pairs;
    InPairs(values);
    InPairs(values[key := exp]);
    HeapPushAdds(heap, (exp, key));
    HeapPushOrders(heap, (exp, key));
    AddOne(Pairs(values), (exp, key));
    assert Pairs(values[key := exp]) == Pairs(values) + {(exp, key)};
  }

  lemma NoneExpired(values: map<string, real>, heap: seq<Entry>, now: real)
    requires InStep(values, heap) && (heap == [] || heap[0].0 > now)
    ensures forall k :: k in values ==> values[k] > now
  {
    forall k | k in values
      ensures values[k] > now
    {
      assert (values[k], k) in Pairs(values);
      assert (values[k], k) in multiset(heap);
    }
  }

  // Runs: any sequence of calls, in the order the lock serialises them.

  datatype Call = Call(key: string, exp: real, now: real)

  ghost function Step(values: map<string, real>, capacity: int, call: Call): (map<string, real>, Outcome) {
    var live := Purged(values, call.now);
    if call.key in live then (live, TokenReplay)
    else if |live| >= capacity then (live, StoreFull)
    else (live[call.key := call.exp], Accepted)
  }

  ghost function Run(capacity: int, calls: seq<Call>): map<string, real> {
    if calls == [] then map[]
    else Step(Run(capacity, calls[..|calls| - 1]), capacity, calls[|calls| - 1]).0
  }

  ghost function OutcomeAt(capacity: int, calls: seq<Call>, j: nat): Outcome
    requires j < |calls|
  {
    Step(Run(capacity, calls[..j]), capacity, calls[j]).1
  }

  /** Call i was accepted, and no later call up to n read a clock at or past its expiry. */
  ghost predicate Holds(capacity: int, calls: seq<Call>, i: nat, n: nat)
    requires i < n <= |calls|
  {
    && OutcomeAt(capacity, calls, i) == Accepted
    && forall m :: i < m < n ==> calls[m].now < calls[i].exp
  }

  ghost predicate HeldFor(capacity: int, calls: seq<Call>, key: string, exp: real, i: nat)
    requires i < |calls|
  {
    Holds(capacity, calls, i, |calls|) && calls[i].key == key && calls[i].exp == exp
  }

  /** Refinement: the bounded store is the set of accepted ids not yet passed by the clock. */
  lemma {:induction false} StoreIsHistory(capacity: int, calls: seq<Call>, key: string, exp: real)
    ensures key in Run(capacity, calls) && Run(capacity, calls)[key] == exp
       <==> exists i: nat :: i < |calls| && HeldFor(capacity, calls, key, exp, i)
  {
    hide Step, Holds, HeldFor, OutcomeAt;
    if calls != [] {
      var n := |calls| - 1;
      var init, last := calls[..n], calls[n];
      StoreIsHistory(capacity, init, key, exp);
      HeldForExtends(capacity, calls, key, exp);
      StepContents(Run(capacity, init), capacity, last, key, exp);
      if i: nat :| i < n && HeldFor(capacity, init, key, exp, i) && last.now < exp {
        assert HeldFor(capacity, calls, key, exp, i);
      }
    }
  }

  /** One step keeps exactly the unexpired ids and adds the accepted one. */
  lemma StepContents(values: map<string, real>, capacity: int, call: Call, key: string, exp: real)
    ensures var (after, outcome) := Step(values, capacity, call);
      key in after && after[key] == exp <==>
      || (outcome == Accepted && call.key == key && call.exp == exp)
      || (key in values && values[key] == exp && exp > call.now)
  {
  }

  lemma HeldForExtends(capacity: int, calls: seq<Call>, key: string, exp: real)
    requires calls != []
    ensures var n := |calls| - 1;
      && (forall i: nat :: i < n ==>
            (HeldFor(capacity, calls, key, exp, i) <==>
             HeldFor(capacity, calls[..n], key, exp, i) && calls[n].now < exp))
      && (HeldFor(capacity, calls, key, exp, n) <==>
          && Step(Run(capacity, calls[..n]), capacity, calls[n]).1 == Accepted
          && calls[n].key == key && calls[n].exp == exp)
  {
    hide Step, Run;
    var n := |calls| - 1;
    assert forall i: nat :: i < n ==> calls[..n][..i] == calls[..i];
  }

  /** A call is refused as a replay exactly when an accepted call with its key still holds. */
  lemma ReplayExact(capacity: int, calls: seq<Call>, j: nat)
    requires j < |calls|
    ensures OutcomeAt(capacity, calls, j) == TokenReplay
       <==> exists i: nat :: i < j && Holds(capacity, calls, i, j + 1) && calls[i].key == calls[j].key
  {
    var past, call := calls[..j], calls[j];
    assert calls[..j + 1][..j] == past;
    StoreIsHistoryAt(capacity, past, call.key);
    forall i: nat, exp | i < j
      ensures HeldFor(capacity, past, call.key, exp, i) && call.now < exp
         <==> Holds(capacity, calls, i, j + 1) && calls[i].key == call.key && calls[i].exp == exp
    {
      HoldsPrefix(capacity, calls, i, j);
    }
    if OutcomeAt(capacity, calls, j) == TokenReplay {
      var exp := Run(capacity, past)[call.key];
      assert Stored(capacity, past, call.key, exp);
      var i: nat :| i < j && HeldFor(capacity, past, call.key, exp, i);
      assert Holds(capacity, calls, i, j + 1);
    }
    if i: nat :| i < j && Holds(capacity, calls, i, j + 1) && calls[i].key == call.key {
      assert HeldFor(capacity, past, call.key, calls[i].exp, i);
      assert Stored(capacity, past, call.key, calls[i].exp);
    }
  }

  ghost predicate Stored(capacity: int, calls: seq<Call>, key: string, exp: real) {
    key in Run(capacity, calls) && Run(capacity, calls)[key] == exp
  }

  lemma StoreIsHistoryAt(capacity: int, calls: seq<Call>, key: string)
    ensures forall exp :: Stored(capacity, calls, key, exp) <==>
                          exists i: nat :: i < |calls| && HeldFor(capacity, calls, key, exp, i)
  {
    hide Run, HeldFor;
    forall exp
      ensures Stored(capacity, calls, key, exp) <==>
              exists i: nat :: i < |calls| && HeldFor(capacity, calls, key, exp, i)
    {
      StoreIsHistory(capacity, calls, key, exp);
    }
  }

  lemma HoldsPrefix(capacity: int, calls: seq<Call>, i: nat, j: nat)
    requires i < j < |calls|
    ensures Holds(capacity, calls, i, j + 1)
       <==> Holds(capacity, calls[..j], i, j) && calls[j].now < calls[i].exp
  {
    hide Run, Step;
    assert calls[..j][..i] == calls[..i];
  }

  /** With a clock that never runs backwards an accepted id is refused at every later call before its expiry. */
  lemma RefusedUntilExpiry(capacity: int, calls: seq<Call>, i: nat, j: nat)
    requires i < j < |calls| && calls[i].key == calls[j].key
    requires forall p, q :: 0 <= p < q < |calls| ==> calls[p].now <= calls[q].now
    requires OutcomeAt(capacity, calls, i) == Accepted && calls[j].now < calls[i].exp
    ensures OutcomeAt(capacity, calls, j) == TokenReplay
  {
    assert Holds(capacity, calls, i, j + 1);
    ReplayExact(capacity, calls, j);
  }

  /** The clock is read before the lock is taken; readings that arrive out of order re-admit a live id. */
  lemma OutOfOrderClockReadmits(key: string, other: string)
    requires key != other
    ensures var calls := [Call(key, 10.0, 0.0), Call(other, 30.0, 20.0), Call(key, 10.0, 5.0)];
      OutcomeAt(2, calls, 0) == OutcomeAt(2, calls, 2) == Accepted
  {
    var calls := [Call(key, 10.0, 0.0), Call(other, 30.0, 20.0), Call(key, 10.0, 5.0)];
    assert calls[..0] == [] && calls[..1] == [calls[0]] && calls[..2] == [calls[0], calls[1]];
    assert calls[..2][..1] == calls[..1] && calls[..1][..0] == [];
    assert Run(2, calls[..1]) == map[key := 10.0];
    assert Purged(map[key := 10.0], 20.0) == map[];
    assert Run(2, calls[..2]) == map[other := 30.0];
    assert Purged(map[other := 30.0], 5.0) == map[other := 30.0];
  }

  /** The size never exceeds the capacity, and a refusal for room means exactly that many ids are live. */
  lemma {:induction false} SizeBounded(capacity: nat, calls: seq<Call>)
    ensures |Run(capacity, calls)| <= capacity
    ensures calls != [] && OutcomeAt(capacity, calls, |calls| - 1) == StoreFull ==>
              |Run(capacity, calls)| == capacity
  {
    if calls != [] {
      var n := |calls| - 1;
      SizeBounded(capacity, calls[..n]);
      PurgedSize(Run(capacity, calls[..n]), calls[n].now);
    }
  }

  lemma PurgedSize(values: map<string, real>, now: real)
    ensures |Purged(values, now)| <= |values|
  {
    assert Purged(values, now).Keys <= values.Keys;
    SubsetSize(Purged(values, now).Keys, values.Keys);
  }
}
