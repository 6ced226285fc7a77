/** The bounded, expiring cache of policy results: an insertion-ordered map with sweep, eviction and invalidation. */
module PolicyCache {
  import opened Options

  const ALLOW_TTL_MS := 120_000.0
  const DENY_TTL_MS := 60_000.0
  const MAX_CACHE_ENTRIES: nat := 5_000

  /** The deterministic part of a cached result. */
  datatype Policy = Policy(
    tenantId: string, subjectId: string, action: string, resource: string, role: Option<string>,
    authenticated: bool, policyVersion: string, allow: bool, obligations: seq<string>,
    denyReason: Option<string>, invalidationKeys: seq<string>)

  datatype Entry = Entry(policy: Policy, issuedAt: real, expiresAt: real)

  /** One association of a JavaScript Map, which keeps them in order of first insertion. */
  datatype Slot = Slot(key: string, entry: Entry)
  type Slots = seq<Slot>

  ghost predicate DistinctKeys(s: Slots) {
    forall i, j :: 0 <= i < j < |s| ==> s[i].key != s[j].key
  }

  function NewEntry(p: Policy, now: real): Entry {
    Entry(p, now, now + if p.allow then ALLOW_TTL_MS else DENY_TTL_MS)
  }

  /** `map.get(key)`. */
  function Find(s: Slots, key: string): Option<Entry> {
    if s == [] then None else if s[0].key == key then Some(s[0].entry) else Find(s[1..], key)
  }

  /** `map.delete(key)`. */
  function Without(s: Slots, key: string): Slots {
    if s == [] then []
    else if s[0].key == key then Without(s[1..], key)
    else [s[0]] + Without(s[1..], key)
  }

  /** `map.set(key, entry)`: in place when the key is there, else at the end. */
  function Put(s: Slots, key: string, e: Entry): Slots {
    if s == [] then [Slot(key, e)]
    else if s[0].key == key then [Slot(key, e)] + s[1..]
    else [s[0]] + Put(s[1..], key, e)
  }

  function Live(s: Slots, now: real): Slots {
    if s == [] then []
    else
      var rest := Live(s[..|s| - 1], now);
      if s[|s| - 1].entry.expiresAt <= now then rest else rest + [s[|s| - 1]]
  }

  /** Stable insertion of an earlier slot before every slot issued no earlier. */
  function InsertByIssue(x: Slot, s: Slots): (r: Slots)
    ensures |r| == |s| + 1
  {
    if s == [] || x.entry.issuedAt <= s[0].entry.issuedAt then [x] + s else [s[0]] + InsertByIssue(x, s[1..])
  }

  /** `[...cache.entries()].sort((a, b) => a[1].issuedAt - b[1].issuedAt)`. */
  function SortByIssue(s: Slots): (r: Slots)
    ensures |r| == |s|
  {
    if s == [] then [] else InsertByIssue(s[0], SortByIssue(s[1..]))
  }

  function WithoutAll(s: Slots, victims: Slots): Slots
    decreases |victims|
  {
    if victims == [] then s else WithoutAll(Without(s, victims[0].key), victims[1..])
  }

  function Victims(s: Slots, max: nat): Slots {
    if |s| > max then SortByIssue(s)[..|s| - max] else []
  }

  /** The map after a write. */
  function AfterSet(s: Slots, key: string, p: Policy, now: real, max: nat): Slots {
    var full := Put(Live(s, now), key, NewEntry(p, now));
    WithoutAll(full, Victims(full, max))
  }

  /** The map after a read: an entry found expired is dropped. */
  function AfterGet(s: Slots, key: string, now: real): Slots {
    var found := Find(s, key);
    if found.Some? && found.value.expiresAt <= now then Without(s, key) else s
  }

  function Lookup(s: Slots, key: string, now: real): Option<Entry> {
    var found := Find(s, key);
    if found.Some? && found.value.expiresAt <= now then None else found
  }

  predicate SharesKey(e: Entry, wanted: set<string>) {
    exists k :: k in e.policy.invalidationKeys && k in wanted
  }

  function Kept(s: Slots, wanted: set<string>): Slots {
    if s == [] then []
    else
      var rest := Kept(s[..|s| - 1], wanted);
      if SharesKey(s[|s| - 1].entry, wanted) then rest else rest + [s[|s| - 1]]
  }

  class Cache {
    var slots: Slots
    var hits: nat
    var misses: nat

    ghost predicate Valid()
      reads this
    {
      DistinctKeys(slots) && |slots| <= MAX_CACHE_ENTRIES
    }

    constructor ()
      ensures Valid() && slots == [] && hits == misses == 0
    {
      slots, hits, misses := [], 0, 0;
    }

    method Get(key: string, now: real) returns (r: Option<Entry>)
      requires Valid()
      modifies this
      ensures Valid() && slots == AfterGet(old(slots), key, now) && r == Lookup(old(slots), key, now)
      ensures hits == old(hits) + (if r.Some? then 1 else 0) && misses == old(misses) + (if r.None? then 1 else 0)
    {
      var entry := Find(slots, key);
      if entry.None? {
        misses := misses + 1;
        return None;
      }
      if entry.value.expiresAt <= now {
        WithoutKeepsDistinct(slots, key);
        WithoutExact(slots, key);
        slots := Without(slots, key);
        misses := misses + 1;
        return None;
      }
      hits := hits + 1;
      return entry;
    }

    method Set(key: string, p: Policy, now: real) returns (entry: Entry)
      requires Valid()
      modifies this
      ensures Valid() && slots == AfterSet(old(slots), key, p, now, 5_000)
      ensures entry == NewEntry(p, now) && hits == old(hits) && misses == old(misses)
    {
      hide SortByIssue, Put, Without, DistinctKeys, Earliest;
      entry := NewEntry(p, now);
      var all := slots;
      var live: Slots := [];
      for i := 0 to |all|
        invariant live == Live(all[..i], now)
      {
        assert all[..i + 1][..i] == all[..i];
        if all[i].entry.expiresAt > now {
          live := live + [all[i]];
        }
      }
      assert all[..|all|] == all;
      var full := Put(live, key, entry);
      LiveKeepsDistinct(all, now);
      PutKeepsDistinct(live, key, entry);
      slots := full;
      if |full| > MAX_CACHE_ENTRIES {
        var oldest := SortByIssue(full)[..|full| - MAX_CACHE_ENTRIES];
        for i := 0 to |oldest|
          invariant DistinctKeys(slots) && WithoutAll(slots, oldest[i..]) == WithoutAll(full, oldest)
          invariant hits == old(hits) && misses == old(misses)
        {
          assert oldest[i..][1..] == oldest[i + 1..];
          WithoutKeepsDistinct(slots, oldest[i].key);
          slots := Without(slots, oldest[i].key);
        }
      }
      WriteBounds(all, key, p, now, MAX_CACHE_ENTRIES);
    }

    method Invalidate(keys: seq<string>) returns (removed: nat)
      requires Valid()
      modifies this
      ensures Valid() && slots == Kept(old(slots), set k | k in keys) && removed == |old(slots)| - |slots|
      ensures hits == old(hits) && misses == old(misses)
    {
      var wanted := set k | k in keys;
      var all := slots;
      var kept: Slots := [];
      removed := 0;
      for i := 0 to |all|
        invariant kept == Kept(all[..i], wanted) && removed == i - |kept|
      {
        assert all[..i + 1][..i] == all[..i];
        if exists k :: k in all[i].entry.policy.invalidationKeys && k in wanted {
          removed := removed + 1;
        } else {
          kept := kept + [all[i]];
        }
      }
      assert all[..|all|] == all;
      KeptExact(all, wanted);
      slots := kept;
    }

    method Clear()
      modifies this
      ensures Valid() && slots == [] && hits == misses == 0
    {
      slots, hits, misses := [], 0, 0;
    }
  }

  // Keys and contents.

  lemma TailKeys(s: Slots)
    requires DistinctKeys(s) && s != []
    ensures DistinctKeys(s[1..]) && forall x :: x in s[1..] ==> x.key != s[0].key
  {
    forall x | x in s[1..]
      ensures x.key != s[0].key
    {
      var j :| 0 <= j < |s| - 1 && s[1..][j] == x;
      assert s[j + 1].key != s[0].key;
    }
  }

  lemma {:induction false} FindExact(s: Slots, key: string)
    requires DistinctKeys(s)
    ensures forall e :: Find(s, key) == Some(e) <==> Slot(key, e) in s
  {
    if s != [] {
      TailKeys(s);
      FindExact(s[1..], key);
      assert forall x :: x in s <==> x == s[0] || x in s[1..];
    }
  }

  lemma {:induction false} WithoutExact(s: Slots, key: string)
    ensures forall x :: x in Without(s, key) <==> x in s && x.key != key
    ensures |Without(s, key)| <= |s|
  {
    if s != [] {
      WithoutExact(s[1..], key);
      assert forall x :: x in s <==> x == s[0] || x in s[1..];
    }
  }

  lemma {:induction false} WithoutKeepsDistinct(s: Slots, key: string)
    requires DistinctKeys(s)
    ensures DistinctKeys(Without(s, key))
  {
    if s != [] {
      var rest := s[1..];
      WithoutKeepsDistinct(rest, key);
      WithoutExact(rest, key);
      if s[0].key != key {
        HeadDistinct(s[0], Without(rest, key), rest);
      }
    }
  }

  lemma HeadDistinct(x: Slot, s: Slots, rest: Slots)
    requires DistinctKeys(s) && DistinctKeys([x] + rest) && forall y :: y in s ==> y in rest
    ensures DistinctKeys([x] + s)
  {
    forall i | 0 <= i < |s|
      ensures s[i].key != x.key
    {
      assert s[i] in rest;
      var j :| 0 <= j < |rest| && rest[j] == s[i];
      assert ([x] + rest)[j + 1] == s[i] && ([x] + rest)[0] == x;
    }
  }

  /** A distinct key is removed once: exactly one slot goes. */
  lemma {:induction false} WithoutSize(s: Slots, x: Slot)
    requires DistinctKeys(s) && x in s
    ensures |Without(s, x.key)| == |s| - 1
  {
    if s[0].key == x.key {
      WithoutAbsent(s[1..], x.key, s);
    } else {
      assert s == [s[0]] + s[1..];
      WithoutSize(s[1..], x);
    }
  }

  lemma {:induction false} WithoutAbsent(rest: Slots, key: string, s: Slots)
    requires DistinctKeys(s) && s != [] && s[0].key == key && forall y :: y in rest ==> y in s[1..]
    ensures Without(rest, key) == rest
  {
    if rest != [] {
      assert rest[0] in s[1..];
      var j :| 0 <= j < |s| - 1 && s[1..][j] == rest[0];
      assert s[j + 1].key != s[0].key;
      WithoutAbsent(rest[1..], key, s);
    }
  }

  lemma {:induction false} PutExact(s: Slots, key: string, e: Entry)
    requires DistinctKeys(s)
    ensures forall x :: x in Put(s, key, e) <==> x == Slot(key, e) || (x in s && x.key != key)
    ensures |Put(s, key, e)| == if exists x :: x in s && x.key == key then |s| else |s| + 1
  {
    if s != [] {
      PutExact(s[1..], key, e);
      assert s == [s[0]] + s[1..];
      assert forall x :: x in s <==> x == s[0] || x in s[1..];
      if s[0].key == key {
        TailKeys(s);
      }
    }
  }

  lemma {:induction false} PutKeepsDistinct(s: Slots, key: string, e: Entry)
    requires DistinctKeys(s)
    ensures DistinctKeys(Put(s, key, e))
  {
    if s != [] && s[0].key != key {
      var rest := Put(s[1..], key, e);
      PutKeepsDistinct(s[1..], key, e);
      PutExact(s[1..], key, e);
      forall i | 0 <= i < |rest|
        ensures rest[i].key != s[0].key
      {
        assert rest[i] in rest;
        TailKeys(s);
      }
    }
  }

  lemma {:induction false} LiveExact(s: Slots, now: real)
    ensures forall x :: x in Live(s, now) <==> x in s && x.entry.expiresAt > now
    ensures |Live(s, now)| <= |s|
  {
    if s != [] {
      LiveExact(s[..|s| - 1], now);
      assert s == s[..|s| - 1] + [s[|s| - 1]];
    }
  }

  lemma {:induction false} LiveKeepsDistinct(s: Slots, now: real)
    requires DistinctKeys(s)
    ensures DistinctKeys(Live(s, now))
  {
    if s != [] {
      var init, last := s[..|s| - 1], s[|s| - 1];
      LiveKeepsDistinct(init, now);
      LiveExact(init, now);
      LastDistinct(Live(init, now), last, init);
    }
  }

  lemma LastDistinct(s: Slots, x: Slot, init: Slots)
    requires DistinctKeys(s) && DistinctKeys(init + [x]) && forall y :: y in s ==> y in init
    ensures DistinctKeys(s + [x])
  {
    forall i | 0 <= i < |s|
      ensures s[i].key != x.key
    {
      assert s[i] in init;
      var j :| 0 <= j < |init| && init[j] == s[i];
      assert (init + [x])[j] == s[i] && (init + [x])[|init|] == x;
    }
  }

  /** Invalidation removes exactly the entries that share a key, in place and in order. */
  lemma {:induction false} KeptExact(s: Slots, wanted: set<string>)
    ensures forall x :: x in Kept(s, wanted) <==>
                        x in s && forall k :: k in x.entry.policy.invalidationKeys ==> k !in wanted
    ensures DistinctKeys(s) ==> DistinctKeys(Kept(s, wanted))
    ensures |Kept(s, wanted)| <= |s|
  {
    if s != [] {
      var init, last := s[..|s| - 1], s[|s| - 1];
      KeptExact(init, wanted);
      assert s == init + [last];
      assert SharesKey(last.entry, wanted) <==> !forall k :: k in last.entry.policy.invalidationKeys ==> k !in wanted;
      hide SharesKey;
      if DistinctKeys(s) {
        LastDistinct(Kept(init, wanted), last, init);
      }
    }
  }

  // Eviction.

  /** The first slot, in map order, among those issued earliest. */
  function Earliest(s: Slots): (x: Slot)
    requires s != []
    ensures x in s
  {
    if |s| == 1 then s[0]
    else
      var r := Earliest(s[1..]);
      if s[0].entry.issuedAt <= r.entry.issuedAt then s[0] else r
  }

  lemma {:induction false} SortStartsEarliest(s: Slots)
    requires s != []
    ensures SortByIssue(s)[0] == Earliest(s)
  {
    if |s| > 1 {
      SortStartsEarliest(s[1..]);
    }
  }

  lemma {:induction false} EarliestIsMinimal(s: Slots)
    requires s != []
    ensures forall x :: x in s ==> Earliest(s).entry.issuedAt <= x.entry.issuedAt
  {
    if |s| > 1 {
      EarliestIsMinimal(s[1..]);
      assert forall x :: x in s <==> x == s[0] || x in s[1..];
    }
  }

  /** The last slot is the earliest one exactly when every other was issued strictly later. */
  lemma {:induction false} LastIsEarliest(s: Slots)
    requires s != [] && forall i :: 0 <= i < |s| - 1 ==> s[i] != s[|s| - 1]
    ensures Earliest(s) == s[|s| - 1] <==>
            forall i :: 0 <= i < |s| - 1 ==> s[i].entry.issuedAt > s[|s| - 1].entry.issuedAt
  {
    if |s| > 1 {
      var t := s[1..];
      assert forall i :: 0 <= i < |t| ==> t[i] == s[i + 1];
      LastIsEarliest(t);
      EarliestIsMinimal(t);
      assert t[|t| - 1] in t;
      assert forall i :: 1 <= i < |s| - 1 ==> s[i] == t[i - 1];
    }
  }

  /** The map just before eviction: what is live, with the new entry put in. */
  function BeforeEviction(s: Slots, key: string, p: Policy, now: real): Slots {
    Put(Live(s, now), key, NewEntry(p, now))
  }

  /**
   * A write keeps the map within its bound. Expired entries are swept; of the live ones at most one is
   * evicted, and it is one issued earliest.
   */
  lemma WriteBounds(s: Slots, key: string, p: Policy, now: real, max: nat)
    requires DistinctKeys(s) && |s| <= max && max > 0
    ensures var full, after := BeforeEviction(s, key, p, now), AfterSet(s, key, p, now, max);
      && DistinctKeys(after) && |after| <= max
      && (|full| <= max ==> after == full)
      && (|full| > max ==>
            && Earliest(full) in full
            && (forall x :: x in full ==> Earliest(full).entry.issuedAt <= x.entry.issuedAt)
            && (forall x :: x in after <==> x in full && x.key != Earliest(full).key))
  {
    var live, e := Live(s, now), NewEntry(p, now);
    var full := Put(live, key, e);
    LiveExact(s, now);
    LiveKeepsDistinct(s, now);
    PutExact(live, key, e);
    PutKeepsDistinct(live, key, e);
    hide Live, Put, Without, DistinctKeys;
    if |full| > max {
      assert |full| - max == 1;
      SortStartsEarliest(full);
      assert Victims(full, max) == [Earliest(full)];
      assert WithoutAll(full, [Earliest(full)]) == Without(full, Earliest(full).key) by {
        OneVictim(full, Earliest(full));
      }
      EarliestIsMinimal(full);
      WithoutExact(full, Earliest(full).key);
      WithoutSize(full, Earliest(full));
      WithoutKeepsDistinct(full, Earliest(full).key);
    }
  }

  lemma OneVictim(s: Slots, x: Slot)
    ensures WithoutAll(s, [x]) == Without(s, x.key)
  {
    assert [x][1..] == [];
    assert WithoutAll(Without(s, x.key), []) == Without(s, x.key);
  }

  /**
   * Whatever the clock does, the entry just written is still there, unless the map overflowed and every
   * other live entry carries a later issue time; with a clock that never runs backwards it always is.
   */
  lemma WrittenKeyExact(s: Slots, key: string, p: Policy, now: real, max: nat)
    requires DistinctKeys(s) && |s| <= max && max > 0
    ensures var full, after := BeforeEviction(s, key, p, now), AfterSet(s, key, p, now, max);
      && (Slot(key, NewEntry(p, now)) in after <==>
            |full| <= max || exists x :: x in full && x.key != key && x.entry.issuedAt <= now)
      && ((forall x :: x in s ==> x.entry.issuedAt <= now) ==> Slot(key, NewEntry(p, now)) in after)
  {
    var live, e := Live(s, now), NewEntry(p, now);
    var full, mine := Put(live, key, e), Slot(key, e);
    WriteBounds(s, key, p, now, max);
    LiveExact(s, now);
    LiveKeepsDistinct(s, now);
    PutExact(live, key, e);
    PutKeepsDistinct(live, key, e);
    if |full| > max {
      assert !exists x :: x in live && x.key == key;
      PutAtEnd(live, key, e);
      OverflowKeeps(live, mine);
      hide Live, Put, Earliest, AfterSet;
      assert Earliest(full) == mine || Earliest(full).key != key by {
        if Earliest(full).key == key {
          KeyNames(full, Earliest(full), mine);
        }
      }
      assert live != [] && live[0] in full && live[0] in s;
    }
  }

  lemma OverflowKeeps(live: Slots, mine: Slot)
    requires forall x :: x in live ==> x.key != mine.key
    ensures Earliest(live + [mine]) == mine <==>
            !exists x :: x in live + [mine] && x.key != mine.key && x.entry.issuedAt <= mine.entry.issuedAt
  {
    var full := live + [mine];
    assert forall i :: 0 <= i < |live| ==> full[i] == live[i] && full[i] in live;
    LastIsEarliest(full);
    forall x | x in full && x.key != mine.key
      ensures exists i :: 0 <= i < |full| - 1 && full[i] == x
    {
      var i :| 0 <= i < |full| && full[i] == x;
    }
  }

  lemma KeyNames(s: Slots, x: Slot, y: Slot)
    requires DistinctKeys(s) && x in s && y in s && x.key == y.key
    ensures x == y
  {
  }

  lemma {:induction false} PutAtEnd(s: Slots, key: string, e: Entry)
    requires !exists x :: x in s && x.key == key
    ensures Put(s, key, e) == s + [Slot(key, e)]
  {
    if s != [] {
      assert s[0] in s;
      assert forall x :: x in s[1..] ==> x in s;
      PutAtEnd(s[1..], key, e);
    }
  }

  // Lifetimes.

  /** Every entry expires a fixed time after issue: 120 s for an allow, 60 s for a deny. */
  ghost predicate Timed(s: Slots) {
    forall x :: x in s ==> x.entry == NewEntry(x.entry.policy, x.entry.issuedAt)
  }

  lemma TimedKept(s: Slots, key: string, p: Policy, now: real, wanted: set<string>)
    requires DistinctKeys(s) && |s| <= MAX_CACHE_ENTRIES && Timed(s)
    ensures Timed(AfterSet(s, key, p, now, MAX_CACHE_ENTRIES)) && Timed(AfterGet(s, key, now)) && Timed(Kept(s, wanted))
  {
    SetContents(s, key, p, now, MAX_CACHE_ENTRIES);
    WithoutExact(s, key);
    KeptExact(s, wanted);
    hide AfterSet, Kept, Without;
  }

  /** An allow is never served 120 s or more after issue, a deny never 60 s or more. */
  lemma ServedInTime(s: Slots, key: string, now: real)
    requires DistinctKeys(s) && Timed(s) && Lookup(s, key, now).Some?
    ensures var e := Lookup(s, key, now).value;
      now < e.issuedAt + if e.policy.allow then 120_000.0 else 60_000.0
  {
    FindExact(s, key);
    assert Slot(key, Lookup(s, key, now).value) in s;
  }

  /** A read finds exactly the entry of its key, as long as it has not expired, and drops it once it has. */
  lemma ReadExact(s: Slots, key: string, now: real)
    requires DistinctKeys(s)
    ensures forall e :: Lookup(s, key, now) == Some(e) <==> Slot(key, e) in s && now < e.expiresAt
    ensures forall x :: x in AfterGet(s, key, now) <==> x in s && (x.key == key ==> now < x.entry.expiresAt)
  {
    FindExact(s, key);
    WithoutExact(s, key);
    hide Find, Without;
    forall x | x in s && x.key == key
      ensures Find(s, key) == Some(x.entry)
    {
      assert x == Slot(key, x.entry);
    }
  }

  /** What a write put in is served from then on until its lifetime is over: 120 s for an allow, 60 s for a deny. */
  lemma WrittenServedExact(s: Slots, key: string, p: Policy, now: real, max: nat, later: real)
    requires DistinctKeys(s) && |s| <= max && max > 0 && |BeforeEviction(s, key, p, now)| <= max
    ensures Lookup(AfterSet(s, key, p, now, max), key, later).Some? <==>
            later < now + if p.allow then 120_000.0 else 60_000.0
    ensures Lookup(AfterSet(s, key, p, now, max), key, later).Some? ==>
              Lookup(AfterSet(s, key, p, now, max), key, later).value.policy == p
  {
    var after, e := AfterSet(s, key, p, now, max), NewEntry(p, now);
    WriteBounds(s, key, p, now, max);
    WrittenKeyExact(s, key, p, now, max);
    ReadExact(after, key, later);
    hide AfterSet, BeforeEviction, Lookup, DistinctKeys;
    assert Lookup(after, key, later) == Some(e) <==> Slot(key, e) in after && later < e.expiresAt;
    if Lookup(after, key, later).Some? {
      var found := Lookup(after, key, later).value;
      assert Slot(key, found) in after;
      KeyNames(after, Slot(key, found), Slot(key, e));
    }
  }

  /** A write adds its own entry and otherwise only removes. */
  lemma SetContents(s: Slots, key: string, p: Policy, now: real, max: nat)
    requires DistinctKeys(s) && |s| <= max && max > 0
    ensures forall x :: x in AfterSet(s, key, p, now, max) ==>
                        x == Slot(key, NewEntry(p, now)) || (x in s && x.key != key && x.entry.expiresAt > now)
  {
    WriteBounds(s, key, p, now, max);
    LiveExact(s, now);
    LiveKeepsDistinct(s, now);
    PutExact(Live(s, now), key, NewEntry(p, now));
  }
}
