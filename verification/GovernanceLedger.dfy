/** The in-memory governance ledger, whose links are 32-bit hashes padded to sixteen characters. */
module GovernanceLedger {
  import opened Collections
  import opened FnvHash
  import opened Hex

  /** The code units of an ASCII text. */
  function Units(s: string): (u: JsString)
    ensures |u| == |s|
  {
    seq(|s|, i requires 0 <= i < |s| => s[i] as int % 0x1_0000)
  }

  function PadEnd(u: JsString, n: nat): JsString {
    if |u| >= n then u else u + seq(n - |u|, _ => '0' as int)
  }

  /** Sixteen zeros. */
  const GENESIS_HASH: JsString := PadEnd([], 16)

  datatype Draft = Draft(eventType: JsString, verdict: JsString, summary: JsString)

  datatype Event = Event(
    draft: Draft, eventId: JsString, previousHash: JsString, payloadHash: JsString, committedAt: JsString)

  function PayloadHash(previousHash: JsString, d: Draft, committedAt: JsString): JsString {
    PadEnd(Units(ShortHashOf(previousHash + d.eventType + d.verdict + d.summary + committedAt)), 16)
  }

  function LastHash(events: seq<Event>): JsString {
    if events == [] then GENESIS_HASH else events[|events| - 1].payloadHash
  }

  function NewEvent(events: seq<Event>, d: Draft, committedAt: JsString): Event {
    Event(d, Units("evt_") + Units(ShortHashOf(committedAt + d.summary)), LastHash(events),
          PayloadHash(LastHash(events), d, committedAt), committedAt)
  }

  function PrevOf(events: seq<Event>, i: nat): JsString
    requires i <= |events|
  {
    if i == 0 then GENESIS_HASH else events[i - 1].payloadHash
  }

  predicate LinkedAt(events: seq<Event>, i: nat)
    requires i < |events|
  {
    events[i].previousHash == PrevOf(events, i)
  }

  predicate Chained(events: seq<Event>) {
    forall i :: 0 <= i < |events| ==> LinkedAt(events, i)
  }

  class AuditLedger {
    var events: seq<Event>

    constructor ()
      ensures events == []
    {
      events := [];
    }

    method Append(d: Draft, committedAt: JsString) returns (e: Event)
      modifies this
      ensures e == NewEvent(old(events), d, committedAt)
      ensures events == LastN(old(events) + [e], 200)
    {
      var previousHash := if |events| > 0 then events[|events| - 1].payloadHash else GENESIS_HASH;
      var id := ShortHash(committedAt + d.summary);
      var hash := ShortHash(previousHash + d.eventType + d.verdict + d.summary + committedAt);
      e := Event(d, Units("evt_") + Units(id), previousHash, PadEnd(Units(hash), 16), committedAt);
      events := events + [e];
      if |events| > 200 {
        events := events[|events| - 200..];
      }
    }

    /**
     * `slice(-limit).reverse()`: the newest `limit` events, newest first. A limit of zero lists every event,
     * and a negative one all but the oldest -limit.
     */
    method List(limit: int := 50) returns (r: seq<Event>)
      ensures limit > 0 ==> |r| == if |events| <= limit then |events| else limit
      ensures limit <= 0 ==> |r| == if |events| <= -limit then 0 else |events| + limit
      ensures forall i :: 0 <= i < |r| ==> r[i] == events[|events| - 1 - i]
    {
      var start := if limit > 0 then (if |events| <= limit then 0 else |events| - limit)
                   else if -limit <= |events| then -limit else |events|;
      var newest := events[start..];
      r := seq(|newest|, i requires 0 <= i < |newest| => newest[|newest| - 1 - i]);
    }

    method VerifyChain() returns (ok: bool)
      ensures ok == Chained(events)
    {
      hide GENESIS_HASH, PadEnd;
      var prev := GENESIS_HASH;
      for i := 0 to |events|
        invariant prev == PrevOf(events, i)
        invariant forall k :: 0 <= k < i ==> LinkedAt(events, k)
      {
        if events[i].previousHash != prev {
          assert !LinkedAt(events, i);
          return false;
        }
        prev := events[i].payloadHash;
      }
      return true;
    }
  }

  // What the link check covers.

  /** The check reads the two hash columns only: rewriting any content leaves its answer unchanged. */
  lemma ContentNotCovered(a: seq<Event>, b: seq<Event>)
    requires |a| == |b|
    requires forall i :: 0 <= i < |a| ==> a[i].previousHash == b[i].previousHash && a[i].payloadHash == b[i].payloadHash
    ensures Chained(a) == Chained(b)
  {
    assert forall i :: 0 <= i < |a| ==> LinkedAt(a, i) == LinkedAt(b, i);
  }

  /** Recomputing the stored hash would notice any single changed code unit of the summary. */
  lemma SingleEditChangesHash(prev: JsString, d: Draft, at: JsString, k: nat, u: CodeUnit)
    requires k < |d.summary| && u != d.summary[k]
    ensures PayloadHash(prev, d, at) != PayloadHash(prev, d.(summary := d.summary[k := u]), at)
  {
    var d' := d.(summary := d.summary[k := u]);
    var head := prev + d.eventType + d.verdict;
    var a, b := head + d.summary + at, head + d'.summary + at;
    assert forall i :: 0 <= i < |a| && i != |head| + k ==> a[i] == b[i];
    assert a[|head| + k] == d.summary[k] && b[|head| + k] == u;
    NoSingleUnitCollision(a, b, |head| + k);
    UnitsInjective(ShortHashOf(a), ShortHashOf(b));
  }

  lemma UnitsInjective(s: string, t: string)
    requires IsHex(s) && IsHex(t) && |s| == |t| == 8 && s != t
    ensures PadEnd(Units(s), 16) != PadEnd(Units(t), 16)
  {
    var k :| 0 <= k < 8 && s[k] != t[k];
    assert PadEnd(Units(s), 16)[k] == s[k] as int && PadEnd(Units(t), 16)[k] == t[k] as int;
  }

  // Runs.

  datatype Commit = Commit(draft: Draft, committedAt: JsString)

  function Appended(events: seq<Event>, c: Commit): Event {
    NewEvent(events, c.draft, c.committedAt)
  }

  function Run(limit: nat, commits: seq<Commit>): seq<Event> {
    if commits == [] then []
    else
      var past := Run(limit, commits[..|commits| - 1]);
      LastN(past + [Appended(past, commits[|commits| - 1])], limit)
  }

  /** Every event ever appended. */
  function History(commits: seq<Commit>): (r: seq<Event>)
    ensures |r| == |commits|
  {
    if commits == [] then []
    else
      var past := History(commits[..|commits| - 1]);
      past + [Appended(past, commits[|commits| - 1])]
  }

  /** The i-th event ever appended carries the i-th draft, links to the one before, and hashes the five joined parts. */
  lemma {:induction false} AppendedFields(commits: seq<Commit>, i: nat)
    requires i < |commits|
    ensures var all := History(commits);
      var e, c := all[i], commits[i];
      && e.draft == c.draft && e.committedAt == c.committedAt
      && e.previousHash == (if i == 0 then seq(16, _ => '0' as int) else all[i - 1].payloadHash)
      && e.payloadHash == Units(ShortHashOf(e.previousHash + c.draft.eventType + c.draft.verdict + c.draft.summary
                                            + c.committedAt)) + seq(8, _ => '0' as int)
      && e.eventId == Units("evt_") + Units(ShortHashOf(c.committedAt + c.draft.summary))
  {
    if i < |commits| - 1 {
      AppendedFields(commits[..|commits| - 1], i);
    } else {
      GenesisIsZeros();
      hide ShortHashOf, Units, GENESIS_HASH;
    }
  }

  lemma GenesisIsZeros()
    ensures GENESIS_HASH == seq(16, _ => '0' as int)
  {
    assert GENESIS_HASH == [] + seq(16, _ => '0' as int);
  }

  /** Text turns into its characters' codes. */
  lemma UnitsExact(s: string, i: nat)
    requires i < |s| && s[i] as int < 0x1_0000
    ensures Units(s)[i] == s[i] as int
  {
  }

  lemma {:induction false} LedgerIsHistorySuffix(limit: nat, commits: seq<Commit>)
    requires limit > 0
    ensures Run(limit, commits) == LastN(History(commits), limit)
    ensures Chained(History(commits))
  {
    if commits != [] {
      hide Run, History, Chained, LastN, Appended;
      var init, c := commits[..|commits| - 1], commits[|commits| - 1];
      LedgerIsHistorySuffix(limit, init);
      var past := History(init);
      RunStep(limit, commits);
      SameNext(past, limit, c);
      LastNAppend(past, Appended(past, c), limit);
      ChainedAppend(past, c);
    }
  }

  lemma SameNext(past: seq<Event>, limit: nat, c: Commit)
    requires limit > 0
    ensures Appended(LastN(past, limit), c) == Appended(past, c)
  {
    hide PayloadHash;
    assert LastHash(LastN(past, limit)) == LastHash(past);
  }

  lemma ChainedAppend(past: seq<Event>, c: Commit)
    requires Chained(past)
    ensures Chained(past + [Appended(past, c)])
  {
    hide PayloadHash, GENESIS_HASH, Units, PadEnd, LinkedAt;
    var all := past + [Appended(past, c)];
    forall i | 0 <= i < |all|
      ensures LinkedAt(all, i)
    {
      LinkedLater(past, c, i);
    }
  }

  lemma LinkedLater(past: seq<Event>, c: Commit, i: nat)
    requires i <= |past|
    ensures LinkedAt(past + [Appended(past, c)], i) <==> i == |past| || LinkedAt(past, i)
  {
    hide PayloadHash, GENESIS_HASH, Units, PadEnd;
  }

  lemma RunStep(limit: nat, commits: seq<Commit>)
    requires commits != []
    ensures var init, c := commits[..|commits| - 1], commits[|commits| - 1];
      && Run(limit, commits) == LastN(Run(limit, init) + [Appended(Run(limit, init), c)], limit)
      && History(commits) == History(init) + [Appended(History(init), c)]
  {
    hide NewEvent, LastN;
  }

  /**
   * The ledger verifies exactly while nothing has been dropped, or when the newest dropped event happens
   * to carry the all-zero genesis value as its hash.
   */
  lemma VerifiesExactly(limit: nat, commits: seq<Commit>)
    requires limit > 0
    ensures Chained(Run(limit, commits)) <==>
            |commits| <= limit || History(commits)[|commits| - limit - 1].payloadHash == GENESIS_HASH
  {
    hide Run, History, GENESIS_HASH;
    LedgerIsHistorySuffix(limit, commits);
    var all, kept := History(commits), Run(limit, commits);
    if |commits| > limit {
      var k := |commits| - limit;
      assert LinkedAt(all, k);
      assert LinkedAt(kept, 0) <==> all[k - 1].payloadHash == GENESIS_HASH;
      forall i | 1 <= i < limit
        ensures LinkedAt(kept, i)
      {
        assert LinkedAt(all, k + i);
      }
    }
  }

  /** Such a hash is eight digits and eight zeros; it is the genesis value exactly when the 32-bit digest is zero. */
  lemma GenesisValueExact(prev: JsString, d: Draft, at: JsString)
    ensures |PayloadHash(prev, d, at)| == 16
    ensures PayloadHash(prev, d, at) == GENESIS_HASH <==>
            Digest(prev + d.eventType + d.verdict + d.summary + at) == 0
  {
    assert Pow16(8) == WRAP;
    ZeroIsGenesis();
    hide Digest, Fixed, Parse, PadEnd, Units, GENESIS_HASH, Pow16;
    var input := prev + d.eventType + d.verdict + d.summary + at;
    var s, zero := ShortHashOf(input), Fixed(0, 8);
    ParseFixed(Digest(input), 8);
    ParseFixed(0, 8);
    PadLength(s);
    if s != zero {
      UnitsInjective(s, zero);
    }
  }

  lemma PadLength(s: string)
    requires |s| == 8
    ensures |PadEnd(Units(s), 16)| == 16
  {
  }

  lemma ZeroIsGenesis()
    ensures PadEnd(Units(Fixed(0, 8)), 16) == GENESIS_HASH
  {
    FixedZero(8);
    assert Units(Fixed(0, 8)) == seq(8, _ => '0' as int);
    assert GENESIS_HASH == [] + seq(16, _ => '0' as int);
  }
}
