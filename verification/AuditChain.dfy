/** The kernel's hash-chained audit log with a bounded window. */
module AuditChain {
  import opened Collections
  import opened Texts

  /** An event without its hash; the payload stands for its JSON text. */
  datatype Core = Core(
    seqNo: nat, ts: string, traceId: string, correlationId: string, actor: string, action: string,
    policy: string, invariantHash: string, payload: string, prevHash: string)

  datatype AuditEvent = AuditEvent(core: Core, hash: string)

  /** What the caller and the clock supply for one event. */
  datatype Input = Input(
    ts: string, traceId: string, correlationId: string, actor: string, action: string,
    policy: string, payload: string)

  const GENESIS := "GENESIS"
  const AUDIT_LIMIT: nat := 10_000

  /** SHA-256 over the JSON of an event, taken to be injective and never the word GENESIS. */
  ghost predicate GoodHash(h: Core -> string) {
    (forall c, d :: h(c) == h(d) ==> c == d) && forall c :: h(c) != GENESIS
  }

  function Fields(c: Core): seq<string> {
    [PrintInt(c.seqNo), c.ts, c.traceId, c.correlationId, c.actor, c.action, c.policy, c.invariantHash, c.payload,
     c.prevHash]
  }

  /** The assumption can be met: an event can be written as a text from which it can be read back. */
  lemma GoodHashExists()
    ensures exists h: Core -> string :: GoodHash(h)
  {
    var h: Core -> string := (c: Core) => Flat(Fields(c));
    forall c, d | h(c) == h(d)
      ensures c == d
    {
      hide Flat, PrintInt;
      var s, t := Fields(c), Fields(d);
      FlatInjective(s, t);
      assert forall i :: 0 <= i < 10 ==> s[i] == t[i];
      PrintInjective(c.seqNo, d.seqNo);
    }
    forall c
      ensures h(c) != GENESIS
    {
      hide Fields;
      assert IsDigit(Flat(Fields(c))[0]);
    }
    assert GoodHash(h);
  }

  predicate LinkOk(h: Core -> string, prev: string, e: AuditEvent) {
    e.core.prevHash == prev && h(e.core) == e.hash
  }

  function PrevOf(start: string, log: seq<AuditEvent>, i: nat): string
    requires i <= |log|
  {
    if i == 0 then start else log[i - 1].hash
  }

  /** Every event carries its own hash and the hash of its predecessor; the first one carries `start`. */
  predicate LinksFrom(h: Core -> string, start: string, log: seq<AuditEvent>) {
    forall i :: 0 <= i < |log| ==> LinkOk(h, PrevOf(start, log, i), log[i])
  }

  function CoreOf(input: Input, invariantHash: string, size: nat, lastHash: string): Core {
    Core(size + 1, input.ts, input.traceId, input.correlationId, input.actor, input.action,
         input.policy, invariantHash, input.payload, lastHash)
  }

  class AuditLog {
    const hashEvent: Core -> string
    const invariantHash: string
    var audit: seq<AuditEvent>
    var lastHash: string

    constructor (hashEvent: Core -> string, invariantHash: string)
      ensures audit == [] && lastHash == "GENESIS"
      ensures this.hashEvent == hashEvent && this.invariantHash == invariantHash
    {
      this.hashEvent := hashEvent;
      this.invariantHash := invariantHash;
      audit, lastHash := [], GENESIS;
    }

    method RecordAudit(input: Input) returns (e: AuditEvent)
      modifies this
      ensures e.core == CoreOf(input, invariantHash, |old(audit)|, old(lastHash)) && e.hash == hashEvent(e.core)
      ensures lastHash == e.hash && audit == LastN(old(audit) + [e], 10_000)
    {
      var core := CoreOf(input, invariantHash, |audit|, lastHash);
      e := AuditEvent(core, hashEvent(core));
      lastHash := e.hash;
      audit := audit + [e];
      if |audit| > AUDIT_LIMIT {
        audit := audit[|audit| - AUDIT_LIMIT..];
      }
    }

    /** `brokenAt` is the first event that does not continue the chain. */
    method VerifyAuditChain() returns (ok: bool, brokenAt: nat)
      ensures ok == LinksFrom(hashEvent, GENESIS, audit)
      ensures !ok ==>
                && brokenAt < |audit| && LinksFrom(hashEvent, GENESIS, audit[..brokenAt])
                && !LinkOk(hashEvent, PrevOf(GENESIS, audit, brokenAt), audit[brokenAt])
    {
      hide LinksFrom, LinkOk;
      var prev := GENESIS;
      NothingLinks(hashEvent);
      for i := 0 to |audit|
        invariant prev == PrevOf(GENESIS, audit, i) && LinksFrom(hashEvent, GENESIS, audit[..i])
      {
        var e := audit[i];
        OneMoreLink(hashEvent, audit, i);
        LinkChecks(hashEvent, prev, e);
        if e.core.prevHash != prev || hashEvent(e.core) != e.hash {
          return false, i;
        }
        prev := e.hash;
      }
      assert audit[..|audit|] == audit;
      return true, 0;
    }
  }

  lemma NothingLinks(h: Core -> string)
    ensures LinksFrom(h, GENESIS, [])
  {
  }

  lemma LinkChecks(h: Core -> string, prev: string, e: AuditEvent)
    ensures LinkOk(h, prev, e) <==> e.core.prevHash == prev && h(e.core) == e.hash
  {
  }

  /** A prefix that links stays linked with the next event exactly when that one continues it; else the log fails. */
  lemma OneMoreLink(h: Core -> string, log: seq<AuditEvent>, i: nat)
    requires i < |log| && LinksFrom(h, GENESIS, log[..i])
    ensures LinkOk(h, PrevOf(GENESIS, log, i), log[i]) <==> LinksFrom(h, GENESIS, log[..i + 1])
    ensures LinksFrom(h, GENESIS, log) ==> LinkOk(h, PrevOf(GENESIS, log, i), log[i])
  {
    hide LinkOk;
    var longer := log[..i + 1];
    forall k | 0 <= k < i
      ensures LinkOk(h, PrevOf(GENESIS, longer, k), longer[k])
    {
      assert LinkOk(h, PrevOf(GENESIS, log[..i], k), log[..i][k]);
    }
    assert PrevOf(GENESIS, longer, i) == PrevOf(GENESIS, log, i) && longer[i] == log[i];
  }

  // Tamper evidence.

  lemma LinksPrefix(h: Core -> string, start: string, log: seq<AuditEvent>)
    requires log != [] && LinksFrom(h, start, log)
    ensures LinksFrom(h, start, log[..|log| - 1])
    ensures LinkOk(h, PrevOf(start, log, |log| - 1), log[|log| - 1])
  {
    var init := log[..|log| - 1];
    forall i | 0 <= i < |init|
      ensures LinkOk(h, PrevOf(start, init, i), init[i])
    {
      assert LinkOk(h, PrevOf(start, log, i), log[i]);
    }
  }

  lemma HashFacts(h: Core -> string, c: Core, d: Core)
    requires GoodHash(h)
    ensures h(c) != GENESIS && h(d) != GENESIS && (h(c) == h(d) ==> c == d)
  {
  }

  /** Two verifying logs with the same last hash are equal, event for event. */
  lemma {:induction false} LastHashFixesLog(h: Core -> string, a: seq<AuditEvent>, b: seq<AuditEvent>)
    requires GoodHash(h)
    requires LinksFrom(h, GENESIS, a) && LinksFrom(h, GENESIS, b)
    requires PrevOf(GENESIS, a, |a|) == PrevOf(GENESIS, b, |b|)
    ensures a == b
    decreases |a|
  {
    hide LinksFrom, GoodHash;
    if a != [] {
      LinksPrefix(h, GENESIS, a);
      HashFacts(h, a[|a| - 1].core, a[|a| - 1].core);
    }
    if b != [] {
      LinksPrefix(h, GENESIS, b);
      HashFacts(h, b[|b| - 1].core, b[|b| - 1].core);
    }
    if a != [] && b != [] {
      var m, n := |a| - 1, |b| - 1;
      HashFacts(h, a[m].core, b[n].core);
      assert PrevOf(GENESIS, a, m) == PrevOf(GENESIS, a[..m], m);
      assert PrevOf(GENESIS, b, n) == PrevOf(GENESIS, b[..n], n);
      LastHashFixesLog(h, a[..m], b[..n]);
      assert a == a[..m] + [a[m]] && b == b[..n] + [b[n]];
    }
  }

  lemma LinksSuffix(h: Core -> string, start: string, log: seq<AuditEvent>, k: nat)
    requires k <= |log| && LinksFrom(h, start, log)
    ensures var kept, from := log[k..], PrevOf(start, log, k);
      LinksFrom(h, from, kept) && PrevOf(from, kept, |kept|) == PrevOf(start, log, |log|)
  {
    var kept, from := log[k..], PrevOf(start, log, k);
    forall i | 0 <= i < |kept|
      ensures LinkOk(h, PrevOf(from, kept, i), kept[i])
    {
      assert LinkOk(h, PrevOf(start, log, k + i), log[k + i]);
    }
  }

  lemma FirstPrev(h: Core -> string, start: string, log: seq<AuditEvent>)
    requires log != [] && LinksFrom(h, start, log)
    ensures log[0].core.prevHash == start && log[0].hash == h(log[0].core)
  {
    assert LinkOk(h, PrevOf(start, log, 0), log[0]);
  }

  // Runs: the retained window against the chain nobody truncates.

  /** Every event ever recorded; the window before the i-th one held min(i, limit) events. */
  function History(h: Core -> string, invariantHash: string, limit: nat, inputs: seq<Input>): (r: seq<AuditEvent>)
    ensures |r| == |inputs|
  {
    if inputs == [] then []
    else
      var n := |inputs| - 1;
      var past := History(h, invariantHash, limit, inputs[..n]);
      var core := CoreOf(inputs[n], invariantHash, |LastN(past, limit)|, PrevOf(GENESIS, past, n));
      past + [AuditEvent(core, h(core))]
  }

  datatype Window = Window(audit: seq<AuditEvent>, lastHash: string)

  /** The state after recording the inputs one by one, as RecordAudit does. */
  function Run(h: Core -> string, invariantHash: string, limit: nat, inputs: seq<Input>): Window {
    if inputs == [] then Window([], GENESIS)
    else
      var n := |inputs| - 1;
      var w := Run(h, invariantHash, limit, inputs[..n]);
      var core := CoreOf(inputs[n], invariantHash, |w.audit|, w.lastHash);
      Window(LastN(w.audit + [AuditEvent(core, h(core))], limit), h(core))
  }

  lemma {:induction false} HistoryLinks(h: Core -> string, invariantHash: string, limit: nat, inputs: seq<Input>)
    ensures LinksFrom(h, GENESIS, History(h, invariantHash, limit, inputs))
  {
    if inputs != [] {
      var n := |inputs| - 1;
      HistoryLinks(h, invariantHash, limit, inputs[..n]);
      var past, all := History(h, invariantHash, limit, inputs[..n]), History(h, invariantHash, limit, inputs);
      assert forall i :: 0 <= i <= n ==> PrevOf(GENESIS, all, i) == PrevOf(GENESIS, past, i);
    }
  }

  lemma {:induction false} WindowIsHistorySuffix(h: Core -> string, invariantHash: string, limit: nat,
                                                 inputs: seq<Input>)
    ensures var w, all := Run(h, invariantHash, limit, inputs), History(h, invariantHash, limit, inputs);
      w.audit == LastN(all, limit) && w.lastHash == PrevOf(GENESIS, all, |all|)
  {
    hide LastN;
    if inputs != [] {
      var n := |inputs| - 1;
      var past := History(h, invariantHash, limit, inputs[..n]);
      WindowIsHistorySuffix(h, invariantHash, limit, inputs[..n]);
      LastNAppend(past, History(h, invariantHash, limit, inputs)[n], limit);
    }
  }

  /**
   * After any number of events the retained window is linked to `lastHash` without a gap, starting from the
   * hash of the newest dropped event; as a whole it verifies exactly while no event has been dropped.
   */
  lemma VerifiesExactly(h: Core -> string, invariantHash: string, limit: nat, inputs: seq<Input>)
    requires GoodHash(h) && limit > 0
    ensures var w, all := Run(h, invariantHash, limit, inputs), History(h, invariantHash, limit, inputs);
      var start := if |inputs| <= limit then GENESIS else all[|all| - limit - 1].hash;
      && LinksFrom(h, start, w.audit) && w.lastHash == PrevOf(start, w.audit, |w.audit|)
      && (LinksFrom(h, GENESIS, w.audit) <==> |inputs| <= limit)
  {
    hide Run, History, LinksFrom, GoodHash;
    var w, all := Run(h, invariantHash, limit, inputs), History(h, invariantHash, limit, inputs);
    WindowIsHistorySuffix(h, invariantHash, limit, inputs);
    HistoryLinks(h, invariantHash, limit, inputs);
    if |inputs| > limit {
      var k := |all| - limit;
      LinksSuffix(h, GENESIS, all, k);
      LinksSuffix(h, GENESIS, all, k - 1);
      FirstPrev(h, PrevOf(GENESIS, all, k - 1), all[k - 1..]);
      HashFacts(h, all[k - 1].core, all[k - 1].core);
      FirstPrev(h, PrevOf(GENESIS, all, k), w.audit);
      if LinksFrom(h, GENESIS, w.audit) {
        FirstPrev(h, GENESIS, w.audit);
      }
    }
  }

  /** The i-th event ever recorded carries the i-th input, its own hash and the hash before it. */
  lemma {:induction false} RecordedFields(h: Core -> string, invariantHash: string, limit: nat, inputs: seq<Input>,
                                          i: nat)
    requires i < |inputs|
    ensures var all := History(h, invariantHash, limit, inputs);
      var c, input := all[i].core, inputs[i];
      && c.ts == input.ts && c.traceId == input.traceId && c.correlationId == input.correlationId
      && c.actor == input.actor && c.action == input.action && c.policy == input.policy
      && c.payload == input.payload && c.invariantHash == invariantHash
      && c.prevHash == (if i == 0 then "GENESIS" else all[i - 1].hash) && all[i].hash == h(c)
  {
    if i < |inputs| - 1 {
      RecordedFields(h, invariantHash, limit, inputs[..|inputs| - 1], i);
    }
  }

  /** The running sequence number stops counting once the window is full: it is min(i, limit) + 1. */
  lemma {:induction false} SequenceNumbers(h: Core -> string, invariantHash: string, limit: nat, inputs: seq<Input>,
                                           i: nat)
    requires i < |inputs|
    ensures History(h, invariantHash, limit, inputs)[i].core.seqNo == (if i < limit then i else limit) + 1
  {
    if i < |inputs| - 1 {
      SequenceNumbers(h, invariantHash, limit, inputs[..|inputs| - 1], i);
    }
  }
}
