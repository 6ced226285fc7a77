/** The per-client sliding log of granted requests of the voice service. */
module SlidingLogLimiter {
  import opened Ranges

  const WINDOW := 60.0

  type Log = map<string, seq<real>>
  datatype Request = Request(client: string, now: real)

  function LogOf(log: Log, client: string): seq<real> {
    if client in log then log[client] else []
  }

  predicate Granted(log: Log, max: int, r: Request) {
    |Since(LogOf(log, r.client), r.now - WINDOW)| < max
  }

  function Step(log: Log, max: int, r: Request): Log {
    if Granted(log, max, r)
    then log[r.client := Since(LogOf(log, r.client), r.now - WINDOW) + [r.now]]
    else log
  }

  class Limiter {
    const maxRequestsPerMinute: int
    var requestLog: Log

    constructor (max: int)
      ensures requestLog == map[] && maxRequestsPerMinute == max
    {
      maxRequestsPerMinute := max;
      requestLog := map[];
    }

    /** False where the service raises HTTP 429. */
    method EnforceRateLimit(client: string, now: real) returns (granted: bool)
      modifies this
      ensures granted == Granted(old(requestLog), maxRequestsPerMinute, Request(client, now))
      ensures requestLog == Step(old(requestLog), maxRequestsPerMinute, Request(client, now))
    {
      var past := LogOf(requestLog, client);
      var timestamps: seq<real> := [];
      for i := 0 to |past|
        invariant timestamps == Since(past[..i], now - WINDOW)
      {
        assert past[..i + 1][..i] == past[..i];
        if past[i] >= now - WINDOW {
          timestamps := timestamps + [past[i]];
        }
      }
      assert past[..|past|] == past;
      if |timestamps| >= maxRequestsPerMinute {
        return false;
      }
      timestamps := timestamps + [now];
      requestLog := requestLog[client := timestamps];
      return true;
    }
  }

  // Whole runs, with a clock that never runs backwards.

  predicate InOrder(rs: seq<Request>) {
    forall i, j :: 0 <= i < j < |rs| ==> rs[i].now <= rs[j].now
  }

  function Run(rs: seq<Request>, max: int): Log {
    if rs == [] then map[] else Step(Run(rs[..|rs| - 1], max), max, rs[|rs| - 1])
  }

  /** Every grant ever made to the client: the log nobody trims. */
  function History(rs: seq<Request>, max: int, client: string): seq<real> {
    if rs == [] then []
    else
      var init, r := rs[..|rs| - 1], rs[|rs| - 1];
      var past := History(init, max, client);
      if r.client == client && Granted(Run(init, max), max, r) then past + [r.now] else past
  }

  lemma {:induction false} HistoryNotAfter(rs: seq<Request>, max: int, client: string, now: real)
    requires forall i :: 0 <= i < |rs| ==> rs[i].now <= now
    ensures forall i :: 0 <= i < |History(rs, max, client)| ==> History(rs, max, client)[i] <= now
  {
    if rs != [] {
      HistoryNotAfter(rs[..|rs| - 1], max, client, now);
    }
  }

  lemma {:induction false} SinceTwice(ts: seq<real>, early: real, late: real)
    requires early <= late
    ensures Since(Since(ts, early), late) == Since(ts, late)
  {
    if ts != [] {
      var n := |ts| - 1;
      var kept := Since(ts[..n], early);
      SinceTwice(ts[..n], early, late);
      if ts[n] >= early {
        assert (kept + [ts[n]])[..|kept|] == kept;
      }
    }
  }

  lemma SinceAppend(ts: seq<real>, t: real, from: real)
    ensures Since(ts + [t], from) == if t >= from then Since(ts, from) + [t] else Since(ts, from)
  {
    assert (ts + [t])[..|ts|] == ts;
  }

  lemma StepLog(log: Log, max: int, r: Request, client: string)
    ensures LogOf(Step(log, max, r), client)
         == if r.client == client && Granted(log, max, r)
            then Since(LogOf(log, client), r.now - 60.0) + [r.now]
            else LogOf(log, client)
  {
  }

  /** The trimmed log answers every later window query as the full history does. */
  lemma {:induction false} LogRefinesHistory(rs: seq<Request>, max: int, client: string, from: real)
    requires InOrder(rs) && forall i :: 0 <= i < |rs| ==> rs[i].now - 60.0 <= from
    ensures Since(LogOf(Run(rs, max), client), from) == Since(History(rs, max, client), from)
  {
    if rs != [] {
      var init, r := rs[..|rs| - 1], rs[|rs| - 1];
      LogRefinesHistory(init, max, client, from);
      hide Since, LogOf, InOrder;
      var past, h := LogOf(Run(init, max), client), History(init, max, client);
      StepLog(Run(init, max), max, r, client);
      if r.client == client && Granted(Run(init, max), max, r) {
        SinceTwice(past, r.now - 60.0, from);
        SinceAppend(Since(past, r.now - 60.0), r.now, from);
        SinceAppend(h, r.now, from);
      }
    }
  }

  lemma {:induction false} SinceBoundsInterval(ts: seq<real>, from: real, a: real, b: real)
    requires from <= a
    ensures CountIn(ts, a, b) <= |Since(ts, from)|
  {
    if ts != [] {
      SinceBoundsInterval(ts[..|ts| - 1], from, a, b);
    }
  }

  /** In every run a client gets at most `max` grants in any closed interval of 60 s (none when max <= 0). */
  lemma {:induction false} IntervalBound(rs: seq<Request>, max: int, client: string, a: real)
    requires InOrder(rs)
    ensures CountIn(History(rs, max, client), a, a + 60.0) <= if max > 0 then max else 0
  {
    hide Since, LogOf, Run, History, CountIn, InOrder;
    if rs == [] {
      NoHistory(max, client, a);
    } else {
      var init, r := rs[..|rs| - 1], rs[|rs| - 1];
      assert init + [r] == rs;
      OrderedPrefix(init, r);
      IntervalBound(init, max, client, a);
      HistoryStep(rs, max, client);
      var h := History(init, max, client);
      CountInAppend(h, r.now, a, a + 60.0);
      if r.client == client && a <= r.now <= a + 60.0 {
        LogRefinesHistory(init, max, client, r.now - 60.0);
        SinceBoundsInterval(h, r.now - 60.0, a, a + 60.0);
      }
    }
  }

  lemma NoHistory(max: int, client: string, a: real)
    ensures CountIn(History([], max, client), a, a + 60.0) == 0
  {
  }

  lemma HistoryStep(rs: seq<Request>, max: int, client: string)
    requires rs != []
    ensures var init, r := rs[..|rs| - 1], rs[|rs| - 1];
      History(rs, max, client)
      == if r.client == client && Granted(Run(init, max), max, r)
         then History(init, max, client) + [r.now]
         else History(init, max, client)
  {
    hide Run, Granted;
  }

  /** A request is refused exactly when the client already has `max` grants in the trailing closed 60 s. */
  lemma RefusedExact(rs: seq<Request>, max: int, r: Request)
    requires InOrder(rs + [r])
    ensures !Granted(Run(rs, max), max, r) <==>
            CountIn(History(rs, max, r.client), r.now - 60.0, r.now) == if max > 0 then max else 0
    ensures max <= 0 ==> !Granted(Run(rs, max), max, r)
  {
    hide InOrder, History, Since, CountIn, LogOf, Run;
    OrderedPrefix(rs, r);
    HistoryNotAfter(rs, max, r.client, r.now);
    LogRefinesHistory(rs, max, r.client, r.now - 60.0);
    SinceIsInterval(History(rs, max, r.client), r.now);
    IntervalBound(rs, max, r.client, r.now - 60.0);
  }

  lemma OrderedPrefix(rs: seq<Request>, r: Request)
    requires InOrder(rs + [r])
    ensures InOrder(rs) && forall i :: 0 <= i < |rs| ==> rs[i].now <= r.now
  {
    var all := rs + [r];
    assert forall i :: 0 <= i < |rs| ==> all[i] == rs[i] && all[i].now <= all[|rs|].now;
  }

  lemma {:induction false} SinceIsInterval(ts: seq<real>, now: real)
    requires forall i :: 0 <= i < |ts| ==> ts[i] <= now
    ensures |Since(ts, now - 60.0)| == CountIn(ts, now - 60.0, now)
  {
    if ts != [] {
      SinceIsInterval(ts[..|ts| - 1], now);
    }
  }
}
