/** The per-key fixed-window counter of the policy kernel. */
module FixedWindowLimiter {

  const RATE_WINDOW_MS := 60_000
  const RATE_MAX := 120

  datatype Window = Window(count: nat, windowStart: int)
  datatype Verdict = Verdict(ok: bool, count: nat)
  datatype Request = Request(key: string, now: int)

  type Windows = map<string, Window>

  /** The window a request falls into, counting the request itself. */
  function Admit(windows: Windows, r: Request): (w: Window)
    ensures w.count >= 1
  {
    var w := if r.key in windows then windows[r.key] else Window(0, r.now);
    if r.now - w.windowStart > RATE_WINDOW_MS then Window(1, r.now) else w.(count := w.count + 1)
  }

  function Step(windows: Windows, r: Request): Windows {
    windows[r.key := Admit(windows, r)]
  }

  predicate Granted(windows: Windows, r: Request) {
    Admit(windows, r).count <= RATE_MAX
  }

  class Limiter {
    var rateWindows: Windows

    constructor ()
      ensures rateWindows == map[]
    {
      rateWindows := map[];
    }

    method CheckRate(key: string, now: int) returns (v: Verdict)
      modifies this
      ensures rateWindows == Step(old(rateWindows), Request(key, now))
      ensures v.ok == Granted(old(rateWindows), Request(key, now)) && v.count == rateWindows[key].count
    {
      var w := if key in rateWindows then rateWindows[key] else Window(0, now);
      if now - w.windowStart > RATE_WINDOW_MS {
        rateWindows := rateWindows[key := Window(1, now)];
        return Verdict(true, 1);
      }
      w := w.(count := w.count + 1);
      rateWindows := rateWindows[key := w];
      return Verdict(w.count <= RATE_MAX, w.count);
    }
  }

  // Whole runs, with a clock that never runs backwards.

  predicate InOrder(rs: seq<Request>) {
    forall i, j :: 0 <= i < j < |rs| ==> rs[i].now <= rs[j].now
  }

  /** Requests of `key` granted with a clock reading in the closed interval [a, a + 60000]. */
  function GrantsIn(windows: Windows, rs: seq<Request>, key: string, a: int): nat
    decreases |rs|
  {
    if rs == [] then 0
    else
      var r := rs[0];
      (if r.key == key && a <= r.now <= a + 60_000 && Granted(windows, r) then 1 else 0)
      + GrantsIn(Step(windows, r), rs[1..], key, a)
  }

  /** How many more grants the interval can see, given the key's window and the last clock reading. */
  function Allowance(windows: Windows, key: string, a: int, last: int): nat {
    var left := if key in windows && windows[key].count <= 120 then 120 - windows[key].count else 0;
    if key in windows && windows[key].windowStart >= a then left
    else if key in windows && last >= a then left + 120
    else 239
  }

  lemma {:induction false} GrantsWithinAllowance(windows: Windows, rs: seq<Request>, key: string, a: int, last: int)
    requires InOrder(rs) && (rs != [] ==> last <= rs[0].now)
    requires key in windows ==> windows[key].count >= 1 && windows[key].windowStart <= last
    ensures GrantsIn(windows, rs, key, a) <= Allowance(windows, key, a, last)
    decreases |rs|
  {
    if rs != [] {
      var r := rs[0];
      if r.now > a + 60_000 {
        NoneAfter(windows, rs, key, a);
      } else {
        GrantsWithinAllowance(Step(windows, r), rs[1..], key, a, r.now);
      }
    }
  }

  lemma {:induction false} NoneAfter(windows: Windows, rs: seq<Request>, key: string, a: int)
    requires InOrder(rs) && (rs != [] ==> rs[0].now > a + 60_000)
    ensures GrantsIn(windows, rs, key, a) == 0
    decreases |rs|
  {
    if rs != [] {
      NoneAfter(Step(windows, rs[0]), rs[1..], key, a);
    }
  }

  /** In every run, whatever other keys do, a closed interval of 60000 ms sees at most 239 grants of one key. */
  lemma IntervalBound(rs: seq<Request>, key: string, a: int)
    requires InOrder(rs)
    ensures GrantsIn(map[], rs, key, a) <= 239
  {
    GrantsWithinAllowance(map[], rs, key, a, if rs == [] then 0 else rs[0].now);
  }

  // The bound is attained: one request opens a window, 119 close it, and 120 fill the next one.

  function Repeat(key: string, now: int, n: nat): seq<Request> {
    seq(n, _ => Request(key, now))
  }

  function BoundaryBurst(key: string, start: int): seq<Request> {
    [Request(key, start)] + Repeat(key, start + 60_000, 119)
    + Repeat(key, start + 60_000 + 1, 120)
  }

  lemma {:induction false} SameWindowGrants(windows: Windows, key: string, now: int, n: nat, rest: seq<Request>, a: int)
    requires key in windows && 0 <= now - windows[key].windowStart <= 60_000
    requires windows[key].count + n <= 120 && a <= now <= a + 60_000
    ensures GrantsIn(windows, Repeat(key, now, n) + rest, key, a)
         == n + GrantsIn(windows[key := windows[key].(count := windows[key].count + n)], rest, key, a)
  {
    var rs := Repeat(key, now, n) + rest;
    if n == 0 {
      assert rs == rest;
      assert windows[key := windows[key]] == windows;
    } else {
      var after := Step(windows, rs[0]);
      assert rs[1..] == Repeat(key, now, n - 1) + rest;
      SameWindowGrants(after, key, now, n - 1, rest, a);
      assert after[key := after[key].(count := after[key].count + n - 1)]
          == windows[key := windows[key].(count := windows[key].count + n)];
    }
  }

  lemma BoundAttained(key: string, start: int)
    ensures InOrder(BoundaryBurst(key, start))
    ensures GrantsIn(map[], BoundaryBurst(key, start), key, start + 1) == 239
  {
    var rs := BoundaryBurst(key, start);
    var second := Repeat(key, start + 60_000 + 1, 120);
    var first := Repeat(key, start + 60_000, 119);
    var w1 := Step(map[], rs[0]);
    assert rs[1..] == first + second;
    SameWindowGrants(w1, key, start + 60_000, 119, second, start + 1);
    var w2 := w1[key := Window(120, start)];
    var w3 := Step(w2, second[0]);
    var tail := Repeat(key, start + 60_000 + 1, 119);
    assert second[1..] == tail + [];
    SameWindowGrants(w3, key, start + 60_000 + 1, 119, [], start + 1);
  }
}
