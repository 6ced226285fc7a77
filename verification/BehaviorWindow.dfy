/** The capped behaviour window of a subject and the score derived from it. */
module BehaviorWindow {
  import opened Collections
  import opened Options
  import opened JsNumbers
  import opened Ranges
  import opened TenantKeys
  import opened AuthorizationPolicy

  const WINDOW_MS := 600_000.0
  const BURST_MS := 60_000.0
  const MAX_EVENTS: nat := 120

  datatype Window = Window(
    timestamps: seq<real>, lastDeviceFingerprint: Option<string>, lastCountry: Option<string>, denials: nat)

  type Windows = map<string, Window>

  const EMPTY_WINDOW := Window([], None, None, 0)

  /** What the request headers yield: a fingerprint, and geography from a trusted edge only. */
  datatype Probe = Probe(tenantId: string, subjectId: string, fingerprint: string, geo: Option<Geo>)

  function WindowOf(windows: Windows, key: string): Window {
    if key in windows then windows[key] else EMPTY_WINDOW
  }

  function Trim(timestamps: seq<real>, now: real): seq<real> {
    LastN(Since(timestamps, now - WINDOW_MS), MAX_EVENTS)
  }

  /** The score of `recent` requests within the last minute and a number of denials. */
  function Score(recent: nat, denials: nat): (s: real)
    ensures 0.0 <= s <= 100.0
  {
    var burst := Clamp(if recent <= 4 then 0.0 else (recent - 4) as real / 20.0 * 70.0, 0.0, 100.0);
    var denial := Clamp((if denials <= 10 then denials else 10) as real * 3.0, 0.0, 100.0);
    Clamp(burst + denial, 0.0, 100.0)
  }

  lemma ScoreIsDyadic(recent: nat, denials: nat)
    ensures IsDyadic(Score(recent, denials)) && IsDyadic(0.0)
  {
    ScoreIsHalfPoints(recent, denials);
    HalfIsDyadic(HalfPoints(recent, denials));
    HalfIsDyadic(0);
  }

  function CountryOf(geo: Option<Geo>): Option<string> {
    if geo.Some? then geo.value.country else None
  }

  /** The subject's window and context after one request at `now`. */
  function Observe(w: Window, p: Probe, now: real): (Window, DynamicContext) {
    var country := CountryOf(p.geo);
    var timestamps := Trim(Trim(w.timestamps, now) + [now], now);
    var next := Window(timestamps, Some(p.fingerprint), if country.Some? then country else w.lastCountry, w.denials);
    var score := Score(CountSince(timestamps, now - BURST_MS), w.denials);
    ScoreIsDyadic(CountSince(timestamps, now - BURST_MS), w.denials);
    (next, DynamicContext(
       p.geo, Some(p.fingerprint), Some(Fin(score)), Some(ThreatIntel(Fin(0.0), "none", [])),
       w.lastCountry.Some? && country.Some? && w.lastCountry != country,
       w.lastDeviceFingerprint.Some? && w.lastDeviceFingerprint != Some(p.fingerprint)))
  }

  function Build(windows: Windows, p: Probe, now: real): (Windows, DynamicContext) {
    var key := KeyOf(p.tenantId, p.subjectId);
    var (next, context) := Observe(WindowOf(windows, key), p, now);
    (windows[key := next], context)
  }

  function Record(windows: Windows, tenantId: string, subjectId: string, allowed: bool): Windows {
    var key := KeyOf(tenantId, subjectId);
    var w := WindowOf(windows, key);
    windows[key := if allowed then w else w.(denials := Lesser(MAX_EVENTS, w.denials + 1))]
  }

  class BehaviorStore {
    var behavior: Windows

    constructor ()
      ensures behavior == map[]
    {
      behavior := map[];
    }

    method BuildAuthorizationDynamicContext(p: Probe, now: real) returns (context: DynamicContext)
      modifies this
      ensures (behavior, context) == Build(old(behavior), p, now)
    {
      var key := KeyOf(p.tenantId, p.subjectId);
      var state := WindowOf(behavior, key);
      state := state.(timestamps := Trim(state.timestamps, now));
      state := state.(timestamps := state.timestamps + [now]);
      var deviceChanged := state.lastDeviceFingerprint.Some? && state.lastDeviceFingerprint.value != p.fingerprint;
      var country := CountryOf(p.geo);
      var geoMismatch := state.lastCountry.Some? && country.Some? && state.lastCountry.value != country.value;
      state := state.(lastDeviceFingerprint := Some(p.fingerprint));
      if country.Some? {
        state := state.(lastCountry := country);
      }
      state := state.(timestamps := Trim(state.timestamps, now));
      var score := Score(CountSince(state.timestamps, now - BURST_MS), state.denials);
      ScoreIsDyadic(CountSince(state.timestamps, now - BURST_MS), state.denials);
      behavior := behavior[key := state];
      context := DynamicContext(
        p.geo, Some(p.fingerprint), Some(Fin(score)), Some(ThreatIntel(Fin(0.0), "none", [])),
        geoMismatch, deviceChanged);
    }

    method RecordAuthorizationOutcome(tenantId: string, subjectId: string, allowed: bool)
      modifies this
      ensures behavior == Record(old(behavior), tenantId, subjectId, allowed)
    {
      var key := KeyOf(tenantId, subjectId);
      var state := WindowOf(behavior, key);
      if !allowed {
        state := state.(denials := Lesser(MAX_EVENTS, state.denials + 1));
      }
      behavior := behavior[key := state];
    }
  }

  // The score.

  /** The score counted in half points: 7 per request beyond the fourth, 6 per denial up to ten, 200 at most. */
  function HalfPoints(recent: nat, denials: nat): (h: nat)
    ensures h <= 200
  {
    var burst := if recent <= 4 then 0 else 7 * (recent - 4);
    var total := burst + 6 * (if denials <= 10 then denials else 10);
    if total > 200 then 200 else total
  }

  /** Every score is a whole number of half points, so printing it with two decimals loses nothing. */
  lemma ScoreIsHalfPoints(recent: nat, denials: nat)
    ensures Score(recent, denials) == HalfPoints(recent, denials) as real / 2.0
  {
  }

  /** The score in full: 3.5 per request beyond the fourth, 3 per denial up to ten, 100 at most. */
  lemma ScoreExact(recent: nat, denials: nat)
    ensures var burst := if recent <= 4 then 0.0 else 3.5 * (recent - 4) as real;
      var total := burst + 3.0 * (if denials <= 10 then denials else 10) as real;
      Score(recent, denials) == if total > 100.0 then 100.0 else total
  {
  }

  /** The 120-event cap is invisible: beyond 33 recent requests the score is 100 anyway. */
  lemma CapInvisible(recent: nat, denials: nat)
    ensures Score(Lesser(120, recent), denials) == Score(recent, denials)
    ensures Score(recent, Lesser(120, denials)) == Score(recent, denials)
  {
  }

  /** Scores up to 80 mean at most 26 requests in the last minute, and at most 18 after ten denials. */
  lemma CalmScore(recent: nat, denials: nat)
    ensures Score(recent, denials) <= 80.0 <==> HalfPoints(recent, denials) <= 160
    ensures HalfPoints(recent, denials) <= 160 ==> recent <= if denials >= 10 then 18 else 26
  {
    ScoreIsHalfPoints(recent, denials);
  }

  // The window against the whole history.

  /** The timestamps kept are the last min(120, number within ten minutes) of all there ever were. */
  predicate Mirrors(timestamps: seq<real>, history: seq<real>) {
    && Sorted(history)
    && (history == [] ==> timestamps == [])
    && (history != [] ==>
          timestamps == LastN(history, Lesser(120, CountSince(history, history[|history| - 1] - 600_000.0))))
  }

  /** One more request: the window still mirrors the history, and scores as the full history would. */
  lemma ObserveMirrors(w: Window, history: seq<real>, p: Probe, now: real)
    requires Mirrors(w.timestamps, history) && (history != [] ==> history[|history| - 1] <= now)
    ensures var (next, context) := Observe(w, p, now);
      && Mirrors(next.timestamps, history + [now])
      && context.behaviorScore == Some(Fin(Score(CountSince(history + [now], now - 60_000.0), w.denials)))
  {
    hide Sorted, Trim, CountSince, Since, LastN, Score, Lesser;
    var all := history + [now];
    var c := CountSince(all, now - 600_000.0);
    SortedAppend(history, now);
    WindowAfter(w.timestamps, history, now);
    LesserTwice(120, c, CountSince(all, now - 60_000.0));
    CountInLastN(all, Lesser(120, c), now - 60_000.0);
    CountLater(all, now - 600_000.0, now - 60_000.0);
    CapInvisible(CountSince(all, now - 60_000.0), w.denials);
  }

  lemma WindowAfter(timestamps: seq<real>, history: seq<real>, now: real)
    requires Mirrors(timestamps, history) && Sorted(history + [now])
    requires history != [] ==> history[|history| - 1] <= now
    ensures Trim(Trim(timestamps, now) + [now], now)
         == LastN(history + [now], Lesser(120, CountSince(history + [now], now - 600_000.0)))
  {
    hide Mirrors, Sorted, CountSince, Since, LastN;
    var all := history + [now];
    var from := now - 600_000.0;
    var m, c := Lesser(120, CountSince(history, from)), CountSince(all, from);
    TrimMirrors(timestamps, history, now);
    CountAppend(history, now, from);
    LastNExtend(history, now, m);
    SortedSuffix(all, m + 1);
    SinceIsLastN(LastN(all, m + 1), from);
    CountInLastN(all, m + 1, from);
    LastNTwice(all, m + 1, Lesser(m + 1, c));
    LastNTwice(all, Lesser(m + 1, c), 120);
  }

  lemma LesserTwice(a: nat, b: nat, c: nat)
    ensures c <= b ==> Lesser(Lesser(a, b), c) == Lesser(a, c)
  {
  }

  lemma SortedAppend(ts: seq<real>, t: real)
    requires Sorted(ts) && (ts != [] ==> ts[|ts| - 1] <= t)
    ensures Sorted(ts + [t])
  {
  }

  lemma TrimMirrors(timestamps: seq<real>, history: seq<real>, now: real)
    requires Mirrors(timestamps, history) && (history != [] ==> history[|history| - 1] <= now)
    ensures Trim(timestamps, now) == LastN(history, Lesser(120, CountSince(history, now - 600_000.0)))
  {
    hide Sorted, CountSince, Since, LastN;
    if history == [] {
      TrimEmpty(now);
    } else {
      var last := history[|history| - 1];
      var c0, c := CountSince(history, last - 600_000.0), CountSince(history, now - 600_000.0);
      CountLater(history, last - 600_000.0, now - 600_000.0);
      var m := Lesser(120, c0);
      SortedSuffix(history, m);
      SinceIsLastN(timestamps, now - 600_000.0);
      CountInLastN(history, m, now - 600_000.0);
      LastNTwice(history, m, Lesser(m, c));
      LastNTwice(history, Lesser(m, c), 120);
    }
  }

  lemma TrimEmpty(now: real)
    ensures Trim([], now) == [] && forall n :: LastN<int>([], n) == []
  {
  }
}
