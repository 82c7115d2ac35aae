/** The per-key token-bucket limiter with eviction of idle buckets; tokens and time are reals. */
module RateLimit {
  import opened Ast

  datatype Config = Config(rate: real, burst: int)

  datatype Bucket = Bucket(tokens: real, lastTick: real)

  /** Buckets untouched for longer than this many seconds are evicted. */
  const IDLE := 300.0

  function WithDefaults(cfg: Config): (r: Config)
    ensures Usable(r)
    ensures r.rate == if cfg.rate > 0.0 then cfg.rate else 100.0
    ensures r.burst == if cfg.burst > 0 then cfg.burst else 200
    ensures Usable(cfg) <==> r == cfg
  {
    Config(if cfg.rate <= 0.0 then 100.0 else cfg.rate, if cfg.burst <= 0 then 200 else cfg.burst)
  }

  predicate Usable(cfg: Config) {
    cfg.rate > 0.0 && cfg.burst > 0
  }

  /** The tokens that a rate yields over a span of time. */
  function Gain(rate: real, span: real): real {
    rate * span
  }

  function Lookup(buckets: map<string, Bucket>, key: string): Option<Bucket> {
    if key in buckets then Some(buckets[key]) else None
  }

  /** The tokens a key has at `now`; a key without a bucket has a full one. */
  function Level(cfg: Config, bucket: Option<Bucket>, now: real): real {
    var full := cfg.burst as real;
    match bucket
    case None => full
    case Some(b) =>
      var refilled := b.tokens + Gain(cfg.rate, now - b.lastTick);
      if refilled > full then full else refilled
  }

  function AfterCall(cfg: Config, bucket: Option<Bucket>, now: real): Bucket {
    var level := Level(cfg, bucket, now);
    Bucket(if level < 1.0 then level else level - 1.0, now)
  }

  predicate Stale(b: Bucket, now: real) {
    b.lastTick < now - IDLE
  }

  function Evict(buckets: map<string, Bucket>, now: real): map<string, Bucket> {
    map key | key in buckets && !Stale(buckets[key], now) :: buckets[key]
  }

  class Limiter {
    var buckets: map<string, Bucket>
    const config: Config

    constructor (cfg: Config)
      ensures buckets == map[] && config == WithDefaults(cfg)
    {
      buckets := map[];
      var c := cfg;
      if c.rate <= 0.0 {
        c := c.(rate := 100.0);
      }
      if c.burst <= 0 {
        c := c.(burst := 200);
      }
      config := c;
    }

    /** `created` and `now` are the two clock readings of a call. */
    method Allow(key: string, created: real, now: real) returns (ok: bool)
      requires created <= now && Usable(config)
      modifies this
      ensures ok <==> Level(config, Lookup(old(buckets), key), now) >= 1.0
      ensures buckets == old(buckets)[key := AfterCall(config, Lookup(old(buckets), key), now)]
    {
      var b := Bucket(config.burst as real, created);
      if key in buckets {
        b := buckets[key];
      }
      var elapsed := now - b.lastTick;
      var tokens := b.tokens + Gain(config.rate, elapsed);
      FasterRate(0.0, config.rate, now - created);
      if tokens > config.burst as real {
        tokens := config.burst as real;
      }
      if tokens < 1.0 {
        buckets := buckets[key := Bucket(tokens, now)];
        return false;
      }
      buckets := buckets[key := Bucket(tokens - 1.0, now)];
      ok := true;
    }

    method Cleanup(now: real)
      modifies this
      ensures buckets == Evict(old(buckets), now)
      ensures forall key :: key in buckets <==> key in old(buckets) && now - old(buckets)[key].lastTick <= 300.0
      ensures forall key | key in buckets :: buckets[key] == old(buckets)[key]
    {
      var cutoff := now - 300.0;
      var keys := buckets.Keys;
      while keys != {}
        invariant keys <= buckets.Keys <= old(buckets).Keys
        invariant forall key | key in buckets :: buckets[key] == old(buckets)[key]
        invariant forall key | key in buckets :: key in keys || !Stale(buckets[key], now)
        invariant forall key | key in old(buckets) :: key !in buckets ==> Stale(old(buckets)[key], now)
        decreases keys
      {
        var key :| key in keys;
        keys := keys - {key};
        if buckets[key].lastTick < cutoff {
          buckets := buckets - {key};
        }
      }
    }
  }

  // ---------- Runs ----------

  datatype Event = Call(key: string, at: real) | Sweep(at: real)

  ghost predicate Ordered(events: seq<Event>) {
    forall i, j | 0 <= i < j < |events| :: events[i].at <= events[j].at
  }

  ghost predicate Before(events: seq<Event>, now: real) {
    forall e <- events :: e.at <= now
  }

  ghost function Step(cfg: Config, buckets: map<string, Bucket>, e: Event): map<string, Bucket> {
    match e
    case Call(key, now) => buckets[key := AfterCall(cfg, Lookup(buckets, key), now)]
    case Sweep(now) => Evict(buckets, now)
  }

  /** The buckets after a run from an empty limiter. */
  ghost function Run(cfg: Config, events: seq<Event>): map<string, Bucket> {
    if events == [] then map[] else Step(cfg, Run(cfg, events[..|events| - 1]), events[|events| - 1])
  }

  /** The answer a call would get after a run. */
  ghost predicate Answer(cfg: Config, events: seq<Event>, key: string, now: real) {
    Level(cfg, Lookup(Run(cfg, events), key), now) >= 1.0
  }

  /** The times at which calls of `key` were accepted. */
  ghost function Accepted(cfg: Config, events: seq<Event>, key: string): seq<real> {
    if events == [] then [] else
    var init, last := events[..|events| - 1], events[|events| - 1];
    Accepted(cfg, init, key) +
    if last.Call? && last.key == key && Answer(cfg, init, key, last.at) then [last.at] else []
  }

  lemma {:induction false} NeverCalled(cfg: Config, events: seq<Event>, key: string)
    requires forall e <- events :: e.Call? ==> e.key != key
    ensures key !in Run(cfg, events)
  {
    if events != [] {
      NeverCalled(cfg, events[..|events| - 1], key);
    }
  }

  /** The first call of every key is accepted, whatever the configuration and whatever came before. */
  lemma FirstCallAccepted(cfg: Config, events: seq<Event>, key: string, now: real)
    requires forall e <- events :: e.Call? ==> e.key != key
    ensures Answer(WithDefaults(cfg), events, key, now)
  {
    NeverCalled(WithDefaults(cfg), events, key);
  }

  /** How many of the times are at or after `s`. */
  ghost function Count(times: seq<real>, s: real): nat {
    if times == [] then 0 else
    Count(times[..|times| - 1], s) + if times[|times| - 1] >= s then 1 else 0
  }

  /** Accepting one more request at `now` keeps every window that ends at `now` within
      the burst plus the rate times the length of the window. */
  ghost predicate Fits(cfg: Config, times: seq<real>, now: real) {
    forall s | s <= now :: Count(times, s) as real + 1.0 <= cfg.burst as real + Gain(cfg.rate, now - s)
  }

  // ---------- The invariant of one key ----------

  lemma {:induction false} CountNone(times: seq<real>, s: real)
    requires forall i | 0 <= i < |times| :: times[i] < s
    ensures Count(times, s) == 0
  {
    if times != [] {
      CountNone(times[..|times| - 1], s);
    }
  }

  lemma CountMore(times: seq<real>, x: real, s: real)
    ensures Count(times + [x], s) == Count(times, s) + if x >= s then 1 else 0
  {
  }

  /** Rates: splitting a span, and a larger rate over a non-negative span. */
  lemma Spans(rate: real, a: real, b: real, c: real)
    ensures Gain(rate, c - a) == Gain(rate, b - a) + Gain(rate, c - b)
  {
  }

  lemma FasterRate(slow: real, fast: real, span: real)
    requires slow <= fast && span >= 0.0
    ensures Gain(slow, span) <= Gain(fast, span)
    ensures slow == 0.0 ==> Gain(slow, span) == 0.0
  {
  }

  lemma LongerSpan(rate: real, short: real, long: real)
    requires rate >= 0.0 && short <= long
    ensures Gain(rate, short) <= Gain(rate, long)
  {
  }

  /** What holds of a key at `now` when `pace` is at least the rate and refills a burst within `IDLE`:
      the tokens that are left bound the requests accepted in every window. */
  ghost predicate Bounded(cfg: Config, pace: real, bucket: Option<Bucket>, times: seq<real>, now: real) {
    match bucket
    case None =>
      && (forall i | 0 <= i < |times| :: times[i] < now)
      && (forall s | s <= now :: Count(times, s) as real <= Gain(pace, now - s))
    case Some(b) =>
      && b.lastTick <= now && 0.0 <= b.tokens <= cfg.burst as real
      && (forall i | 0 <= i < |times| :: times[i] <= b.lastTick)
      && (forall s | s <= b.lastTick ::
            Count(times, s) as real + b.tokens <= cfg.burst as real + Gain(pace, b.lastTick - s))
  }

  /** The tokens that are left are exactly what some window allows. */
  ghost predicate Tight(cfg: Config, bucket: Option<Bucket>, times: seq<real>) {
    bucket.Some? ==>
      exists w | w <= bucket.value.lastTick ::
        Count(times, w) as real + bucket.value.tokens ==
        cfg.burst as real + Gain(cfg.rate, bucket.value.lastTick - w)
  }

  lemma LevelBounded(
    cfg: Config, pace: real, bucket: Option<Bucket>, times: seq<real>, now: real, t: real, s: real)
    requires Usable(cfg) && cfg.rate <= pace && now <= t && s <= t
    requires Bounded(cfg, pace, bucket, times, now)
    ensures 0.0 <= Level(cfg, bucket, t) <= cfg.burst as real
    ensures Count(times, s) as real + Level(cfg, bucket, t) <= cfg.burst as real + Gain(pace, t - s)
  {
    match bucket
    case None =>
      if s <= now {
        Spans(pace, s, now, t);
        FasterRate(0.0, pace, t - now);
      } else {
        CountNone(times, s);
        FasterRate(0.0, pace, t - s);
      }
    case Some(b) =>
      FasterRate(0.0, cfg.rate, t - b.lastTick);
      FasterRate(cfg.rate, pace, t - b.lastTick);
      if s <= b.lastTick {
        Spans(pace, s, b.lastTick, t);
      } else {
        CountNone(times, s);
        FasterRate(0.0, pace, t - s);
      }
  }

  lemma LevelTight(cfg: Config, bucket: Option<Bucket>, times: seq<real>, now: real, t: real) returns (w: real)
    requires Usable(cfg) && now <= t && Bounded(cfg, cfg.rate, bucket, times, now) && Tight(cfg, bucket, times)
    requires bucket.None? ==> forall i | 0 <= i < |times| :: times[i] < t
    ensures w <= t
    ensures Count(times, w) as real + Level(cfg, bucket, t) == cfg.burst as real + Gain(cfg.rate, t - w)
  {
    match bucket
    case None =>
      w := t;
      CountNone(times, t);
    case Some(b) =>
      if b.tokens + Gain(cfg.rate, t - b.lastTick) > cfg.burst as real {
        w := t;
        CountNone(times, t);
      } else {
        w :| w <= b.lastTick &&
             Count(times, w) as real + b.tokens == cfg.burst as real + Gain(cfg.rate, b.lastTick - w);
        Spans(cfg.rate, w, b.lastTick, t);
      }
  }

  /** A call keeps the bound. */
  lemma CallBounded(cfg: Config, pace: real, bucket: Option<Bucket>, times: seq<real>, now: real, t: real)
    requires Usable(cfg) && cfg.rate <= pace && now <= t && Bounded(cfg, pace, bucket, times, now)
    ensures var times' := if Level(cfg, bucket, t) >= 1.0 then times + [t] else times;
            Bounded(cfg, pace, Some(AfterCall(cfg, bucket, t)), times', t)
  {
    var times' := if Level(cfg, bucket, t) >= 1.0 then times + [t] else times;
    LevelBounded(cfg, pace, bucket, times, now, t, t);
    var after := AfterCall(cfg, bucket, t);
    forall s | s <= t
      ensures Count(times', s) as real + after.tokens <= cfg.burst as real + Gain(pace, t - s)
    {
      LevelBounded(cfg, pace, bucket, times, now, t, s);
      CountMore(times, t, s);
    }
  }

  /** A call keeps tightness. */
  lemma CallTight(cfg: Config, bucket: Option<Bucket>, times: seq<real>, now: real, t: real)
    requires Usable(cfg) && now <= t && Bounded(cfg, cfg.rate, bucket, times, now) && Tight(cfg, bucket, times)
    ensures var times' := if Level(cfg, bucket, t) >= 1.0 then times + [t] else times;
            Tight(cfg, Some(AfterCall(cfg, bucket, t)), times')
  {
    var w := LevelTight(cfg, bucket, times, now, t);
    CountMore(times, t, w);
    var times' := if Level(cfg, bucket, t) >= 1.0 then times + [t] else times;
    var after := AfterCall(cfg, bucket, t);
    assert Count(times', w) as real + after.tokens == cfg.burst as real + Gain(cfg.rate, after.lastTick - w);
  }

  /** Time passing, and eviction when a burst refills within `IDLE`, keep the bound. */
  lemma SweepBounded(cfg: Config, pace: real, bucket: Option<Bucket>, times: seq<real>, now: real, t: real)
    requires Usable(cfg) && 0.0 < pace && cfg.burst as real <= Gain(pace, IDLE) && now <= t
    requires Bounded(cfg, pace, bucket, times, now)
    ensures Bounded(cfg, pace, bucket, times, t)
    ensures bucket.Some? && Stale(bucket.value, t) ==> Bounded(cfg, pace, None, times, t)
  {
    forall s | s <= t
      ensures bucket.None? ==> Count(times, s) as real <= Gain(pace, t - s)
      ensures bucket.Some? && Stale(bucket.value, t) ==> Count(times, s) as real <= Gain(pace, t - s)
    {
      var last := if bucket.None? then now else bucket.value.lastTick;
      if s <= last {
        Spans(pace, s, last, t);
        FasterRate(0.0, pace, t - last);
        if bucket.Some? && Stale(bucket.value, t) {
          LongerSpan(pace, IDLE, t - last);
        }
      } else {
        CountNone(times, s);
        FasterRate(0.0, pace, t - s);
      }
    }
  }

  // ---------- All runs ----------

  ghost predicate Safe(cfg: Config, pace: real) {
    Usable(cfg) && cfg.rate <= pace && cfg.burst as real <= Gain(pace, IDLE)
  }

  lemma {:induction false} RunBounded(cfg: Config, pace: real, events: seq<Event>, key: string, now: real)
    requires Safe(cfg, pace) && Ordered(events) && Before(events, now)
    ensures Bounded(cfg, pace, Lookup(Run(cfg, events), key), Accepted(cfg, events, key), now)
    ensures pace == cfg.rate ==> Tight(cfg, Lookup(Run(cfg, events), key), Accepted(cfg, events, key))
  {
    if events == [] {
      forall s | s <= now
        ensures Count([], s) as real <= Gain(pace, now - s)
      {
        FasterRate(0.0, pace, now - s);
      }
    } else {
      var init, last := events[..|events| - 1], events[|events| - 1];
      assert last in events;
      forall e | e in init
        ensures e.at <= last.at
      {
      }
      RunBounded(cfg, pace, init, key, last.at);
      var bucket, times := Lookup(Run(cfg, init), key), Accepted(cfg, init, key);
      assert times + [] == times;
      if last.Call? && last.key == key {
        CallBounded(cfg, pace, bucket, times, last.at, last.at);
        if pace == cfg.rate {
          CallTight(cfg, bucket, times, last.at, last.at);
        }
      } else {
        SweepBounded(cfg, pace, bucket, times, last.at, last.at);
      }
      SweepBounded(cfg, pace, Lookup(Run(cfg, events), key), Accepted(cfg, events, key), last.at, now);
    }
  }

  /** Eviction never forgets a bucket that is not full again. */
  ghost predicate RefillsWhileIdle(cfg: Config) {
    cfg.burst as real <= Gain(cfg.rate, IDLE)
  }

  /** Optimality: a call is accepted exactly when accepting it keeps every window within bounds. */
  lemma AnswerIsOptimal(cfg: Config, events: seq<Event>, key: string, now: real)
    requires Usable(cfg) && RefillsWhileIdle(cfg) && Ordered(events) && Before(events, now)
    ensures Answer(cfg, events, key, now) <==> Fits(cfg, Accepted(cfg, events, key), now)
  {
    RunBounded(cfg, cfg.rate, events, key, now);
    var bucket, times := Lookup(Run(cfg, events), key), Accepted(cfg, events, key);
    if Answer(cfg, events, key, now) {
      forall s | s <= now
        ensures Count(times, s) as real + 1.0 <= cfg.burst as real + Gain(cfg.rate, now - s)
      {
        LevelBounded(cfg, cfg.rate, bucket, times, now, now, s);
      }
    } else {
      var w := LevelTight(cfg, bucket, times, now, now);
    }
  }

  // ---------- Windows ----------

  /** How many of the times lie in [s, e]. */
  ghost function CountIn(times: seq<real>, s: real, e: real): nat {
    if times == [] then 0 else
    CountIn(times[..|times| - 1], s, e) + if s <= times[|times| - 1] <= e then 1 else 0
  }

  lemma {:induction false} CountInWithin(times: seq<real>, s: real, e: real)
    ensures CountIn(times, s, e) <= Count(times, s)
  {
    if times != [] {
      CountInWithin(times[..|times| - 1], s, e);
    }
  }

  /** In every run, every window holds at most the burst plus `pace` times its length. */
  lemma {:induction false} WindowBound(cfg: Config, pace: real, events: seq<Event>, key: string, s: real, e: real)
    requires Safe(cfg, pace) && Ordered(events) && s <= e
    ensures CountIn(Accepted(cfg, events, key), s, e) as real <= cfg.burst as real + Gain(pace, e - s)
  {
    var times := Accepted(cfg, events, key);
    if Before(events, e) {
      RunBounded(cfg, pace, events, key, e);
      LevelBounded(cfg, pace, Lookup(Run(cfg, events), key), times, e, e, s);
      CountInWithin(times, s, e);
    } else {
      var init, last := events[..|events| - 1], events[|events| - 1];
      var late :| late in events && late.at > e;
      assert last.at >= late.at;
      WindowBound(cfg, pace, init, key, s, e);
      var before := Accepted(cfg, init, key);
      if times != before {
        assert times == before + [last.at] && times[..|times| - 1] == before;
      } else {
        assert times == before;
      }
    }
  }

  /** The pace that holds for every configuration: the rate, or a whole burst per eviction period. */
  function SafePace(cfg: Config): real {
    var perIdle := cfg.burst as real / IDLE;
    if cfg.rate < perIdle then perIdle else cfg.rate
  }

  /** A count is within the burst plus the pace for each second of a window of this length. */
  ghost predicate Paced(count: nat, burst: real, pace: real, length: real) {
    count as real <= burst + pace * length
  }

  lemma PacedMeans(count: nat, burst: real, pace: real, length: real)
    ensures Paced(count, burst, pace, length) <==> count as real <= burst + Gain(pace, length)
  {
  }

  /** The unconditional bound on every window of every run of every configuration: the burst, and for each
      second the rate or a three-hundredth of the burst, whichever is more. */
  lemma EveryWindowBounded(given: Config, events: seq<Event>, key: string, s: real, e: real)
    requires Ordered(events) && s <= e
    ensures var cfg := WithDefaults(given);
            var count, burst := CountIn(Accepted(cfg, events, key), s, e), cfg.burst as real;
            Paced(count, burst, if cfg.rate < burst / 300.0 then burst / 300.0 else cfg.rate, e - s)
  {
    var cfg := WithDefaults(given);
    WindowBound(cfg, SafePace(cfg), events, key, s, e);
    PacedMeans(CountIn(Accepted(cfg, events, key), s, e), cfg.burst as real, SafePace(cfg), e - s);
  }

  // ---------- What cannot be observed ----------

  ghost function Kept(events: seq<Event>, keep: seq<bool>): seq<Event>
    requires |keep| == |events|
  {
    if events == [] then [] else
    var n := |events| - 1;
    Kept(events[..n], keep[..n]) + if keep[n] then [events[n]] else []
  }

  /** Each removed event is a sweep, a call of another key, or a denied call. */
  ghost predicate RemovesOnlyInert(cfg: Config, events: seq<Event>, keep: seq<bool>, key: string)
    requires |keep| == |events|
  {
    forall i | 0 <= i < |events| && !keep[i] ::
      match events[i]
      case Sweep(_) => true
      case Call(k, at) => k != key || !Answer(cfg, events[..i], key, at)
  }

  lemma {:induction false} KeptMembers(events: seq<Event>, keep: seq<bool>)
    requires |keep| == |events|
    ensures forall e :: e in Kept(events, keep) ==> e in events
    ensures Ordered(events) ==> Ordered(Kept(events, keep))
  {
    if events != [] {
      var n := |events| - 1;
      KeptMembers(events[..n], keep[..n]);
      var kept := Kept(events[..n], keep[..n]);
      if Ordered(events) && keep[n] {
        forall i, j | 0 <= i < j < |kept| + 1
          ensures (kept + [events[n]])[i].at <= (kept + [events[n]])[j].at
        {
          if j == |kept| {
            assert kept[i] in kept;
            var m :| 0 <= m < n && events[..n][m] == kept[i];
          }
        }
      }
    }
  }

  /** Removing sweeps, denied calls and calls of other keys changes neither what was accepted
      nor the answer to any later call. */
  lemma {:induction false} InertEventsAreUnobservable(
    cfg: Config, events: seq<Event>, keep: seq<bool>, key: string, now: real)
    requires Usable(cfg) && RefillsWhileIdle(cfg) && Ordered(events) && Before(events, now)
    requires |keep| == |events| && RemovesOnlyInert(cfg, events, keep, key)
    ensures Accepted(cfg, Kept(events, keep), key) == Accepted(cfg, events, key)
    ensures Answer(cfg, Kept(events, keep), key, now) <==> Answer(cfg, events, key, now)
  {
    if events != [] {
      var n := |events| - 1;
      var init, last := events[..n], events[n];
      assert forall i | 0 <= i < n :: init[..i] == events[..i];
      assert last in events;
      forall e | e in init
        ensures e.at <= last.at
      {
      }
      InertEventsAreUnobservable(cfg, init, keep[..n], key, last.at);
      KeptAccepts(cfg, events, keep, key);
    }
    KeptMembers(events, keep);
    AnswerIsOptimal(cfg, events, key, now);
    AnswerIsOptimal(cfg, Kept(events, keep), key, now);
  }

  /** If the runs agree up to the last event, they agree after it. */
  lemma KeptAccepts(cfg: Config, events: seq<Event>, keep: seq<bool>, key: string)
    requires |keep| == |events| > 0 && RemovesOnlyInert(cfg, events, keep, key)
    requires var n := |events| - 1;
             var init, kept := events[..n], Kept(events[..n], keep[..n]);
             && Accepted(cfg, kept, key) == Accepted(cfg, init, key)
             && (Answer(cfg, kept, key, events[n].at) <==> Answer(cfg, init, key, events[n].at))
    ensures Accepted(cfg, Kept(events, keep), key) == Accepted(cfg, events, key)
  {
    var n := |events| - 1;
    var kept := Kept(events[..n], keep[..n]);
    if keep[n] {
      RunMore(cfg, kept, events[n], key);
    } else {
      assert kept + [] == kept;
    }
    assert events == events[..n] + [events[n]];
    RunMore(cfg, events[..n], events[n], key);
  }

  // ---------- The condition is necessary ----------

  /** `events` followed by `n` calls at one time. */
  ghost function Volley(events: seq<Event>, key: string, n: nat, at: real): seq<Event> {
    if n == 0 then events else Volley(events, key, n - 1, at) + [Call(key, at)]
  }

  ghost function Repeat(at: real, n: nat): seq<real> {
    if n == 0 then [] else Repeat(at, n - 1) + [at]
  }

  lemma RunMore(cfg: Config, events: seq<Event>, e: Event, key: string)
    ensures Run(cfg, events + [e]) == Step(cfg, Run(cfg, events), e)
    ensures Accepted(cfg, events + [e], key) ==
            Accepted(cfg, events, key)
            + if e.Call? && e.key == key && Answer(cfg, events, key, e.at) then [e.at] else []
  {
  }

  lemma SpendOne(cfg: Config, events: seq<Event>, key: string, left: nat, at: real)
    requires left > 0 && Level(cfg, Lookup(Run(cfg, events), key), at) == left as real
    ensures Lookup(Run(cfg, events + [Call(key, at)]), key) == Some(Bucket((left - 1) as real, at))
    ensures Accepted(cfg, events + [Call(key, at)], key) == Accepted(cfg, events, key) + [at]
  {
  }

  lemma LevelNow(cfg: Config, tokens: real, at: real)
    requires tokens <= cfg.burst as real
    ensures Level(cfg, Some(Bucket(tokens, at)), at) == tokens
  {
  }

  /** `after` continues `events` with `n` calls that were all accepted. */
  ghost predicate VolleySpent(cfg: Config, events: seq<Event>, after: seq<Event>, key: string, n: nat, at: real) {
    && Accepted(cfg, after, key) == Accepted(cfg, events, key) + Repeat(at, n)
    && Lookup(Run(cfg, after), key) == if n == 0 then None else Some(Bucket((cfg.burst - n) as real, at))
  }

  lemma VolleyStep(cfg: Config, events: seq<Event>, after: seq<Event>, key: string, n: nat, at: real)
    requires n < cfg.burst && VolleySpent(cfg, events, after, key, n, at)
    ensures VolleySpent(cfg, events, after + [Call(key, at)], key, n + 1, at)
  {
    var left := cfg.burst - n;
    LevelNow(cfg, left as real, at);
    SpendOne(cfg, after, key, left, at);
  }

  /** From no bucket, a volley of at most the burst is accepted whole. */
  lemma {:induction false} VolleyAccepted(cfg: Config, events: seq<Event>, key: string, n: nat, at: real)
    requires Usable(cfg) && n <= cfg.burst && Lookup(Run(cfg, events), key).None?
    ensures VolleySpent(cfg, events, Volley(events, key, n, at), key, n, at)
  {
    if n == 0 {
      assert Accepted(cfg, events, key) + Repeat(at, 0) == Accepted(cfg, events, key);
    } else {
      VolleyAccepted(cfg, events, key, n - 1, at);
      VolleyStep(cfg, events, Volley(events, key, n - 1, at), key, n - 1, at);
    }
  }

  lemma {:induction false} CountRepeat(times: seq<real>, at: real, n: nat, s: real)
    requires s <= at
    ensures Count(times + Repeat(at, n), s) == Count(times, s) + n
  {
    if n == 0 {
      assert times + [] == times;
    } else {
      CountRepeat(times, at, n - 1, s);
      assert times + Repeat(at, n) == times + Repeat(at, n - 1) + [at];
      CountMore(times + Repeat(at, n - 1), at, s);
    }
  }

  lemma LateButNotRefilled(cfg: Config) returns (at: real)
    requires Usable(cfg) && !RefillsWhileIdle(cfg)
    ensures IDLE < at && Gain(cfg.rate, at) < cfg.burst as real
  {
    var spare := cfg.burst as real - Gain(cfg.rate, IDLE);
    var extra := spare / (2.0 * cfg.rate);
    at := IDLE + extra;
    assert cfg.rate * extra == spare / 2.0;
    Spans(cfg.rate, 0.0, IDLE, at);
  }

  /** Spending a whole burst and being evicted leaves no bucket. */
  lemma DrainAndSweep(cfg: Config, key: string, now: real)
    requires Usable(cfg) && now > IDLE
    ensures var swept := Volley([], key, cfg.burst, 0.0) + [Sweep(now)];
            Lookup(Run(cfg, swept), key).None? && Accepted(cfg, swept, key) == Repeat(0.0, cfg.burst)
  {
    var drained := Volley([], key, cfg.burst, 0.0);
    assert [] + Repeat(0.0, cfg.burst) == Repeat(0.0, cfg.burst);
    VolleyAccepted(cfg, [], key, cfg.burst, 0.0);
    RunMore(cfg, drained, Sweep(now), key);
    assert Repeat(0.0, cfg.burst) + [] == Repeat(0.0, cfg.burst);
  }

  /** When a burst does not refill while idle, a run with an eviction accepts too much. */
  lemma EvictionAcceptsTooMuch(cfg: Config, key: string) returns (events: seq<Event>, now: real)
    requires Usable(cfg) && !RefillsWhileIdle(cfg)
    ensures Ordered(events) && Before(events, now)
    ensures Answer(cfg, events, key, now) && !Fits(cfg, Accepted(cfg, events, key), now)
  {
    now := LateButNotRefilled(cfg);
    var burst := cfg.burst;
    var swept := Volley([], key, burst, 0.0) + [Sweep(now)];
    events := Volley(swept, key, burst - 1, now);
    DrainAndSweep(cfg, key, now);
    VolleyAccepted(cfg, swept, key, burst - 1, now);
    LevelNow(cfg, 1.0, now);
    TwoVolleysOrdered(key, burst, 0.0, now);
    TwoVolleysTooMany(cfg, now);
  }

  lemma TwoVolleysTooMany(cfg: Config, now: real)
    requires Usable(cfg) && now >= 0.0 && Gain(cfg.rate, now) < cfg.burst as real
    ensures !Fits(cfg, Repeat(0.0, cfg.burst) + Repeat(now, cfg.burst - 1), now)
  {
    TwoVolleysCounted(cfg.burst, now);
    assert now - 0.0 == now;
  }

  lemma TwoVolleysCounted(n: nat, at: real)
    requires n > 0 && at >= 0.0
    ensures Count(Repeat(0.0, n) + Repeat(at, n - 1), 0.0) == 2 * n - 1
  {
    CountRepeat([], 0.0, n, 0.0);
    assert [] + Repeat(0.0, n) == Repeat(0.0, n);
    CountRepeat(Repeat(0.0, n), at, n - 1, 0.0);
  }

  lemma TwoVolleysOrdered(key: string, n: nat, first: real, second: real)
    requires n > 0 && first <= second
    ensures var events := Volley(Volley([], key, n, first) + [Sweep(second)], key, n - 1, second);
            Ordered(events) && Before(events, second)
  {
    VolleyTimes([], key, n, first);
    var swept := Volley([], key, n, first) + [Sweep(second)];
    VolleyTimes(swept, key, n - 1, second);
    var events := Volley(swept, key, n - 1, second);
    assert forall i | 0 <= i < |events| :: events[i].at == if i < n then first else second;
  }

  lemma {:induction false} VolleyTimes(events: seq<Event>, key: string, n: nat, at: real)
    ensures var v := Volley(events, key, n, at);
            && |v| == |events| + n && events <= v
            && forall i | |events| <= i < |v| :: v[i].at == at
  {
    if n > 0 {
      VolleyTimes(events, key, n - 1, at);
    }
  }

  /** One more than `count` is within the burst plus the rate for each second of a window of this length. */
  ghost predicate FitsWindow(cfg: Config, count: nat, length: real) {
    count as real + 1.0 <= cfg.burst as real + cfg.rate * length
  }

  /** Accepting one more request now fits every window that ends now. */
  ghost predicate FitsEveryWindow(cfg: Config, times: seq<real>, now: real) {
    forall s | s <= now :: FitsWindow(cfg, Count(times, s), now - s)
  }

  lemma WindowMeans(cfg: Config, count: nat, length: real)
    ensures FitsWindow(cfg, count, length) <==> count as real + 1.0 <= cfg.burst as real + Gain(cfg.rate, length)
  {
  }

  lemma FitsMeans(cfg: Config, times: seq<real>, now: real)
    ensures Fits(cfg, times, now) <==> FitsEveryWindow(cfg, times, now)
  {
    forall s | s <= now
      ensures FitsWindow(cfg, Count(times, s), now - s) <==>
              Count(times, s) as real + 1.0 <= cfg.burst as real + Gain(cfg.rate, now - s)
    {
      WindowMeans(cfg, Count(times, s), now - s);
    }
  }

  /** In every run a call is accepted exactly when it fits every window. */
  ghost predicate OptimalInEveryRun(cfg: Config) {
    forall events, key, now | Ordered(events) && Before(events, now) ::
      Answer(cfg, events, key, now) <==> FitsEveryWindow(cfg, Accepted(cfg, events, key), now)
  }

  /** The limiter is optimal in every run exactly when a burst refills within the eviction period. */
  lemma OptimalExactlyWhenRefilling(cfg: Config)
    requires Usable(cfg)
    ensures OptimalInEveryRun(cfg) <==> cfg.burst as real <= cfg.rate * 300.0
  {
    if RefillsWhileIdle(cfg) {
      forall events, key, now | Ordered(events) && Before(events, now)
        ensures Answer(cfg, events, key, now) <==> FitsEveryWindow(cfg, Accepted(cfg, events, key), now)
      {
        AnswerIsOptimal(cfg, events, key, now);
        FitsMeans(cfg, Accepted(cfg, events, key), now);
      }
    } else {
      var events, now := EvictionAcceptsTooMuch(cfg, "");
      FitsMeans(cfg, Accepted(cfg, events, ""), now);
      assert Answer(cfg, events, "", now) && !FitsEveryWindow(cfg, Accepted(cfg, events, ""), now);
    }
  }
}
