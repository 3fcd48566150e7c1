/**
 Token-bucket rate limiting (src/rate_limit.rs): one bucket per key, created full
 on first use, and a collector that drops idle full buckets.  Tokens and seconds
 are reals.
 */
module RateLimit {
  import opened Common

  datatype Params = Params(rate: real, burst: real)

  datatype Bucket = Bucket(tokens: real, lastRefill: real)

  type Buckets = map<string, Bucket>

  datatype Outcome = Allow | Deny(retryAfterSecs: nat)

  const U32_MAX: nat := 0xffff_ffff

  function Elapsed(now: real, since: real): real {
    if now > since then now - since else 0.0
  }

  function Min(a: real, b: real): real {
    if a <= b then a else b
  }

  /** A bucket refilled up to `now`. */
  function Refilled(p: Params, b: Bucket, now: real): real {
    Min(b.tokens + Elapsed(now, b.lastRefill) * p.rate, p.burst)
  }

  /** Tokens a check of `key` at `now` would find. */
  function Available(p: Params, state: Buckets, key: string, now: real): real {
    if key in state then Refilled(p, state[key], now) else p.burst
  }

  function Ceil(x: real): int {
    if x == x.Floor as real then x.Floor else x.Floor + 1
  }

  /** A float-to-u32 cast saturates. */
  function ToU32(n: int): nat {
    if n < 0 then 0 else if n > U32_MAX then U32_MAX else n
  }

  /** Whole seconds until one token is back, at least 1. */
  function RetryAfter(p: Params, tokens: real): nat {
    var need := if tokens < 1.0 then 1.0 - tokens else 0.0;
    var secs := if p.rate > 0.0 then ToU32(Ceil(need / p.rate)) else U32_MAX;
    if secs < 1 then 1 else secs
  }

  function Answer(p: Params, tokens: real): Outcome {
    if tokens >= 1.0 then Allow else Deny(RetryAfter(p, tokens))
  }

  /** The buckets after a check of `key` at `now` that found `tokens`. */
  function Charged(state: Buckets, key: string, tokens: real, now: real): Buckets {
    state[key := Bucket(if tokens >= 1.0 then tokens - 1.0 else tokens, now)]
  }

  /** A bucket the collector keeps. */
  predicate InUse(p: Params, b: Bucket, threshold: real, now: real) {
    Elapsed(now, b.lastRefill) < threshold || Refilled(p, b, now) < p.burst
  }

  function Swept(p: Params, state: Buckets, threshold: real, now: real): Buckets {
    map k | k in state && InUse(p, state[k], threshold, now) :: state[k]
  }

  lemma FreshIsFull(p: Params, now: real)
    ensures Refilled(p, Bucket(p.burst, now), now) == p.burst
  {
    assert 0.0 * p.rate == 0.0;
  }

  /** The refill step: `elapsed * rate` more tokens, capped at the burst. */
  method RefillTo(p: Params, b: Bucket, now: real) returns (tokens: real)
    ensures tokens == Refilled(p, b, now)
  {
    var elapsed := if now > b.lastRefill then now - b.lastRefill else 0.0;
    var more := b.tokens + elapsed * p.rate;
    tokens := if more <= p.burst then more else p.burst;
  }

  class RateLimitRule {
    const p: Params
    var state: Buckets

    constructor (rate: real, burst: real)
      ensures p == Params(rate, burst) && state == map[]
    {
      p := Params(rate, burst);
      state := map[];
    }

    /** `check_at`, with the key already derived from the request. */
    method CheckAt(key: string, now: real) returns (r: Outcome)
      modifies this`state
      ensures r == Answer(p, Available(p, old(state), key, now))
      ensures state == Charged(old(state), key, Available(p, old(state), key, now), now)
    {
      hide Refilled, RetryAfter;
      FreshIsFull(p, now);
      if key !in state {
        state := state[key := Bucket(p.burst, now)];
      }
      var tokens := RefillTo(p, state[key], now);
      if tokens >= 1.0 {
        state := state[key := Bucket(tokens - 1.0, now)];
        return Allow;
      }
      state := state[key := Bucket(tokens, now)];
      return Deny(RetryAfter(p, tokens));
    }

    /** `evict_idle_at`. */
    method EvictIdleAt(threshold: real, now: real) returns (removed: nat)
      modifies this`state
      ensures state == Swept(p, old(state), threshold, now)
      ensures forall k :: k in state ==> k in old(state) && state[k] == old(state)[k]
      ensures forall k :: k in old(state) && k !in state ==>
        && old(state)[k].lastRefill + threshold <= (if now > old(state)[k].lastRefill then now else old(state)[k].lastRefill)
        && Refilled(p, old(state)[k], now) == p.burst
      ensures forall k :: k in old(state) && k in state ==>
        || old(state)[k].lastRefill + threshold > (if now > old(state)[k].lastRefill then now else old(state)[k].lastRefill)
        || Refilled(p, old(state)[k], now) < p.burst
      ensures removed == |old(state)| - |state|
    {
      var before := |state|;
      ghost var was := state;
      state := map k | k in state && InUse(p, state[k], threshold, now) :: state[k];
      assert state.Keys <= was.Keys;
      Fewer(state.Keys, was.Keys);
      removed := before - |state|;
    }
  }

  lemma Fewer<T>(a: set<T>, b: set<T>)
    requires a <= b
    ensures |a| <= |b|
  {
    assert b == a + (b - a);
  }

  // -- Runs --------------------------------------------------------------------------

  datatype Event =
    | Check(key: string, at: real)
    | Evict(threshold: real, at: real)

  /** The outcome of an event; collecting has none. */
  function Said(p: Params, state: Buckets, e: Event): Option<Outcome> {
    match e
    case Check(key, at) => Some(Answer(p, Available(p, state, key, at)))
    case Evict(_, _) => None
  }

  function After(p: Params, state: Buckets, e: Event): Buckets {
    match e
    case Check(key, at) => Charged(state, key, Available(p, state, key, at), at)
    case Evict(threshold, at) => Swept(p, state, threshold, at)
  }

  /** Event times never decrease, starting from `now`. */
  ghost predicate InOrder(es: seq<Event>, now: real) {
    es != [] ==> now <= es[0].at && InOrder(es[1..], es[0].at)
  }

  lemma MulMono(a: real, b: real, r: real)
    requires a <= b && r >= 0.0
    ensures a * r <= b * r && 0.0 * r == 0.0
  {
    assert (b - a) * r >= 0.0;
  }

  lemma Distribute(a: real, b: real, r: real)
    ensures (a + b) * r == a * r + b * r
  {
  }

  // -- The bound -----------------------------------------------------------------------

  /** 1 when the event lets `key` through. */
  function Hit(p: Params, state: Buckets, e: Event, key: string): nat {
    if e.Check? && e.key == key && Said(p, state, e) == Some(Allow) then 1 else 0
  }

  /** How often `key` is let through. */
  function Allows(p: Params, state: Buckets, es: seq<Event>, key: string): nat
    decreases |es|
  {
    if es == [] then 0
    else
      Hit(p, state, es[0], key)
      + Allows(p, After(p, state, es[0]), es[1..], key)
  }

  /** The later of two readings. */
  function Later(a: real, b: real): real {
    if a <= b then b else a
  }

  /**
   How far the clock readings that concern `key` move forward in all, starting from `s`.
   Readings are taken before the lock, so they need not arrive in order.
   */
  function Climb(es: seq<Event>, key: string, s: real): real {
    if es == [] then 0.0
    else
      match es[0]
      case Check(k, at) => if k == key then Elapsed(at, s) + Climb(es[1..], key, at) else Climb(es[1..], key, s)
      case Evict(_, at) => Elapsed(at, s) + Climb(es[1..], key, Later(s, at))
  }

  lemma {:induction false} ClimbPositive(es: seq<Event>, key: string, s: real)
    ensures Climb(es, key, s) >= 0.0
    decreases |es|
  {
    if es != [] {
      ClimbPositive(es[1..], key, s);
      ClimbPositive(es[1..], key, es[0].at);
    }
  }

  /** Time passed up to a later reading, through an earlier one. */
  lemma ElapsedSplit(t: real, s: real, since: real)
    ensures Elapsed(t, since) <= Elapsed(s, since) + Elapsed(t, s) && 0.0 <= Elapsed(t, s)
  {
  }

  lemma MinGrows(tokens: real, x: real, y: real, z: real, burst: real)
    requires x <= y + z && 0.0 <= z
    ensures Min(tokens + x, burst) <= Min(tokens + y, burst) + z
  {
  }

  /** Reading a later time gains at most `rate` per second, an earlier one nothing. */
  lemma AvailableGrows(p: Params, state: Buckets, key: string, s: real, t: real)
    requires p.rate >= 0.0
    ensures Available(p, state, key, t) <= Available(p, state, key, s) + Elapsed(t, s) * p.rate
    ensures Available(p, state, key, t) <= p.burst
  {
    hide Elapsed;
    var since := if key in state then state[key].lastRefill else s;
    ElapsedSplit(t, s, since);
    MulMono(0.0, Elapsed(t, s), p.rate);
    MulMono(Elapsed(t, since), Elapsed(s, since) + Elapsed(t, s), p.rate);
    Distribute(Elapsed(s, since), Elapsed(t, s), p.rate);
    if key in state {
      MinGrows(state[key].tokens, Elapsed(t, since) * p.rate, Elapsed(s, since) * p.rate,
               Elapsed(t, s) * p.rate, p.burst);
    }
  }

  /** What a check leaves in its own bucket, at the time it read. */
  lemma AvailableAfterCheck(p: Params, state: Buckets, key: string, at: real)
    requires p.rate >= 0.0
    ensures var e := Check(key, at);
      && Available(p, After(p, state, e), key, at) <= Available(p, state, key, at) - Hit(p, state, e, key) as real
      && Hit(p, state, e, key) <= 1
      && (Hit(p, state, e, key) == 1 ==> Available(p, state, key, at) >= 1.0)
  {
    assert Elapsed(at, at) * p.rate == 0.0;
  }

  /** A full bucket stays full. */
  lemma FullStaysFull(p: Params, b: Bucket, now: real, t: real)
    requires p.rate >= 0.0 && now <= t && Refilled(p, b, now) >= p.burst
    ensures Refilled(p, b, t) == p.burst
  {
    MulMono(Elapsed(now, b.lastRefill), Elapsed(t, b.lastRefill), p.rate);
  }

  /**
   When one collection is invisible to one reading of a key, at any time: exactly when the bucket
   was kept, or would be full at that time anyway.
   */
  lemma SweepInvisibleIff(p: Params, state: Buckets, threshold: real, at: real, key: string, t: real)
    ensures Available(p, Swept(p, state, threshold, at), key, t) == Available(p, state, key, t) <==>
      (key in state && !InUse(p, state[key], threshold, at) ==> Refilled(p, state[key], t) == p.burst)
  {
  }

  /** So a collection adds nothing from the time it read on. */
  lemma AvailableAfterSweep(p: Params, state: Buckets, threshold: real, at: real, key: string, t: real)
    requires p.rate >= 0.0 && at <= t
    ensures Available(p, Swept(p, state, threshold, at), key, t) == Available(p, state, key, t)
  {
    SweepInvisibleIff(p, state, threshold, at, key, t);
    if key in state && !InUse(p, state[key], threshold, at) {
      FullStaysFull(p, state[key], at, t);
    }
  }

  /** One event's share of the bound. */
  lemma Budget(a0: real, a1: real, a2: real, x: real, y: real, hit: nat, rest: nat)
    requires a1 <= a0 + x && a2 <= a1 - hit as real && 0.0 <= x && 0.0 <= y && hit <= 1
    requires hit == 1 ==> a1 >= 1.0
    requires rest == 0 || rest as real <= a2 + y
    ensures hit + rest == 0 || (hit + rest) as real <= a0 + (x + y)
  {
  }

  /**
   The rate limit, for readings in any order: one key is let through at most as often as it has
   tokens, plus `rate` for every second by which its readings move forward.
   */
  lemma {:induction false} AllowsBound(p: Params, state: Buckets, es: seq<Event>, key: string, s: real)
    requires p.rate >= 0.0
    ensures Allows(p, state, es, key) == 0
      || Allows(p, state, es, key) as real <= Available(p, state, key, s) + Climb(es, key, s) * p.rate
    decreases |es|
  {
    hide Available, After, Hit, Said, Elapsed, Swept, Charged;
    if es != [] {
      var e, next := es[0], After(p, state, es[0]);
      if e.Check? && e.key != key {
        OtherKey(p, state, e, key, s);
        AllowsBound(p, next, es[1..], key, s);
      } else {
        var m := if e.Check? then e.at else Later(s, e.at);
        AllowsBound(p, next, es[1..], key, m);
        OwnEvent(p, state, e, key, s);
        ClimbPositive(es[1..], key, m);
        MulMono(0.0, Climb(es[1..], key, m), p.rate);
        Distribute(Elapsed(e.at, s), Climb(es[1..], key, m), p.rate);
        Budget(Available(p, state, key, s), Available(p, state, key, m), Available(p, next, key, m),
               Elapsed(e.at, s) * p.rate, Climb(es[1..], key, m) * p.rate,
               Hit(p, state, e, key), Allows(p, next, es[1..], key));
      }
    }
  }

  lemma OtherKey(p: Params, state: Buckets, e: Event, key: string, s: real)
    requires e.Check? && e.key != key
    ensures Hit(p, state, e, key) == 0 && Available(p, After(p, state, e), key, s) == Available(p, state, key, s)
  {
  }

  /** One event that concerns the key: what it gains by waiting and what it spends. */
  lemma OwnEvent(p: Params, state: Buckets, e: Event, key: string, s: real)
    requires p.rate >= 0.0 && (e.Check? ==> e.key == key)
    ensures var m := if e.Check? then e.at else Later(s, e.at);
      && Available(p, state, key, m) <= Available(p, state, key, s) + Elapsed(e.at, s) * p.rate
      && Available(p, After(p, state, e), key, m) <= Available(p, state, key, m) - Hit(p, state, e, key) as real
      && Hit(p, state, e, key) <= 1 && (Hit(p, state, e, key) == 1 ==> Available(p, state, key, m) >= 1.0)
      && Elapsed(e.at, s) * p.rate >= 0.0
  {
    hide Available, Swept, Charged, Answer;
    MulMono(0.0, Elapsed(e.at, s), p.rate);
    if e.Check? {
      AvailableGrows(p, state, key, s, e.at);
      AvailableAfterCheck(p, state, key, e.at);
    } else {
      AvailableGrows(p, state, key, s, Later(s, e.at));
      AvailableAfterSweep(p, state, e.threshold, e.at, key, Later(s, e.at));
    }
  }

  lemma {:induction false} FirstBeforeLast(es: seq<Event>, now: real)
    requires InOrder(es, now) && es != []
    ensures now <= es[0].at <= es[|es| - 1].at
  {
    if |es| > 1 {
      FirstBeforeLast(es[1..], es[0].at);
    }
  }

  /** Readings in order move forward no further than the time that passes. */
  lemma {:induction false} ClimbInOrder(es: seq<Event>, key: string, s: real, t: real)
    requires InOrder(es, s) && s <= t && (es != [] ==> es[|es| - 1].at <= t)
    ensures Climb(es, key, s) <= t - s
    decreases |es|
  {
    if es != [] {
      FirstBeforeLast(es, s);
      ClimbInOrder(es[1..], key, if es[0].Check? && es[0].key != key then s else es[0].at, t);
    }
  }

  lemma Affordable(n: nat, tokens: real, burst: real, climbed: real, passed: real)
    requires n == 0 || n as real <= tokens + climbed
    requires tokens <= burst && climbed <= passed && 0.0 <= burst && 0.0 <= passed
    ensures n as real <= burst + passed
  {
  }

  /**
   The rate limit over a stretch of time, from whatever state: while the readings of `key` move
   forward no further than the time from `s` to `t`, it is let through at most
   `burst + rate * (t - s)` times.
   */
  lemma RateBound(p: Params, state: Buckets, window: seq<Event>, key: string, s: real, t: real)
    requires p.rate >= 0.0 && p.burst >= 0.0
    requires Climb(window, key, s) <= t - s
    ensures Allows(p, state, window, key) as real <= p.burst + p.rate * (t - s)
  {
    hide Allows, Available, Climb, Elapsed;
    AllowsBound(p, state, window, key, s);
    ClimbPositive(window, key, s);
    AvailableGrows(p, state, key, s, s);
    MulMono(Climb(window, key, s), t - s, p.rate);
    MulMono(0.0, t - s, p.rate);
    Affordable(Allows(p, state, window, key), Available(p, state, key, s), p.burst,
               Climb(window, key, s) * p.rate, (t - s) * p.rate);
    assert (t - s) * p.rate == p.rate * (t - s);
  }

  /** In particular when the readings of the stretch arrive in order. */
  lemma OrderedRateBound(p: Params, state: Buckets, window: seq<Event>, key: string, s: real, t: real)
    requires p.rate >= 0.0 && p.burst >= 0.0
    requires s <= t && InOrder(window, s) && (window != [] ==> window[|window| - 1].at <= t)
    ensures Allows(p, state, window, key) as real <= p.burst + p.rate * (t - s)
  {
    hide Allows, Climb;
    ClimbInOrder(window, key, s, t);
    RateBound(p, state, window, key, s, t);
  }

  /** Five readings of one key, all between 0 and 1, two of them late. */
  const LATE_READINGS: seq<Event> :=
    [Check("k", 1.0), Check("k", 0.0), Check("k", 1.0), Check("k", 0.0), Check("k", 1.0)]

  /**
   Readings out of order do exceed that bound: a check with an earlier reading stores it, and the
   next one refills the same seconds again.
   */
  lemma LateReadingBreaksBound()
    ensures forall i :: 0 <= i < |LATE_READINGS| ==> 0.0 <= LATE_READINGS[i].at <= 1.0
    ensures var p := Params(1.0, 1.0);
      Allows(p, map[], LATE_READINGS, "k") as real > p.burst + p.rate * (1.0 - 0.0)
  {
    var p, es := Params(1.0, 1.0), LATE_READINGS;
    var early := map["k" := Bucket(0.0, 0.0)];
    var late := map["k" := Bucket(0.0, 1.0)];
    Refused(p, late, early);
    assert es[1..] == [es[1]] + es[2..] && es[2..] == [es[2]] + es[3..] && es[3..] == [es[3]] + [es[4]];
    assert es[4..] == [es[4]] && [es[4]][1..] == [];
    assert Allows(p, early, [es[4]], "k") == 1 + Allows(p, late, [], "k");
    assert Allows(p, late, es[3..], "k") == Allows(p, early, [es[4]], "k");
    assert Allows(p, early, es[2..], "k") == 1 + Allows(p, late, es[3..], "k");
    assert Allows(p, late, es[1..], "k") == Allows(p, early, es[2..], "k");
    assert Allows(p, map[], es, "k") == 1 + Allows(p, late, es[1..], "k");
  }

  /** The steps of that run: an empty bucket read at 0 is refused, and read at 1 is full again. */
  lemma Refused(p: Params, late: Buckets, early: Buckets)
    requires p == Params(1.0, 1.0)
    requires late == map["k" := Bucket(0.0, 1.0)] && early == map["k" := Bucket(0.0, 0.0)]
    ensures Hit(p, map[], Check("k", 1.0), "k") == 1 && After(p, map[], Check("k", 1.0)) == late
    ensures Hit(p, late, Check("k", 0.0), "k") == 0 && After(p, late, Check("k", 0.0)) == early
    ensures Hit(p, early, Check("k", 1.0), "k") == 1 && After(p, early, Check("k", 1.0)) == late
  {
  }

  // -- Invisible collection ----------------------------------------------------------------

  /** From `now` on, two states give every key the same tokens. */
  ghost predicate Alike(p: Params, a: Buckets, b: Buckets, now: real) {
    forall k, t :: t >= now ==> Available(p, a, k, t) == Available(p, b, k, t)
  }

  lemma SweptAlike(p: Params, state: Buckets, threshold: real, now: real)
    requires p.rate >= 0.0
    ensures Alike(p, Swept(p, state, threshold, now), state, now)
  {
    hide Available;
    forall k, t | t >= now ensures Available(p, Swept(p, state, threshold, now), k, t) == Available(p, state, k, t) {
      AvailableAfterSweep(p, state, threshold, now, k, t);
    }
  }

  lemma CheckAlike(p: Params, a: Buckets, b: Buckets, key: string, at: real, now: real)
    requires Alike(p, a, b, now) && now <= at
    ensures Available(p, a, key, at) == Available(p, b, key, at)
    ensures Alike(p, After(p, a, Check(key, at)), After(p, b, Check(key, at)), now)
  {
    hide Refilled;
    var a', b' := After(p, a, Check(key, at)), After(p, b, Check(key, at));
    assert Available(p, a, key, at) == Available(p, b, key, at);
    forall k, t | t >= now ensures Available(p, a', k, t) == Available(p, b', k, t) {
      assert Available(p, a, k, t) == Available(p, b, k, t);
    }
  }

  lemma AlikeLater(p: Params, a: Buckets, b: Buckets, now: real, later: real)
    requires Alike(p, a, b, now) && now <= later
    ensures Alike(p, a, b, later)
  {
  }

  /** Outcomes of the checks of a run, in order. */
  function Outcomes(p: Params, state: Buckets, es: seq<Event>): seq<Outcome>
    decreases |es|
  {
    if es == [] then []
    else
      var rest := Outcomes(p, After(p, state, es[0]), es[1..]);
      match Said(p, state, es[0])
      case Some(o) => [o] + rest
      case None => rest
  }

  /** The same run without collections. */
  function Checks(es: seq<Event>): seq<Event> {
    if es == [] then []
    else if es[0].Check? then [es[0]] + Checks(es[1..])
    else Checks(es[1..])
  }

  /** Every check reads a time no earlier than `now` and than every collection before it. */
  ghost predicate ChecksFollowSweeps(es: seq<Event>, now: real) {
    es != [] ==>
      match es[0]
      case Check(_, at) => now <= at && ChecksFollowSweeps(es[1..], now)
      case Evict(_, at) => ChecksFollowSweeps(es[1..], Later(now, at))
  }

  /**
   Collection is invisible: with collections at arbitrary points, every check of every key is
   answered exactly as if none had ever happened.  Checks may read the clock in any order, as long
   as none reads a time before a collection that it comes after.
   */
  lemma {:induction false} EvictionInvisible(p: Params, a: Buckets, b: Buckets, es: seq<Event>, now: real)
    requires p.rate >= 0.0 && ChecksFollowSweeps(es, now) && Alike(p, a, b, now)
    ensures Outcomes(p, a, es) == Outcomes(p, b, Checks(es))
    decreases |es|
  {
    hide Alike, Available, Swept, Charged;
    if es != [] {
      var e := es[0];
      if e.Check? {
        CheckAlike(p, a, b, e.key, e.at, now);
        EvictionInvisible(p, After(p, a, e), After(p, b, e), es[1..], now);
        assert Checks(es)[1..] == Checks(es[1..]);
      } else {
        var m := Later(now, e.at);
        SweptAlike(p, a, e.threshold, e.at);
        AlikeLater(p, After(p, a, e), a, e.at, m);
        AlikeLater(p, a, b, now, m);
        AlikeTrans(p, After(p, a, e), a, b, m);
        EvictionInvisible(p, After(p, a, e), b, es[1..], m);
      }
    }
  }

  /** A check that reads a time before the collection it follows can tell: it finds a full bucket. */
  lemma EarlierCheckSeesCollection()
    ensures var p, state := Params(1.0, 1.0), map["k" := Bucket(0.0, 0.0)];
      Said(p, After(p, state, Evict(5.0, 10.0)), Check("k", 0.5)) != Said(p, state, Check("k", 0.5))
  {
    var p, state := Params(1.0, 1.0), map["k" := Bucket(0.0, 0.0)];
    assert Refilled(p, state["k"], 10.0) == 1.0;
    assert "k" !in Swept(p, state, 5.0, 10.0);
    assert Refilled(p, state["k"], 0.5) == 0.5;
  }

  lemma AlikeTrans(p: Params, a: Buckets, b: Buckets, c: Buckets, now: real)
    requires Alike(p, a, b, now) && Alike(p, b, c, now)
    ensures Alike(p, a, c, now)
  {
  }

  // -- Retry-After ---------------------------------------------------------------------------

  lemma DivMulReal(need: real, rate: real)
    requires rate > 0.0
    ensures (need / rate) * rate == need
  {
  }

  /** After a denial, waiting `w` seconds is enough exactly when `w` is at least `need / rate`. */
  lemma WaitEnough(p: Params, tokens: real, now: real, w: real)
    requires p.rate > 0.0 && p.burst >= 1.0 && tokens < 1.0 && w >= 0.0
    ensures Refilled(p, Bucket(tokens, now), now + w) >= 1.0 <==> w >= (1.0 - tokens) / p.rate
  {
    var q := (1.0 - tokens) / p.rate;
    DivMulReal(1.0 - tokens, p.rate);
    if w >= q {
      MulMono(q, w, p.rate);
    } else {
      StrictMul(w, q, p.rate);
    }
  }

  lemma StrictMul(a: real, b: real, r: real)
    requires a < b && r > 0.0
    ensures a * r < b * r
  {
    assert (b - a) * r > 0.0;
  }

  /**
   `Retry-After` is the least whole number of seconds (at least one) after which the
   next check of that key is allowed, provided it fits in 32 bits and the bucket can
   hold a token at all.
   */
  lemma RetryAfterExact(p: Params, state: Buckets, key: string, now: real, n: nat)
    requires p.rate > 0.0 && p.burst >= 1.0 && n >= 1
    requires Available(p, state, key, now) < 1.0
    requires Ceil((1.0 - Available(p, state, key, now)) / p.rate) <= U32_MAX
    ensures var tokens := Available(p, state, key, now);
      var later := Charged(state, key, tokens, now);
      Said(p, later, Check(key, now + n as real)) == Some(Allow) <==> n >= RetryAfter(p, tokens)
  {
    var tokens := Available(p, state, key, now);
    var q := (1.0 - tokens) / p.rate;
    WaitEnough(p, tokens, now, n as real);
    CeilExact(q, n);
    QuotientPositive(1.0 - tokens, p.rate);
  }

  lemma CeilExact(q: real, n: int)
    ensures n as real >= q <==> n >= Ceil(q)
  {
  }

  lemma QuotientPositive(a: real, r: real)
    requires a > 0.0 && r > 0.0
    ensures a / r > 0.0
  {
    DivMulReal(a, r);
    if a / r <= 0.0 {
      MulMono(a / r, 0.0, r);
    }
  }
}
