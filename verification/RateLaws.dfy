/**
 What a key gets from the rate limiter: its burst at once, every token it earns afterwards, and
 denials only when all of that is spent.  The bounds from above are in `RateLimit`.
 */
module RateLaws {
  import opened Common
  import opened RateLimit

  /** A check spends exactly what it is granted. */
  lemma SpendOne(p: Params, state: Buckets, key: string, at: real)
    ensures var e := Check(key, at);
      && Available(p, After(p, state, e), key, at) == Available(p, state, key, at) - Hit(p, state, e, key) as real
      && Hit(p, state, e, key) == if Available(p, state, key, at) >= 1.0 then 1 else 0
  {
    assert Elapsed(at, at) * p.rate == 0.0;
  }

  // -- The burst ------------------------------------------------------------------------

  function Repeated(key: string, at: real, n: nat): seq<Event> {
    if n == 0 then [] else [Check(key, at)] + Repeated(key, at, n - 1)
  }

  function WholeTokens(x: real): nat {
    if x < 0.0 then 0 else x.Floor
  }

  lemma OneLess(x: real)
    requires x >= 1.0
    ensures WholeTokens(x) == WholeTokens(x - 1.0) + 1
  {
  }

  /** At one instant a key is admitted exactly as often as it has whole tokens, and no more often than it asks. */
  lemma {:induction false} BurstExact(p: Params, state: Buckets, key: string, at: real, n: nat)
    ensures var whole := WholeTokens(Available(p, state, key, at));
      Allows(p, state, Repeated(key, at, n), key) == if n < whole then n else whole
    decreases n
  {
    hide Available, After, Hit, Said, WholeTokens;
    if n > 0 {
      var es, e := Repeated(key, at, n), Check(key, at);
      assert es[0] == e && es[1..] == Repeated(key, at, n - 1);
      SpendOne(p, state, key, at);
      BurstExact(p, After(p, state, e), key, at, n - 1);
      var x := Available(p, state, key, at);
      if x >= 1.0 {
        OneLess(x);
      } else {
        NoWholeToken(x);
      }
    } else {
      assert Repeated(key, at, 0) == [];
    }
  }

  lemma NoWholeToken(x: real)
    requires x < 1.0
    ensures WholeTokens(x) == 0
  {
  }

  /** A key never seen before has its whole burst. */
  lemma NewKeyHasBurst(p: Params, state: Buckets, key: string, at: real, n: nat)
    requires key !in state && p.burst >= 0.0
    ensures Allows(p, state, Repeated(key, at, n), key) == if n < p.burst.Floor then n else p.burst.Floor
  {
    BurstExact(p, state, key, at, n);
  }

  // -- Conservation over a stretch of time --------------------------------------------------

  function Run(p: Params, state: Buckets, es: seq<Event>): Buckets
    decreases |es|
  {
    if es == [] then state else Run(p, After(p, state, es[0]), es[1..])
  }

  /** The key's bucket was not refilled after `now`. */
  ghost predicate NotAhead(state: Buckets, key: string, now: real) {
    key in state ==> state[key].lastRefill <= now
  }

  /** By waiting, a bucket either gains the full rate or ends up full. */
  lemma WaitGains(p: Params, state: Buckets, key: string, s: real, t: real)
    requires NotAhead(state, key, s) && s <= t && p.rate >= 0.0
    ensures || Available(p, state, key, t) == Available(p, state, key, s) + (t - s) * p.rate
            || Available(p, state, key, t) == p.burst
  {
    if key in state {
      var b := state[key];
      assert Elapsed(t, b.lastRefill) == Elapsed(s, b.lastRefill) + (t - s);
      Distribute(Elapsed(s, b.lastRefill), t - s, p.rate);
      MulMono(0.0, t - s, p.rate);
      hide Elapsed;
      Capped(b.tokens, Elapsed(s, b.lastRefill) * p.rate, (t - s) * p.rate, p.burst);
    }
  }

  lemma Capped(tokens: real, x: real, y: real, burst: real)
    requires y >= 0.0
    ensures Min(tokens + (x + y), burst) == Min(tokens + x, burst) + y || Min(tokens + (x + y), burst) == burst
  {
  }

  lemma AfterNotAhead(p: Params, state: Buckets, e: Event, key: string, now: real)
    requires NotAhead(state, key, now) && now <= e.at
    ensures NotAhead(After(p, state, e), key, e.at)
  {
  }

  /** What an event in order does to a key's tokens at its own time. */
  lemma EventSpends(p: Params, state: Buckets, e: Event, key: string)
    requires p.rate >= 0.0
    ensures Available(p, After(p, state, e), key, e.at)
         == Available(p, state, key, e.at) - Hit(p, state, e, key) as real
  {
    hide Refilled;
    if e.Evict? {
      AvailableAfterSweep(p, state, e.threshold, e.at, key, e.at);
    } else if e.key == key {
      SpendOne(p, state, key, e.at);
    }
  }

  /** From `u` on, with the events from `i` on, nothing the key earned was lost at the cap. */
  ghost predicate Balanced(p: Params, state: Buckets, es: seq<Event>, key: string, t: real, i: nat, u: real)
    requires i <= |es|
  {
    Available(p, Run(p, state, es), key, t)
      == Available(p, Run(p, state, es[..i]), key, u) + (t - u) * p.rate - Allows(p, Run(p, state, es[..i]), es[i..], key) as real
  }

  /**
   Tokens are conserved: at the end of any ordered stretch a key holds what it held at the start, or
   at some later moment when its bucket was full, plus all it earned since, less one per admission.
   */
  lemma {:induction false} TokensConserved(p: Params, state: Buckets, es: seq<Event>, key: string, s: real, t: real)
    returns (i: nat, u: real)
    requires p.rate >= 0.0 && NotAhead(state, key, s)
    requires InOrder(es, s) && s <= t && (es != [] ==> es[|es| - 1].at <= t)
    ensures i <= |es| && s <= u <= t && Balanced(p, state, es, key, t, i, u)
    ensures (i == 0 && u == s) || Available(p, Run(p, state, es[..i]), key, u) == p.burst
    decreases |es|
  {
    hide Available, After, Hit, Said, NotAhead;
    if es == [] {
      WaitGains(p, state, key, s, t);
      i := 0;
      u := if Available(p, state, key, t) == p.burst then t else s;
      assert es[..0] == [] && es[0..] == es;
      assert (t - t) * p.rate == 0.0;
    } else {
      var e, next := es[0], After(p, state, es[0]);
      FirstBeforeLast(es, s);
      AfterNotAhead(p, state, e, key, s);
      i, u := TokensConserved(p, next, es[1..], key, e.at, t);
      EventSpends(p, state, e, key);
      WaitGains(p, state, key, s, e.at);
      if i == 0 && u == e.at {
        var full := Available(p, state, key, e.at) == p.burst;
        u := if full then e.at else s;
        ExtendBalance(p, state, es, key, t, u);
      } else {
        Prepend(p, state, es, i);
        i := i + 1;
      }
    }
  }

  lemma Prepend(p: Params, state: Buckets, es: seq<Event>, i: nat)
    requires es != [] && i <= |es| - 1
    ensures Run(p, state, es[..i + 1]) == Run(p, After(p, state, es[0]), es[1..][..i]) && es[i + 1..] == es[1..][i..]
  {
    assert es[..i + 1][1..] == es[1..][..i];
  }

  /** A balance that starts right after the first event, carried back over it. */
  lemma ExtendBalance(p: Params, state: Buckets, es: seq<Event>, key: string, t: real, u: real)
    requires es != [] && p.rate >= 0.0
    requires Balanced(p, After(p, state, es[0]), es[1..], key, t, 0, es[0].at)
    requires Available(p, After(p, state, es[0]), key, es[0].at)
          == Available(p, state, key, es[0].at) - Hit(p, state, es[0], key) as real
    requires Available(p, state, key, es[0].at) == Available(p, state, key, u) + (es[0].at - u) * p.rate
    ensures Balanced(p, state, es, key, t, 0, u)
  {
    hide Available, After, Hit;
    assert es[..0] == [] && es[0..] == es && es[1..][..0] == [] && es[1..][0..] == es[1..];
    Distribute(t - es[0].at, es[0].at - u, p.rate);
  }

  lemma Spent(left: real, held: real, earned: real, admitted: nat)
    requires left < 1.0 && left == held + earned - admitted as real
    ensures admitted as real > held + earned - 1.0
  {
  }

  /**
   A denial is earned: when a check at `t` is refused, the key was admitted, since the start or since
   some later moment when its bucket was full, more than one token short of all it had and earned.
   */
  lemma DenialEarned(p: Params, state: Buckets, es: seq<Event>, key: string, s: real, t: real) returns (i: nat, u: real)
    requires p.rate >= 0.0 && NotAhead(state, key, s)
    requires InOrder(es, s) && s <= t && (es != [] ==> es[|es| - 1].at <= t)
    requires Said(p, Run(p, state, es), Check(key, t)) != Some(Allow)
    ensures i <= |es| && s <= u <= t
    ensures (i == 0 && u == s) || Available(p, Run(p, state, es[..i]), key, u) == p.burst
    ensures Allows(p, Run(p, state, es[..i]), es[i..], key) as real
         > Available(p, Run(p, state, es[..i]), key, u) + (t - u) * p.rate - 1.0
  {
    hide Available, RetryAfter, Run, Allows;
    i, u := TokensConserved(p, state, es, key, s, t);
    var from := Run(p, state, es[..i]);
    Spent(Available(p, Run(p, state, es), key, t), Available(p, from, key, u), (t - u) * p.rate,
          Allows(p, from, es[i..], key));
  }

  // -- Refusals that never end ------------------------------------------------------------------

  /** Without a refill rate, and whenever the wait is too long for 32 bits, the largest number is reported. */
  lemma RetryAfterLargest(p: Params, tokens: real)
    requires tokens < 1.0 && (p.rate <= 0.0 || (1.0 - tokens) / p.rate > 4294967295.0)
    ensures Answer(p, tokens) == Deny(4294967295)
  {
    if p.rate > 0.0 {
      CeilExact((1.0 - tokens) / p.rate, 4294967295);
    }
  }
}
