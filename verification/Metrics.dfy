/**
 The tick loop over the four archives (src/metrics.rs `tick_loop`,
 `consolidate_fine_to_minute`, `consolidate_coarse`) and what each retained slot
 says about the request counter.
 */
module Metrics {
  import opened Arithmetic
  import opened Archives

  // -- Histories ------------------------------------------------------------------

  /** What a tick records: counter growth, saturating at zero, truncated to 32 bits. */
  function Delta(total: nat, last: nat): nat {
    (if total >= last then total - last else 0) % U32
  }

  /** The fine log records each tick's growth; `totals[0]` is the starting value. */
  ghost predicate FineRecords(totals: seq<nat>, fine: seq<nat>) {
    && |totals| == |fine| + 1
    && forall k :: 0 <= k < |fine| ==>
      fine[k] == (if totals[k + 1] >= totals[k] then totals[k + 1] - totals[k] else 0) % 0x1_0000_0000
  }

  /** Sum of the k-th complete group of `n` slots. */
  ghost function Group(src: seq<nat>, k: nat, n: nat): nat
    requires n * k + n <= |src|
  {
    Recent(src[..n * k + n], n)
  }

  /** `dst` holds the (truncated) sum of every complete group of `n` slots of `src`. */
  ghost predicate Consolidated(src: seq<nat>, dst: seq<nat>, n: nat) {
    && n > 0 && n * |dst| <= |src| < n * |dst| + n
    && forall k :: 0 <= k < |dst| ==> n * k + n <= |src| && dst[k] == Group(src, k, n) % U32
  }

  lemma GroupGrows(src: seq<nat>, v: nat, k: nat, n: nat)
    requires n * k + n <= |src|
    ensures Group(src + [v], k, n) == Group(src, k, n)
  {
    assert (src + [v])[..n * k + n] == src[..n * k + n];
  }

  /** A new slot that completes no group leaves the coarser log as it is. */
  lemma KeepsConsolidated(src: seq<nat>, v: nat, dst: seq<nat>, n: nat)
    requires Consolidated(src, dst, n) && |src| + 1 < n * |dst| + n
    ensures Consolidated(src + [v], dst, n)
  {
    hide Group;
    forall k | 0 <= k < |dst| ensures dst[k] == Group(src + [v], k, n) % U32 {
      GroupGrows(src, v, k, n);
    }
  }

  /** A new slot that completes a group adds that group's sum. */
  lemma AddsConsolidated(src: seq<nat>, v: nat, dst: seq<nat>, n: nat)
    requires Consolidated(src, dst, n) && |src| + 1 == n * |dst| + n
    ensures Consolidated(src + [v], dst + [Recent(src + [v], n) % U32], n)
  {
    hide Recent;
    var src', dst', m := src + [v], dst + [Recent(src + [v], n) % U32], |dst|;
    assert |dst'| == m + 1 && n * |dst'| == n * m + n;
    forall k | 0 <= k < |dst'| ensures n * k + n <= |src'| && dst'[k] == Group(src', k, n) % U32 {
      if k < m {
        GroupGrows(src, v, k, n);
      } else {
        assert src'[..n * k + n] == src';
      }
    }
  }

  /** Whether a group is complete shows in the remainder the code tests. */
  lemma CompleteIffMultiple(len: nat, m: nat, n: nat)
    requires n > 0 && n * m <= len < n * m + n
    ensures (len + 1) % n == 0 <==> len + 1 == n * m + n
  {
    var q := (len + 1) / n;
    assert len + 1 == q * n + (len + 1) % n;
    if q <= m {
      AtLeast(m, q, n);
    } else {
      AtLeast(q, m + 1, n);
      assert (m + 1) * n == n * m + n;
    }
  }

  // -- The tick loop -----------------------------------------------------------------

  /** `consolidate_fine_to_minute` and `consolidate_coarse`: one slot from the last `n`. */
  method Consolidate(src: Archive, dst: Archive, n: nat) returns (written: nat)
    requires src.Valid() && dst.Valid() && n <= src.cap
    requires src != dst && src.req != dst.req
    modifies dst`head, dst`written, dst`log, dst.req
    ensures src.Valid() && dst.Valid()
    ensures dst.log == old(dst.log) + [Recent(src.log, n) % U32]
    ensures written == |dst.log|
  {
    var sum := src.SumLast(n);
    dst.Push(sum % U32);
    written := dst.written;
  }

  /** How many ticks a window of `n` covers after `ticks` of them. */
  function Window(n: nat, ticks: nat): nat {
    var asked := if n < 720 then n else 720;
    if asked < ticks then asked else ticks
  }

  class Counters {
    const fine: Archive
    const minute: Archive
    const hourly: Archive
    const daily: Archive
    var lastTotal: nat
    /** Counter readings so far, one per tick after the initial zero. */
    ghost var totals: seq<nat>

    ghost predicate Apart()
      reads this
    {
      && fine != minute && fine != hourly && fine != daily
      && minute != hourly && minute != daily && hourly != daily
      && fine.req != minute.req && fine.req != hourly.req && fine.req != daily.req
      && minute.req != hourly.req && minute.req != daily.req && hourly.req != daily.req
    }

    ghost predicate Shaped()
      reads this, fine, minute, hourly, daily, fine.req, minute.req, hourly.req, daily.req
    {
      && Apart()
      && fine.Valid() && minute.Valid() && hourly.Valid() && daily.Valid()
      && fine.cap == FINE_SLOTS && minute.cap == MINUTE_SLOTS
      && hourly.cap == HOURLY_SLOTS && daily.cap == DAILY_SLOTS
    }

    ghost predicate Valid()
      reads this, fine, minute, hourly, daily, fine.req, minute.req, hourly.req, daily.req
    {
      && Shaped()
      && totals != [] && lastTotal == totals[|totals| - 1]
      && FineRecords(totals, fine.log)
      && Consolidated(fine.log, minute.log, MINUTE_RATIO)
      && Consolidated(minute.log, hourly.log, HOURLY_RATIO)
      && Consolidated(hourly.log, daily.log, DAILY_RATIO)
    }

    constructor ()
      ensures Valid() && totals == [0]
    {
      fine := new Archive(FINE_SLOTS);
      minute := new Archive(MINUTE_SLOTS);
      hourly := new Archive(HOURLY_SLOTS);
      daily := new Archive(DAILY_SLOTS);
      lastTotal := 0;
      totals := [0];
    }

    /** One round of `tick_loop`, with the counter read as `total`. */
    method Tick(total: nat)
      requires Valid()
      modifies this`lastTotal, this`totals
      modifies fine`head, fine`written, fine`log, fine.req, minute`head, minute`written, minute`log, minute.req
      modifies hourly`head, hourly`written, hourly`log, hourly.req, daily`head, daily`written, daily`log, daily.req
      ensures Valid() && totals == old(totals) + [total]
    {
      hide Archive.Valid, Consolidated, FineRecords, Recent;
      ghost var f, m, h, d := fine.log, minute.log, hourly.log, daily.log;
      var delta := Delta(total, lastTotal);
      FineStep(totals, f, total);
      fine.Push(delta);
      lastTotal := total;
      totals := totals + [total];
      StepBoundary(f, m, MINUTE_RATIO);
      if fine.written % MINUTE_RATIO != 0 {
        KeepsConsolidated(f, delta, m, MINUTE_RATIO);
        return;
      }
      AddsConsolidated(f, delta, m, MINUTE_RATIO);
      ghost var v1 := Recent(fine.log, MINUTE_RATIO) % U32;
      var minuteWritten := Consolidate(fine, minute, MINUTE_RATIO);
      StepBoundary(m, h, HOURLY_RATIO);
      if minuteWritten % HOURLY_RATIO != 0 {
        KeepsConsolidated(m, v1, h, HOURLY_RATIO);
        return;
      }
      AddsConsolidated(m, v1, h, HOURLY_RATIO);
      ghost var v2 := Recent(minute.log, HOURLY_RATIO) % U32;
      var hourlyWritten := Consolidate(minute, hourly, HOURLY_RATIO);
      StepBoundary(h, d, DAILY_RATIO);
      if hourlyWritten % DAILY_RATIO != 0 {
        KeepsConsolidated(h, v2, d, DAILY_RATIO);
        return;
      }
      AddsConsolidated(h, v2, d, DAILY_RATIO);
      var _ := Consolidate(hourly, daily, DAILY_RATIO);
    }

    /** Every slot still in a ring covers exactly the ticks its position says. */
    lemma Retained(age: nat)
      requires Valid() && Monotone(totals)
      ensures age < 1440 && age < |minute.log| ==>
        var k := 12 * (|minute.log| - 1 - age);
        k + 12 < |totals|
        && Covers(minute.req[Back(minute.head, age, 1440)], totals, k, k + 12)
      ensures age < 720 && age < |hourly.log| ==>
        var k := 720 * (|hourly.log| - 1 - age);
        k + 720 < |totals|
        && Covers(hourly.req[Back(hourly.head, age, 720)], totals, k, k + 720)
      ensures age < 365 && age < |daily.log| ==>
        var k := 17280 * (|daily.log| - 1 - age);
        k + 17280 < |totals|
        && Covers(daily.req[Back(daily.head, age, 365)], totals, k, k + 17280)
    {
      hide Consolidated, FineRecords, Monotone, Covers;
      Conservation(totals, fine.log, minute.log, hourly.log, daily.log);
    }

    /**
     The request rate window: the last `n` completed ticks (at most an hour of them),
     exact precisely when no tick's growth exceeded 32 bits.
     */
    method WindowReq(n: nat) returns (sum: nat)
      requires Valid() && Monotone(totals)
      ensures var w := Window(n, |totals| - 1);
        && sum <= totals[|totals| - 1] - totals[|totals| - 1 - w]
        && (sum == totals[|totals| - 1] - totals[|totals| - 1 - w] <==> TicksFit(totals, |totals| - 1 - w))
    {
      assert |totals| == |fine.log| + 1;
      hide Recent, FineRecords, Consolidated, Monotone, TicksFit;
      sum := fine.WindowReq(n);
      ghost var asked := if n < FINE_SLOTS then n else FINE_SLOTS;
      if asked > |fine.log| {
        RecentBeyond(fine.log, asked);
      }
      WindowExact(totals, fine.log, Window(n, |totals| - 1));
    }
  }

  lemma FineStep(totals: seq<nat>, fine: seq<nat>, total: nat)
    requires FineRecords(totals, fine)
    ensures FineRecords(totals + [total], fine + [Delta(total, totals[|totals| - 1])])
  {
  }

  lemma StepBoundary(src: seq<nat>, dst: seq<nat>, n: nat)
    requires Consolidated(src, dst, n)
    ensures (|src| + 1) % n == 0 <==> |src| + 1 == n * |dst| + n
    ensures (|src| + 1) % n != 0 ==> |src| + 1 < n * |dst| + n
  {
    CompleteIffMultiple(|src|, |dst|, n);
  }

  // -- Conservation -------------------------------------------------------------------

  /** Counter readings never go down. */
  ghost predicate Monotone(t: seq<nat>) {
    forall i, j :: 0 <= i <= j < |t| ==> t[i] <= t[j]
  }

  /** Slot `k` holds the growth from reading `k` to reading `k + 1`, modulo 2^32. */
  ghost predicate Tracks(log: seq<nat>, t: seq<nat>) {
    && |t| == |log| + 1 && Monotone(t)
    && forall k :: 0 <= k < |log| ==> log[k] == (t[k + 1] - t[k]) % U32
  }

  lemma AddMod(x: nat, y: nat, a: nat, b: nat)
    requires x % U32 == a % U32 && y == b % U32
    ensures (x + y) % U32 == (a + b) % U32
  {
  }

  /** The last `n` slots add up to the growth over their readings, modulo 2^32. */
  lemma {:induction false} RecentTracks(log: seq<nat>, t: seq<nat>, n: nat)
    requires Tracks(log, t) && n <= |log|
    ensures Recent(log, n) % U32 == (t[|log|] - t[|log| - n]) % U32
    decreases n
  {
    if n > 0 {
      RecentTracks(log, t, n - 1);
      var k := |log| - n;
      assert t[k] <= t[k + 1] <= t[|log|];
      AddMod(Recent(log, n - 1), log[k], t[|log|] - t[k + 1], t[k + 1] - t[k]);
    }
  }

  /** Every `n`-th reading. */
  ghost function Sampled(t: seq<nat>, n: nat, count: nat): seq<nat>
    requires n * count < |t|
  {
    seq(count + 1, k requires 0 <= k <= count => Reading(t, n, count, k))
  }

  ghost function Reading(t: seq<nat>, n: nat, count: nat, k: nat): nat
    requires n * count < |t| && k <= count
  {
    AtMost(n, k, count);
    t[n * k]
  }

  lemma AtMost(n: nat, k: nat, count: nat)
    requires k <= count
    ensures n * k <= n * count
  {
    AtLeast(count, k, n);
    assert count * n == n * count && k * n == n * k;
  }

  lemma SampledMonotone(t: seq<nat>, n: nat, count: nat)
    requires n * count < |t| && Monotone(t)
    ensures Monotone(Sampled(t, n, count))
  {
    var s := Sampled(t, n, count);
    forall i, j | 0 <= i <= j < |s| ensures s[i] <= s[j] {
      AtMost(n, i, j);
      AtMost(n, j, count);
    }
  }

  lemma SampledStep(t: seq<nat>, n: nat, count: nat, k: nat)
    requires n * count < |t| && k < count
    ensures n * k + n < |t|
    ensures Sampled(t, n, count)[k] == t[n * k] && Sampled(t, n, count)[k + 1] == t[n * k + n]
  {
    AtMost(n, k + 1, count);
    assert n * (k + 1) == n * k + n;
  }

  /** A consolidated log tracks the readings at group boundaries. */
  lemma ConsolidatedTracks(src: seq<nat>, dst: seq<nat>, n: nat, t: seq<nat>)
    requires Tracks(src, t) && Consolidated(src, dst, n)
    ensures n * |dst| < |t| && Tracks(dst, Sampled(t, n, |dst|))
  {
    hide Monotone, Group;
    assert n * |dst| < |t|;
    var s := Sampled(t, n, |dst|);
    SampledMonotone(t, n, |dst|);
    assert |s| == |dst| + 1;
    hide Sampled;
    forall k | 0 <= k < |dst| ensures dst[k] == (s[k + 1] - s[k]) % U32 {
      SampledStep(t, n, |dst|, k);
      GroupTracks(src, t, n, k);
    }
  }

  lemma TracksPrefix(src: seq<nat>, t: seq<nat>, e: nat)
    requires Tracks(src, t) && e <= |src|
    ensures Tracks(src[..e], t[..e + 1])
  {
  }

  lemma GroupTracks(src: seq<nat>, t: seq<nat>, n: nat, k: nat)
    requires Tracks(src, t) && n * k + n <= |src|
    ensures t[n * k] <= t[n * k + n] && Group(src, k, n) % U32 == (t[n * k + n] - t[n * k]) % U32
  {
    var e := n * k + n;
    TracksPrefix(src, t, e);
    RecentTracks(src[..e], t[..e + 1], n);
  }

  lemma FineTracks(totals: seq<nat>, fine: seq<nat>)
    requires FineRecords(totals, fine) && Monotone(totals)
    ensures Tracks(fine, totals)
  {
    forall k | 0 <= k < |fine| ensures fine[k] == (totals[k + 1] - totals[k]) % U32 {
      assert totals[k] <= totals[k + 1];
    }
  }

  const HOUR_TICKS: nat := 720
  const DAY_TICKS: nat := 17280

  /** The value of a slot covering the ticks from `from` to `to`. */
  ghost predicate Covers(value: nat, totals: seq<nat>, from: nat, to: nat)
    requires from <= to < |totals| && Monotone(totals)
  {
    && value == (totals[to] - totals[from]) % 0x1_0000_0000
    && (value == totals[to] - totals[from] <==> totals[to] - totals[from] < 0x1_0000_0000)
  }

  /** A tracking log's slot covers the stretch between its two readings. */
  lemma TracksCovers(log: seq<nat>, t: seq<nat>, k: nat, totals: seq<nat>, from: nat, to: nat)
    requires Tracks(log, t) && k < |log| && Monotone(totals) && from <= to < |totals|
    requires t[k] == totals[from] && t[k + 1] == totals[to]
    ensures Covers(log[k], totals, from, to)
  {
  }

  /** Sampling twice is sampling once at the product of the rates. */
  lemma SampledTwice(t: seq<nat>, a: nat, b: nat, ca: nat, cb: nat, k: nat)
    requires a * ca < |t| && b * cb <= ca && k <= cb
    ensures a * (b * k) < |t|
    ensures Sampled(Sampled(t, a, ca), b, cb)[k] == t[a * (b * k)]
  {
    AtMost(b, k, cb);
    AtMost(a, b * k, ca);
  }

  ghost predicate Levels(totals: seq<nat>, f: seq<nat>, m: seq<nat>, h: seq<nat>, d: seq<nat>) {
    && Monotone(totals) && FineRecords(totals, f)
    && Consolidated(f, m, MINUTE_RATIO) && Consolidated(m, h, HOURLY_RATIO) && Consolidated(h, d, DAILY_RATIO)
  }

  lemma MinuteCovers(totals: seq<nat>, f: seq<nat>, m: seq<nat>, k: nat)
    requires Monotone(totals) && FineRecords(totals, f) && Consolidated(f, m, MINUTE_RATIO) && k < |m|
    ensures MINUTE_RATIO * k + MINUTE_RATIO < |totals|
    ensures Covers(m[k], totals, MINUTE_RATIO * k, MINUTE_RATIO * k + MINUTE_RATIO)
  {
    hide FineRecords, Consolidated, Tracks, Monotone, Covers;
    FineTracks(totals, f);
    ConsolidatedTracks(f, m, MINUTE_RATIO, totals);
    TracksCovers(m, Sampled(totals, MINUTE_RATIO, |m|), k, totals, MINUTE_RATIO * k, MINUTE_RATIO * k + MINUTE_RATIO);
  }

  lemma HourCovers(totals: seq<nat>, f: seq<nat>, m: seq<nat>, h: seq<nat>, k: nat)
    requires Monotone(totals) && FineRecords(totals, f) && k < |h|
    requires Consolidated(f, m, MINUTE_RATIO) && Consolidated(m, h, HOURLY_RATIO)
    ensures HOUR_TICKS * k + HOUR_TICKS < |totals|
    ensures Covers(h[k], totals, HOUR_TICKS * k, HOUR_TICKS * k + HOUR_TICKS)
  {
    hide FineRecords, Tracks, Monotone, Covers, Sampled;
    FineTracks(totals, f);
    ConsolidatedTracks(f, m, MINUTE_RATIO, totals);
    var tm := Sampled(totals, MINUTE_RATIO, |m|);
    ConsolidatedTracks(m, h, HOURLY_RATIO, tm);
    SampledTwice(totals, MINUTE_RATIO, HOURLY_RATIO, |m|, |h|, k);
    SampledTwice(totals, MINUTE_RATIO, HOURLY_RATIO, |m|, |h|, k + 1);
    TracksCovers(h, Sampled(tm, HOURLY_RATIO, |h|), k, totals, HOUR_TICKS * k, HOUR_TICKS * k + HOUR_TICKS);
  }

  lemma DayCovers(totals: seq<nat>, f: seq<nat>, m: seq<nat>, h: seq<nat>, d: seq<nat>, k: nat)
    requires Levels(totals, f, m, h, d) && k < |d|
    ensures DAY_TICKS * k + DAY_TICKS < |totals|
    ensures Covers(d[k], totals, DAY_TICKS * k, DAY_TICKS * k + DAY_TICKS)
  {
    hide FineRecords, Tracks, Monotone, Covers, Sampled;
    FineTracks(totals, f);
    ConsolidatedTracks(f, m, MINUTE_RATIO, totals);
    var tm := Sampled(totals, MINUTE_RATIO, |m|);
    ConsolidatedTracks(m, h, HOURLY_RATIO, tm);
    var th := Sampled(tm, HOURLY_RATIO, |h|);
    ConsolidatedTracks(h, d, DAILY_RATIO, th);
    hide Consolidated;
    DayReading(totals, |m|, |h|, |d|, k);
    DayReading(totals, |m|, |h|, |d|, k + 1);
    TracksCovers(d, Sampled(th, DAILY_RATIO, |d|), k, totals, DAY_TICKS * k, DAY_TICKS * k + DAY_TICKS);
  }

  lemma DayReading(totals: seq<nat>, cm: nat, ch: nat, cd: nat, k: nat)
    requires MINUTE_RATIO * cm < |totals| && HOURLY_RATIO * ch <= cm && DAILY_RATIO * cd <= ch && k <= cd
    ensures DAY_TICKS * k < |totals|
    ensures Sampled(Sampled(Sampled(totals, MINUTE_RATIO, cm), HOURLY_RATIO, ch), DAILY_RATIO, cd)[k]
         == totals[DAY_TICKS * k]
  {
    SampledTwice(Sampled(totals, MINUTE_RATIO, cm), HOURLY_RATIO, DAILY_RATIO, ch, cd, k);
  }

  lemma TickCovered(totals: seq<nat>, f: seq<nat>, k: nat)
    requires Monotone(totals) && FineRecords(totals, f) && k < |f|
    ensures k + 1 < |totals| && Covers(f[k], totals, k, k + 1)
  {
    FineTracks(totals, f);
    hide FineRecords, Monotone, Covers;
    TracksCovers(f, totals, k, totals, k, k + 1);
  }

  lemma MinutesCovered(totals: seq<nat>, f: seq<nat>, m: seq<nat>, h: seq<nat>, d: seq<nat>)
    requires Levels(totals, f, m, h, d) && Monotone(totals)
    ensures forall k :: 0 <= k < |m| ==> 12 * k + 12 < |totals| && Covers(m[k], totals, 12 * k, 12 * k + 12)
  {
    hide FineRecords, Consolidated, Monotone, Covers;
    forall k | 0 <= k < |m| ensures 12 * k + 12 < |totals| && Covers(m[k], totals, 12 * k, 12 * k + 12) {
      MinuteCovers(totals, f, m, k);
    }
  }

  lemma HoursCovered(totals: seq<nat>, f: seq<nat>, m: seq<nat>, h: seq<nat>, d: seq<nat>)
    requires Levels(totals, f, m, h, d) && Monotone(totals)
    ensures forall k :: 0 <= k < |h| ==> 720 * k + 720 < |totals| && Covers(h[k], totals, 720 * k, 720 * k + 720)
  {
    hide FineRecords, Consolidated, Monotone, Covers;
    forall k | 0 <= k < |h| ensures 720 * k + 720 < |totals| && Covers(h[k], totals, 720 * k, 720 * k + 720) {
      HourCovers(totals, f, m, h, k);
    }
  }

  lemma DaysCovered(totals: seq<nat>, f: seq<nat>, m: seq<nat>, h: seq<nat>, d: seq<nat>)
    requires Levels(totals, f, m, h, d) && Monotone(totals)
    ensures forall k :: 0 <= k < |d| ==>
      17280 * k + 17280 < |totals| && Covers(d[k], totals, 17280 * k, 17280 * k + 17280)
  {
    hide FineRecords, Consolidated, Monotone, Covers;
    forall k | 0 <= k < |d| ensures 17280 * k + 17280 < |totals| && Covers(d[k], totals, 17280 * k, 17280 * k + 17280) {
      DayCovers(totals, f, m, h, d, k);
    }
  }

  /**
   Conservation across all levels: over any run of ticks with a counter that never
   goes down, every slot ever written at each level equals, modulo 2^32, the growth
   of the counter over exactly the ticks it covers; it is that growth precisely when
   the growth fits in 32 bits.
   */
  lemma Conservation(totals: seq<nat>, f: seq<nat>, m: seq<nat>, h: seq<nat>, d: seq<nat>)
    requires Levels(totals, f, m, h, d)
    ensures forall k :: 0 <= k < |f| ==> k + 1 < |totals| && Covers(f[k], totals, k, k + 1)
    ensures forall k :: 0 <= k < |m| ==>
      12 * k + 12 < |totals|
      && Covers(m[k], totals, 12 * k, 12 * k + 12)
    ensures forall k :: 0 <= k < |h| ==>
      720 * k + 720 < |totals| && Covers(h[k], totals, 720 * k, 720 * k + 720)
    ensures forall k :: 0 <= k < |d| ==>
      17280 * k + 17280 < |totals| && Covers(d[k], totals, 17280 * k, 17280 * k + 17280)
  {
    assert |totals| == |f| + 1;
    hide Covers, Consolidated, FineRecords;
    forall k | 0 <= k < |f| ensures k + 1 < |totals| && Covers(f[k], totals, k, k + 1) {
      TickCovered(totals, f, k);
    }
    MinutesCovered(totals, f, m, h, d);
    HoursCovered(totals, f, m, h, d);
    DaysCovered(totals, f, m, h, d);
  }

  // -- The sliding window -----------------------------------------------------------------

  /** No slot is missing: one per 12, 720 and 17280 ticks. */
  lemma SlotCounts(totals: seq<nat>, f: seq<nat>, m: seq<nat>, h: seq<nat>, d: seq<nat>)
    requires Levels(totals, f, m, h, d)
    ensures |f| == |totals| - 1 && |m| == |f| / 12 && |h| == |f| / 720 && |d| == |f| / 17280
  {
    DivIs(|f|, 12, |m|);
    DivIs(|f|, 720, |h|);
    DivIs(|f|, 17280, |d|);
  }

  /** Growth over the ticks `from..to`, each of them fitting in 32 bits. */
  ghost predicate TicksFit(totals: seq<nat>, from: nat) {
    forall k :: from <= k < |totals| - 1 ==> totals[k + 1] < totals[k] + 0x1_0000_0000
  }

  /**
   `window_req`: the last `n` completed ticks add up to the counter's growth over
   them exactly when no single tick's growth exceeded 32 bits, and to less otherwise.
   */
  lemma {:induction false} WindowExact(totals: seq<nat>, f: seq<nat>, n: nat)
    requires Monotone(totals) && FineRecords(totals, f) && n <= |f|
    ensures Recent(f, n) <= totals[|f|] - totals[|f| - n]
    ensures Recent(f, n) == totals[|f|] - totals[|f| - n] <==> TicksFit(totals, |f| - n)
    decreases n
  {
    if n > 0 {
      WindowExact(totals, f, n - 1);
      var k := |f| - n;
      var g := totals[k + 1] - totals[k];
      assert f[k] == g % U32 <= g;
      assert totals[k] <= totals[k + 1] <= totals[|f|];
      assert TicksFit(totals, k) <==> g < U32 && TicksFit(totals, k + 1);
    }
  }

  /** Asking for more ticks than have completed counts from the start. */
  lemma {:induction false} RecentBeyond(f: seq<nat>, n: nat)
    requires n >= |f|
    ensures Recent(f, n) == Recent(f, |f|)
    decreases n
  {
    if n > |f| {
      RecentBeyond(f, n - 1);
    }
  }
}
