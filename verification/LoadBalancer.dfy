/**
 The upstream picker (src/lb.rs): a ring in which each upstream appears as often
 as its weight, scanned from a policy-chosen start, or the least loaded upstream.
 Clock readings, hashes and random numbers are parameters.
 */
module LoadBalancer {
  import opened Arithmetic
  import opened Common

  /** What a selection pass reads from outside: the clock in milliseconds and a random number. */
  datatype Reading = Reading(now: nat, random: nat)

  datatype Policy = RoundRobin | Random | IpHash | HeaderHash | LeastConn

  datatype Upstream = Upstream(
    weight: nat, group: Option<string>, inFlight: nat, healthy: bool, ejectedUntilMs: nat)

  /** Number of values of a usize: index arithmetic wraps there. */
  const WRAP: nat := 0x1_0000_0000_0000_0000

  predicate IsEjected(u: Upstream, now: nat) {
    u.ejectedUntilMs != 0 && u.ejectedUntilMs > now
  }

  predicate IsAvailable(u: Upstream, now: nat) {
    u.weight > 0 && u.healthy && !IsEjected(u, now)
  }

  predicate Eligible(u: Upstream, now: nat, group: Option<string>) {
    IsAvailable(u, now) && (group.None? || u.group == group)
  }

  /** In rotation: a positive weight, healthy, no ejection still running, and in the group asked for. */
  lemma EligibleMeans(u: Upstream, now: nat, group: Option<string>)
    ensures Eligible(u, now, group) <==>
      u.weight > 0 && u.healthy && u.ejectedUntilMs <= now && (group.Some? ==> u.group == group)
  {
  }

  // -- The ring ----------------------------------------------------------------------

  /** Each upstream's index, repeated weight times. */
  function Ring(us: seq<Upstream>): seq<nat> {
    if us == [] then []
    else Ring(us[..|us| - 1]) + seq(us[|us| - 1].weight, _ => |us| - 1)
  }

  method BuildRing(us: seq<Upstream>) returns (ring: seq<nat>)
    ensures ring == Ring(us)
  {
    ring := [];
    for idx := 0 to |us|
      invariant ring == Ring(us[..idx])
    {
      TakeSnoc(us, idx);
      ghost var before := ring;
      for k := 0 to us[idx].weight
        invariant ring == before + seq(k, _ => idx)
      {
        RepeatSnoc(idx, k);
        ConcatAssoc(before, seq(k, _ => idx), [idx]);
        ring := ring + [idx];
      }
    }
    assert us[..|us|] == us;
  }

  lemma RepeatSnoc(x: nat, k: nat)
    ensures seq(k, _ => x) + [x] == seq(k + 1, _ => x)
  {
  }

  /** How often `x` occurs. */
  function Count(s: seq<nat>, x: nat): nat {
    if s == [] then 0 else (if s[0] == x then 1 else 0) + Count(s[1..], x)
  }

  lemma {:induction false} CountConcat(a: seq<nat>, b: seq<nat>, x: nat)
    ensures Count(a + b, x) == Count(a, x) + Count(b, x)
  {
    if a == [] {
      assert a + b == b;
    } else {
      assert (a + b)[1..] == a[1..] + b;
      CountConcat(a[1..], b, x);
    }
  }

  lemma {:induction false} CountRepeat(y: nat, k: nat, x: nat)
    ensures Count(seq(k, _ => y), x) == if x == y then k else 0
  {
    if k > 0 {
      var s := seq(k, _ => y);
      assert s[1..] == seq(k - 1, _ => y);
      CountRepeat(y, k - 1, x);
    }
  }

  /** The ring holds exactly the upstreams' indices, each as often as its weight. */
  lemma {:induction false} RingCounts(us: seq<Upstream>, i: nat)
    ensures Count(Ring(us), i) == if i < |us| then us[i].weight else 0
    decreases |us|
  {
    if us != [] {
      var n := |us| - 1;
      RingCounts(us[..n], i);
      CountRepeat(n, us[n].weight, i);
      CountConcat(Ring(us[..n]), seq(us[n].weight, _ => n), i);
    }
  }

  /** Upstreams come in order; with the counts this leaves one ring only. */
  lemma {:induction false} RingSorted(us: seq<Upstream>, j: nat, k: nat)
    requires j <= k < |Ring(us)|
    ensures Ring(us)[j] <= Ring(us)[k] < |us|
    decreases |us|
  {
    var before := Ring(us[..|us| - 1]);
    if k < |before| {
      RingSorted(us[..|us| - 1], j, k);
    } else if j < |before| {
      RingSorted(us[..|us| - 1], j, j);
    }
  }

  lemma {:induction false} CountOccurs(s: seq<nat>, x: nat)
    ensures Count(s, x) > 0 <==> exists k :: 0 <= k < |s| && s[k] == x
  {
    if s != [] {
      CountOccurs(s[1..], x);
      if k :| 0 <= k < |s[1..]| && s[1..][k] == x {
        assert s[k + 1] == x;
      }
      if k :| 0 <= k < |s| && s[k] == x && k > 0 {
        assert s[1..][k - 1] == x;
      }
    }
  }

  lemma RingInRange(us: seq<Upstream>, k: nat)
    requires k < |Ring(us)|
    ensures Ring(us)[k] < |us| && us[Ring(us)[k]].weight > 0
  {
    hide Ring;
    var i := Ring(us)[k];
    CountOccurs(Ring(us), i);
    RingCounts(us, i);
  }

  lemma OnRing(us: seq<Upstream>, i: nat) returns (k: nat)
    requires i < |us| && us[i].weight > 0
    ensures k < |Ring(us)| && Ring(us)[k] == i
  {
    hide Ring;
    RingCounts(us, i);
    CountOccurs(Ring(us), i);
    k :| 0 <= k < |Ring(us)| && Ring(us)[k] == i;
  }

  // -- The scan ------------------------------------------------------------------------

  /** Ring position looked at after `offset` steps, with usize wrap-around. */
  function ScanPos(start: nat, offset: nat, len: nat): nat
    requires len > 0
  {
    ((start + offset) % WRAP) % len
  }

  /** Every position is looked at within one round. */
  ghost predicate ScanCovers(start: nat, len: nat)
    requires len > 0
  {
    forall p :: 0 <= p < len ==> Visits(start, len, p)
  }

  ghost predicate Visits(start: nat, len: nat, p: nat)
    requires len > 0
  {
    exists k :: 0 <= k < len && ScanPos(start, k, len) == p
  }

  /** The index does not wrap during a round, or wraps at a multiple of the ring. */
  predicate ScanSafe(start: nat, len: nat)
    requires len > 0
  {
    start + len <= WRAP || WRAP % len == 0
  }

  lemma ModShift(x: nat, y: nat, n: nat)
    requires n > 0
    ensures (x + y) % n == (x % n + y % n) % n
  {
    var a, b, q := x / n, y / n, (x % n + y % n) / n;
    DivMod(x, n);
    DivMod(y, n);
    DivMod(x % n + y % n, n);
    Products(n, a, b, q);
    DivIs(x + y, n, a + b + q);
  }

  /** Any residue is reached within one round. */
  lemma RoundHits(start: nat, len: nat, p: nat) returns (k: nat)
    requires 0 < len && p < len
    ensures k < len && (start + k) % len == p
  {
    var r := start % len;
    k := if r <= p then p - r else p - r + len;
    ModShift(start, k, len);
    DivIs(k, len, 0);
    ModOnce(r + k, len);
  }

  /** Without wrap-around the scan passes every position. */
  lemma UnwrappedVisits(start: nat, len: nat, p: nat)
    requires 0 < len && p < len && start + len <= WRAP
    ensures Visits(start, len, p)
  {
    var k := RoundHits(start, len, p);
    DivIs(start + k, WRAP, 0);
    assert ScanPos(start, k, len) == p;
  }

  lemma AlignedMod(x: nat, len: nat)
    requires 0 < len && WRAP % len == 0 && x < 2 * WRAP
    ensures (x % WRAP) % len == x % len
  {
    ModOnce(x, WRAP);
    if x >= WRAP {
      var q, w := x / len, WRAP / len;
      assert x == len * q + x % len && WRAP == len * w;
      assert len * (q - w) == len * q - len * w;
      DivIs(x - WRAP, len, q - w);
    }
  }

  /** Wrapping at a multiple of the ring's length does no harm. */
  lemma AlignedVisits(start: nat, len: nat, p: nat)
    requires 0 < len && p < len && start < WRAP && len <= WRAP && WRAP % len == 0
    ensures Visits(start, len, p)
  {
    var k := RoundHits(start, len, p);
    AlignedMod(start + k, len);
    assert ScanPos(start, k, len) == p;
  }

  /** The position a misaligned wrap-around skips. */
  function Skipped(start: nat, len: nat): int
    requires len > 0
  {
    var a, r := WRAP - start, WRAP % len;
    if r < a then len - a + r - 1 else len - 1
  }

  lemma BeforeWrap(start: nat, len: nat, k: nat)
    requires 0 < len && start < WRAP < start + len && start + k < WRAP
    ensures var b, r := WRAP - (start + k), WRAP % len;
      ScanPos(start, k, len) == if b <= r then r - b else len + r - b
  {
    var b, q, r := WRAP - (start + k), WRAP / len, WRAP % len;
    DivIs(start + k, WRAP, 0);
    assert WRAP == len * q + r;
    assert len * (q - 1) == len * q - len;
    if b <= r {
      DivIs(start + k, len, q);
    } else {
      DivIs(start + k, len, q - 1);
    }
  }

  lemma AfterWrap(start: nat, len: nat, k: nat)
    requires 0 < len <= WRAP && start < WRAP <= start + k && k < len
    ensures ScanPos(start, k, len) == start + k - WRAP
  {
    DivIs(start + k, WRAP, 1);
    DivIs(start + k - WRAP, len, 0);
  }

  lemma MisalignedSkips(start: nat, len: nat)
    requires 0 < len <= WRAP && start < WRAP < start + len && WRAP % len != 0
    ensures 0 <= Skipped(start, len) < len && !Visits(start, len, Skipped(start, len))
  {
    hide ScanPos;
    var p := Skipped(start, len);
    forall k | 0 <= k < len ensures ScanPos(start, k, len) != p {
      if start + k < WRAP {
        BeforeWrap(start, len, k);
      } else {
        AfterWrap(start, len, k);
      }
    }
  }

  /** A round of the scan sees the whole ring exactly when the start is safe. */
  lemma ScanCoversIff(start: nat, len: nat)
    requires 0 < len <= WRAP && start < WRAP
    ensures ScanCovers(start, len) <==> ScanSafe(start, len)
    ensures ScanCovers(start, len) <==>
      start + len <= 0x1_0000_0000_0000_0000 || 0x1_0000_0000_0000_0000 % len == 0
  {
    hide Visits;
    if ScanSafe(start, len) {
      forall p | 0 <= p < len ensures Visits(start, len, p) {
        if start + len <= WRAP {
          UnwrappedVisits(start, len, p);
        } else {
          AlignedVisits(start, len, p);
        }
      }
    } else {
      MisalignedSkips(start, len);
      assert !Visits(start, len, Skipped(start, len));
    }
  }

  // -- Picking -----------------------------------------------------------------------------

  /** Where a ring policy starts: the cursor, a random number, or a hash if there is one. */
  function StartOf(policy: Policy, cursor: nat, random: nat, hash: Option<nat>): nat {
    match policy
    case Random => random
    case IpHash => if hash.Some? then hash.value else cursor
    case HeaderHash => if hash.Some? then hash.value else cursor
    case _ => cursor
  }

  /** Whether choosing the start moves the cursor. */
  predicate MovesCursor(policy: Policy, hash: Option<nat>) {
    policy.RoundRobin? || policy.Random? || hash.None?
  }

  /**
   Round-robin starts at the cursor and moves it, random at the number drawn and moves it, too; a
   hash is used where there is one and leaves the cursor alone; without one the cursor stands in.
   */
  lemma PolicyStarts(cursor: nat, random: nat, h: nat, hash: Option<nat>)
    ensures StartOf(RoundRobin, cursor, random, hash) == cursor && MovesCursor(RoundRobin, hash)
    ensures StartOf(Random, cursor, random, hash) == random && MovesCursor(Random, hash)
    ensures StartOf(IpHash, cursor, random, Some(h)) == StartOf(HeaderHash, cursor, random, Some(h)) == h
    ensures !MovesCursor(IpHash, Some(h)) && !MovesCursor(HeaderHash, Some(h))
    ensures StartOf(IpHash, cursor, random, None) == StartOf(HeaderHash, cursor, random, None) == cursor
    ensures MovesCursor(IpHash, None) && MovesCursor(HeaderHash, None)
  {
  }

  /** `i` is the first eligible upstream in scan order. */
  ghost predicate FirstInScan(
    us: seq<Upstream>, ring: seq<nat>, start: nat, now: nat, group: Option<string>, offset: nat, i: nat)
    requires ring == Ring(us) && ring != []
  {
    && offset < |ring| && ring[ScanPos(start, offset, |ring|)] == i
    && i < |us| && Eligible(us[i], now, group)
    && forall k :: 0 <= k < offset ==> !EligibleAt(us, ring, ScanPos(start, k, |ring|), now, group)
  }

  ghost predicate EligibleAt(us: seq<Upstream>, ring: seq<nat>, p: nat, now: nat, group: Option<string>) {
    p < |ring| && ring[p] < |us| && Eligible(us[ring[p]], now, group)
  }

  ghost predicate AnyEligible(us: seq<Upstream>, now: nat, group: Option<string>) {
    exists i :: 0 <= i < |us| && Eligible(us[i], now, group)
  }

  /** An empty scan from a safe start means that nothing is eligible. */
  lemma EmptyScan(us: seq<Upstream>, start: nat, now: nat, group: Option<string>)
    requires Ring(us) != [] && |Ring(us)| <= WRAP && start < WRAP && ScanSafe(start, |Ring(us)|)
    requires forall k :: 0 <= k < |Ring(us)| ==> !EligibleAt(us, Ring(us), ScanPos(start, k, |Ring(us)|), now, group)
    ensures !AnyEligible(us, now, group)
  {
    hide Ring, ScanPos, ScanSafe;
    ScanCoversIff(start, |Ring(us)|);
    forall p | 0 <= p < |Ring(us)| ensures !EligibleAt(us, Ring(us), p, now, group) {
      assert Visits(start, |Ring(us)|, p);
      var k :| 0 <= k < |Ring(us)| && ScanPos(start, k, |Ring(us)|) == p;
    }
    forall i | 0 <= i < |us| ensures !Eligible(us[i], now, group) {
      if us[i].weight > 0 {
        var p := OnRing(us, i);
        assert !EligibleAt(us, Ring(us), p, now, group);
      }
    }
  }

  /** Load per unit of weight, in thousandths. */
  function Cost(u: Upstream): nat
    requires u.weight > 0
  {
    u.inFlight * 1000 / u.weight
  }

  /**
   `i` has minimal cost among the eligible of the first `n`; among equals it is the last one
   on which index and salt add up to an even number, or else the first of all.
   */
  ghost predicate LeastLoaded(us: seq<Upstream>, n: nat, now: nat, group: Option<string>, salt: nat, i: nat)
    requires n <= |us|
  {
    && i < n && Eligible(us[i], now, group)
    && (forall j :: 0 <= j < n && Eligible(us[j], now, group) ==> Cost(us[i]) <= Cost(us[j]))
    && (forall j :: i < j < n && Eligible(us[j], now, group) && Cost(us[j]) == Cost(us[i]) ==> (j + salt) % 2 == 1)
    && ((i + salt) % 2 == 0 || forall j :: 0 <= j < i && Eligible(us[j], now, group) ==> Cost(us[i]) < Cost(us[j]))
  }

  /** The tie-break leaves one choice. */
  lemma LeastLoadedUnique(us: seq<Upstream>, n: nat, now: nat, group: Option<string>, salt: nat, i: nat, j: nat)
    requires n <= |us| && LeastLoaded(us, n, now, group, salt, i) && LeastLoaded(us, n, now, group, salt, j)
    ensures i == j
  {
    hide Cost;
    assert Cost(us[i]) == Cost(us[j]);
  }

  lemma CostOf(us: seq<Upstream>, n: nat, now: nat, group: Option<string>, salt: nat, i: nat, j: nat)
    requires n <= |us| && LeastLoaded(us, n, now, group, salt, i) && j < n && Eligible(us[j], now, group)
    ensures us[i].weight > 0 && us[j].weight > 0
    ensures us[i].inFlight * 1000 / us[i].weight <= us[j].inFlight * 1000 / us[j].weight
  {
    assert Cost(us[i]) <= Cost(us[j]);
  }

  lemma Among(us: seq<Upstream>, now: nat, group: Option<string>, i: nat)
    requires i < |us| && Eligible(us[i], now, group)
    ensures AnyEligible(us, now, group)
  {
  }

  lemma ScanPosInRange(start: nat, offset: nat, len: nat)
    requires len > 0
    ensures ScanPos(start, offset, len) < len
  {
  }

  lemma EmptyRing(us: seq<Upstream>, now: nat, group: Option<string>)
    requires Ring(us) == []
    ensures !AnyEligible(us, now, group)
  {
    hide Ring;
    if i: nat :| i < |us| && Eligible(us[i], now, group) {
      var k := OnRing(us, i);
    }
  }

  lemma EmptyPool(us: seq<Upstream>)
    requires us == []
    ensures Ring(us) == []
  {
  }

  lemma FirstPosition(start: nat, len: nat)
    requires start < WRAP
    ensures len > 0 ==> ScanPos(start, 0, len) == start % len
  {
    DivIs(start, WRAP, 0);
  }

  class UpstreamPool {
    const policy: Policy
    const ring: seq<nat>
    /** The upstreams, with what is currently known about each. */
    var upstreams: seq<Upstream>
    /** Round-robin cursor, a usize. */
    var cursor: nat

    ghost predicate Valid()
      reads this
    {
      ring == Ring(upstreams) && |ring| <= WRAP && cursor < WRAP
    }

    constructor (upstreams: seq<Upstream>, policy: Policy)
      requires |Ring(upstreams)| <= WRAP
      ensures Valid() && this.upstreams == upstreams && this.policy == policy && cursor == 0
    {
      var r := BuildRing(upstreams);
      this.upstreams := upstreams;
      this.policy := policy;
      this.ring := r;
      this.cursor := 0;
    }

    /** `fetch_add(1)` on the cursor. */
    method NextCursor() returns (c: nat)
      requires Valid()
      modifies this`cursor
      ensures Valid() && c == old(cursor) && cursor == (c + 1) % WRAP
    {
      c := cursor;
      cursor := (cursor + 1) % WRAP;
    }

    /** `pick_least_conn`. */
    method PickLeastConn(now: nat, group: Option<string>) returns (r: Option<nat>)
      requires Valid()
      modifies this`cursor
      ensures Valid() && cursor == (old(cursor) + 1) % WRAP
      ensures r.None? <==> !AnyEligible(upstreams, now, group)
      ensures r.Some? ==> LeastLoaded(upstreams, |upstreams|, now, group, old(cursor), r.value)
      ensures r.Some? ==> r.value < |upstreams| && Eligible(upstreams[r.value], now, group)
    {
      hide Ring;
      var salt := NextCursor();
      r := None;
      for i := 0 to |upstreams|
        invariant Valid() && cursor == (old(cursor) + 1) % WRAP
        invariant r.None? <==> forall j :: 0 <= j < i ==> !Eligible(upstreams[j], now, group)
        invariant r.Some? ==> LeastLoaded(upstreams, i, now, group, salt, r.value)
      {
        var u := upstreams[i];
        if Eligible(u, now, group) {
          if r.None? {
            r := Some(i);
          } else {
            var best := upstreams[r.value];
            if Cost(u) < Cost(best) || (Cost(u) == Cost(best) && (i + salt) % 2 == 0) {
              r := Some(i);
            }
          }
        }
      }
    }

    /** Where a pass starts its scan. */
    ghost function Start(cursor: nat, at: Reading, hash: Option<nat>): nat {
      StartOf(policy, cursor, at.random, hash)
    }

    /** What one selection pass chooses from the upstreams it may use. */
    ghost predicate Chosen(cursor: nat, at: Reading, hash: Option<nat>, group: Option<string>, i: nat)
      reads this
      requires Valid()
    {
      if policy.LeastConn? then LeastLoaded(upstreams, |upstreams|, at.now, group, cursor, i)
      else ring != [] && exists o :: FirstInScan(upstreams, ring, Start(cursor, at, hash), at.now, group, o, i)
    }

    /** The first position of the scan is eligible. */
    ghost predicate FirstServes(cursor: nat, at: Reading, hash: Option<nat>, group: Option<string>)
      reads this
    {
      !policy.LeastConn? && ring != []
      && EligibleAt(upstreams, ring, ScanPos(Start(cursor, at, hash), 0, |ring|), at.now, group)
    }

    /** The upstream at this place of the ring is taken if it is eligible. */
    ghost predicate TakesFirst(place: nat, now: nat, group: Option<string>, r: Option<nat>)
      reads this
    {
      ring != [] && EligibleAt(upstreams, ring, place % |ring|, now, group) ==> r == Some(ring[place % |ring|])
    }

    /** The cursor after one selection pass. */
    function Moved(cursor: nat, hash: Option<nat>): nat {
      if policy.LeastConn? || (ring != [] && MovesCursor(policy, hash)) then (cursor + 1) % WRAP else cursor
    }

    /** Some upstream declares the requested group, so a restricted pass comes first. */
    predicate Declared(group: Option<string>)
      reads this
    {
      group.Some? && exists i :: 0 <= i < |upstreams| && upstreams[i].group == group
    }

    /** The scan from this start sees the whole ring. */
    ghost predicate SafeStart(cursor: nat, at: Reading, hash: Option<nat>) {
      policy.LeastConn? || ring == [] || ScanSafe(Start(cursor, at, hash), |ring|)
    }

    /** The scan of a ring policy: forward from the start, once around. */
    method Scan(start: nat, now: nat, group: Option<string>) returns (r: Option<nat>)
      requires Valid() && ring != []
      ensures r.Some? ==> r.value < |upstreams| && Eligible(upstreams[r.value], now, group)
      ensures r.Some? ==> exists o :: FirstInScan(upstreams, ring, start, now, group, o, r.value)
      ensures r.None? ==>
        forall k :: 0 <= k < |ring| ==> !EligibleAt(upstreams, ring, ScanPos(start, k, |ring|), now, group)
      ensures EligibleAt(upstreams, ring, ScanPos(start, 0, |ring|), now, group) ==>
        r == Some(ring[ScanPos(start, 0, |ring|)])
    {
      hide Ring, ScanPos, Eligible;
      for offset := 0 to |ring|
        invariant forall k :: 0 <= k < offset ==> !EligibleAt(upstreams, ring, ScanPos(start, k, |ring|), now, group)
      {
        var pos := ScanPos(start, offset, |ring|);
        ScanPosInRange(start, offset, |ring|);
        RingInRange(upstreams, pos);
        var idx := ring[pos];
        if Eligible(upstreams[idx], now, group) {
          assert FirstInScan(upstreams, ring, start, now, group, offset, idx);
          return Some(idx);
        }
      }
      return None;
    }

    /** `pick_where`: one selection pass. */
    method PickWhere(at: Reading, group: Option<string>, hash: Option<nat>) returns (r: Option<nat>)
      requires Valid() && at.random < WRAP && (hash.Some? ==> hash.value < WRAP)
      modifies this`cursor
      ensures Valid()
      ensures r.Some? ==> r.value < |upstreams| && Eligible(upstreams[r.value], at.now, group)
      ensures r.Some? ==> Chosen(old(cursor), at, hash, group, r.value)
      ensures SafeStart(old(cursor), at, hash) ==>
        (r.None? <==> !AnyEligible(upstreams, at.now, group))
      ensures FirstServes(old(cursor), at, hash, group) ==> r.Some?
      ensures !policy.LeastConn? ==> TakesFirst(Start(old(cursor), at, hash), at.now, group, r)
      ensures cursor == Moved(old(cursor), hash)
    {
      hide Ring, ScanPos, ScanSafe, EligibleAt, FirstInScan, LeastLoaded, Eligible;
      if policy.LeastConn? {
        r := PickLeastConn(at.now, group);
        return;
      }
      if ring == [] {
        EmptyRing(upstreams, at.now, group);
        return None;
      }
      var start := StartOf(policy, cursor, at.random, hash);
      if MovesCursor(policy, hash) {
        var _ := NextCursor();
      }
      FirstPosition(start, |ring|);
      assert start == Start(old(cursor), at, hash);
      r := Scan(start, at.now, group);
      if r.Some? {
        Among(upstreams, at.now, group, r.value);
      } else if SafeStart(old(cursor), at, hash) {
        EmptyScan(upstreams, start, at.now, group);
      }
    }

    /** The restricted pass found `i`. */
    ghost predicate FromGroup(cursor: nat, at: Reading, hash: Option<nat>, group: Option<string>, i: nat)
      reads this
      requires Valid()
    {
      && Declared(group) && i < |upstreams| && Eligible(upstreams[i], at.now, group)
      && Chosen(cursor, at, hash, group, i)
    }

    /** The pass over the whole pool found `i`. */
    ghost predicate FromPool(cursor: nat, at: Reading, hash: Option<nat>, i: nat)
      reads this
      requires Valid()
    {
      i < |upstreams| && IsAvailable(upstreams[i], at.now) && Chosen(cursor, at, hash, None, i)
    }

    /** The cursor when the whole pool is scanned. */
    function PoolCursor(cursor: nat, hash: Option<nat>, group: Option<string>): nat
      reads this
    {
      if Declared(group) then Moved(cursor, hash) else cursor
    }

    /**
     `pick`: the policy's choice among the requested group when one of it is declared and
     available, otherwise its choice among all.  From safe starts it fails exactly when nothing is
     available.  Each pass makes its own readings.
     */
    method Pick(group: Option<string>, first: Reading, second: Reading, hash: Option<nat>) returns (r: Option<nat>)
      requires Valid() && first.random < WRAP && second.random < WRAP && (hash.Some? ==> hash.value < WRAP)
      modifies this`cursor
      ensures Valid()
      ensures r.Some? ==>
        || FromGroup(old(cursor), first, hash, group, r.value)
        || FromPool(PoolCursor(old(cursor), hash, group), second, hash, r.value)
      ensures SafeStart(old(cursor), first, hash) && group.Some? && AnyEligible(upstreams, first.now, group) ==>
        r.Some? && FromGroup(old(cursor), first, hash, group, r.value)
      ensures SafeStart(PoolCursor(old(cursor), hash, group), second, hash) && r.None? ==>
        !AnyEligible(upstreams, second.now, None)
      ensures FirstServes(PoolCursor(old(cursor), hash, group), second, hash, None) ==> r.Some?
      ensures !Declared(group) && upstreams != [] ==> cursor == Moved(old(cursor), hash)
    {
      hide Ring, ScanPos, FirstInScan, LeastLoaded, ScanSafe, EligibleAt;
      if |upstreams| == 0 {
        EmptyPool(upstreams);
        return None;
      }
      if Declared(group) {
        r := PickWhere(first, group, hash);
        if r.Some? {
          return;
        }
      }
      r := PickWhere(second, None, hash);
    }
  }

  // -- Fairness ------------------------------------------------------------------------------

  /** Everyone with a positive weight is available. */
  ghost predicate AllUp(us: seq<Upstream>, now: nat) {
    forall j :: 0 <= j < |us| && us[j].weight > 0 ==> IsAvailable(us[j], now)
  }

  /** Then the first position of any scan serves, */
  lemma CursorServes(us: seq<Upstream>, start: nat, now: nat)
    requires Ring(us) != [] && AllUp(us, now)
    ensures EligibleAt(us, Ring(us), ScanPos(start, 0, |Ring(us)|), now, None)
  {
    hide Ring, ScanPos;
    var p := ScanPos(start, 0, |Ring(us)|);
    ScanPosInRange(start, 0, |Ring(us)|);
    RingInRange(us, p);
  }

  /** and a pick is simply the ring at the cursor. */
  lemma FirstIsCursor(us: seq<Upstream>, start: nat, now: nat, offset: nat, i: nat)
    requires Ring(us) != [] && start < WRAP && AllUp(us, now)
    requires FirstInScan(us, Ring(us), start, now, None, offset, i)
    ensures i == Ring(us)[start % |Ring(us)|]
  {
    hide Ring, AllUp;
    CursorServes(us, start, now);
    assert offset == 0;
    DivIs(start, WRAP, 0);
  }

  /** The picks of one round starting at cursor `c`. */
  function Round(ring: seq<nat>, c: nat): seq<nat>
    requires ring != []
  {
    seq(|ring|, k requires 0 <= k < |ring| => ring[(c + k) % |ring|])
  }

  /** A round is the ring, rotated. */
  lemma RoundIsRotation(ring: seq<nat>, c: nat)
    requires ring != []
    ensures var r := c % |ring|; Round(ring, c) == ring[r..] + ring[..r]
  {
    var n, r := |ring|, c % |ring|;
    var round, rotated := Round(ring, c), ring[r..] + ring[..r];
    forall k | 0 <= k < n ensures round[k] == rotated[k] {
      RotatedIndex(c, k, n);
    }
    assert round == rotated;
  }

  lemma RotatedIndex(c: nat, k: nat, n: nat)
    requires k < n
    ensures (c + k) % n == if c % n + k < n then c % n + k else c % n + k - n
  {
    ModShift(c, k, n);
    DivIs(k, n, 0);
    ModOnce(c % n + k, n);
  }

  /**
   Weighted fairness: with every upstream available, any sum-of-weights consecutive
   round-robin picks choose each upstream exactly as often as its weight.
   */
  lemma WeightedFairness(us: seq<Upstream>, c: nat, i: nat)
    requires Ring(us) != [] && i < |us|
    ensures Count(Round(Ring(us), c), i) == us[i].weight
  {
    hide Ring;
    var ring := Ring(us);
    var r := c % |ring|;
    RoundIsRotation(ring, c);
    CountConcat(ring[r..], ring[..r], i);
    CountConcat(ring[..r], ring[r..], i);
    CutAt(ring, r);
    RingCounts(us, i);
  }

  function TotalWeight(us: seq<Upstream>): nat {
    if us == [] then 0 else TotalWeight(us[..|us| - 1]) + us[|us| - 1].weight
  }

  /** A round is as long as the weights add up to. */
  lemma {:induction false} RingLength(us: seq<Upstream>)
    ensures |Ring(us)| == TotalWeight(us)
    decreases |us|
  {
    if us != [] {
      RingLength(us[..|us| - 1]);
    }
  }

  /** The cursor `k` picks later lands where the round does, unless it wraps out of step. */
  lemma CursorInRound(c: nat, k: nat, len: nat)
    requires 0 < len <= WRAP && c < WRAP && k < len && ScanSafe(c, len)
    ensures ((c + k) % WRAP) % len == (c + k) % len
  {
    if c + len <= WRAP {
      DivIs(c + k, WRAP, 0);
    } else {
      AlignedMod(c + k, len);
    }
  }

  lemma NextCursorValue(c: nat, k: nat)
    requires c < WRAP
    ensures ((c + k) % WRAP + 1) % WRAP == (c + k + 1) % WRAP
  {
    ModShift(c + k, 1, WRAP);
    DivIs(1, WRAP, 0);
  }

  lemma RingOfSome(us: seq<Upstream>)
    requires Ring(us) != []
    ensures us != []
  {
  }

  /** One round-robin pick while everyone is available: the ring at the cursor. */
  method PickAtCursor(pool: UpstreamPool, now: nat) returns (i: nat)
    requires pool.Valid() && pool.policy.RoundRobin? && pool.ring != [] && AllUp(pool.upstreams, now)
    modifies pool`cursor
    ensures pool.Valid() && pool.cursor == (old(pool.cursor) + 1) % WRAP
    ensures i == pool.ring[old(pool.cursor) % |pool.ring|]
  {
    hide Ring, AllUp, FirstInScan, ScanPos, EligibleAt;
    ghost var c, us := pool.cursor, pool.upstreams;
    CursorServes(us, c, now);
    RingOfSome(us);
    var r := pool.Pick(None, Reading(now, 0), Reading(now, 0), None);
    ghost var o :| FirstInScan(us, pool.ring, c, now, None, o, r.value);
    FirstIsCursor(us, c, now, o, r.value);
    return r.value;
  }

  /**
   Weighted fairness of the picker itself: as many round-robin picks as the weights add up to, each
   at its own time and with everyone available, choose each upstream exactly as often as its weight.
   The cursor may wrap during the round as long as the ring divides the range of a usize.
   */
  method FairRound(pool: UpstreamPool, times: seq<nat>) returns (picks: seq<nat>)
    requires pool.Valid() && pool.policy.RoundRobin? && pool.ring != []
    requires |times| == TotalWeight(pool.upstreams) && ScanSafe(pool.cursor, |pool.ring|)
    requires forall k :: 0 <= k < |times| ==> AllUp(pool.upstreams, times[k])
    modifies pool`cursor
    ensures pool.Valid() && |picks| == |times|
    ensures forall i :: 0 <= i < |pool.upstreams| ==> Count(picks, i) == pool.upstreams[i].weight
  {
    hide Ring, TotalWeight, Count, AllUp, ScanSafe;
    ghost var us, c := pool.upstreams, pool.cursor;
    RingLength(us);
    picks := [];
    DivIs(c, WRAP, 0);
    for k := 0 to |times|
      invariant pool.Valid() && pool.upstreams == us && pool.cursor == (c + k) % WRAP
      invariant |picks| == k && forall j :: 0 <= j < k ==> picks[j] == Round(Ring(us), c)[j]
    {
      CursorInRound(c, k, |pool.ring|);
      NextCursorValue(c, k);
      var one := PickAtCursor(pool, times[k]);
      picks := picks + [one];
    }
    assert picks == Round(Ring(us), c);
    forall i | 0 <= i < |us| ensures Count(picks, i) == us[i].weight {
      WeightedFairness(us, c, i);
    }
  }
}
