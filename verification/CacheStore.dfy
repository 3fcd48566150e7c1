/**
 The response store (src/cache/store.rs): a least-recently-used list of entries
 bounded by a byte budget.
 */
module CacheStore {
  import opened Common
  import opened Recency

  /** A stored response: its size, when it was stored and how long it stays fresh. */
  datatype Entry = Entry(id: nat, size: nat, storedAt: nat, lifetime: nat)

  /** Entries, least recently used first. */
  type Slots = seq<Slot<string, Entry>>

  predicate IsFresh(e: Entry, now: nat) {
    (if now > e.storedAt then now - e.storedAt else 0) < e.lifetime
  }

  function Total(s: Slots): nat {
    if s == [] then 0 else s[0].value.size + Total(s[1..])
  }

  function Find(s: Slots, key: string): Option<Entry> {
    var i := IndexOf(s, key);
    if i < |s| then Some(s[i].value) else None
  }

  lemma {:induction false} TotalConcat(a: Slots, b: Slots)
    ensures Total(a + b) == Total(a) + Total(b)
  {
    if a == [] {
      assert a + b == b;
    } else {
      assert (a + b)[1..] == a[1..] + b;
      TotalConcat(a[1..], b);
    }
  }

  lemma TotalOne(x: Slot<string, Entry>)
    ensures Total([x]) == x.value.size
  {
    assert [x][1..] == [];
  }

  /** Dropping a key gives its size back. */
  lemma TotalWithout(s: Slots, key: string)
    ensures Total(Without(s, key)) + (if Find(s, key).Some? then Find(s, key).value.size else 0) == Total(s)
  {
    var i := IndexOf(s, key);
    if i < |s| {
      TotalConcat(s[..i], s[i..]);
      CutAt(s, i);
      TotalConcat(s[..i], s[i + 1..]);
      assert s[i..][0] == s[i] && s[i..][1..] == s[i + 1..];
    }
  }

  /** `rest` is the store after evicting the shortest prefix that fits the budget. */
  ghost predicate Trimmed(full: Slots, rest: Slots, evicted: nat, max: nat) {
    && evicted <= |full| && rest == full[evicted..]
    && Total(rest) <= max
    && (evicted > 0 ==> Total(full[evicted - 1..]) > max)
  }

  lemma {:induction false} TotalSuffix(s: Slots, i: nat, j: nat)
    requires i <= j <= |s|
    ensures Total(s[j..]) <= Total(s[i..])
  {
    assert s[i..] == s[i..j] + s[j..];
    TotalConcat(s[i..j], s[j..]);
  }

  /** Shortest means: every shorter prefix leaves too much. */
  lemma TrimmedShortest(full: Slots, rest: Slots, evicted: nat, max: nat, k: nat)
    requires Trimmed(full, rest, evicted, max) && k <= |full|
    ensures Total(full[k..]) <= max <==> evicted <= k
  {
    if k >= evicted {
      TotalSuffix(full, evicted, k);
    } else {
      TotalSuffix(full, k, evicted - 1);
    }
  }

  function FreshOnly(s: Slots, now: nat): Slots {
    if s == [] then []
    else (if IsFresh(s[0].value, now) then [s[0]] else []) + FreshOnly(s[1..], now)
  }

  /** Kept are exactly the entries stored with a lifetime that has not run out. */
  lemma {:induction false} FreshExact(s: Slots, now: nat)
    ensures forall x :: x in FreshOnly(s, now) <==>
      x in s && x.value.lifetime > 0 && now < x.value.storedAt + x.value.lifetime
  {
    if s != [] {
      FreshExact(s[1..], now);
      assert s == [s[0]] + s[1..];
    }
  }

  function SaturatingSub(a: nat, b: nat): nat {
    if a >= b then a - b else 0
  }

  /** The list with a new entry in place, before any eviction. */
  lemma Placed(s: Slots, key: string, entry: Entry)
    requires Distinct(s)
    ensures Distinct(Without(s, key) + [Slot(key, entry)])
    ensures Total(Without(s, key) + [Slot(key, entry)])
         == Total(s) - (if Find(s, key).Some? then Find(s, key).value.size else 0) + entry.size
    ensures Find(s, key).Some? ==> Find(s, key).value.size <= Total(s)
  {
    hide Without, Find;
    TotalWithout(s, key);
    WithoutKey(s, key);
    DistinctSnoc(Without(s, key), Slot(key, entry));
    TotalConcat(Without(s, key), [Slot(key, entry)]);
    TotalOne(Slot(key, entry));
  }

  lemma DropFirst(full: Slots, n: nat)
    requires n + 1 < |full|
    ensures full[n..][1..] == full[n + 1..] && full[n + 1 - 1..] == full[n..]
    ensures Total(full[n + 1..]) == Total(full[n..]) - full[n..][0].value.size
  {
    assert full[n..][1..] == full[n + 1..];
  }

  /** When eviction stops, the budget holds: in the worst case only the new entry is left. */
  lemma LastFits(full: Slots, n: nat, size: nat, max: nat)
    requires n < |full| && Distinct(full) && full[|full| - 1].value.size == size <= max
    requires Total(full[n..]) <= max || |full[n..]| <= 1
    ensures Total(full[n..]) <= max && Distinct(full[n..])
    ensures full[n..][|full| - n - 1] == full[|full| - 1]
  {
    if |full[n..]| == 1 {
      assert full[n..] == [full[|full| - 1]];
      TotalOne(full[|full| - 1]);
    }
    var r := full[n..];
    assert forall i :: 0 <= i < |r| ==> r[i] == full[n + i];
  }

  function StaleOf(s: Slots, now: nat): seq<string> {
    if s == [] then []
    else (if IsFresh(s[0].value, now) then [] else [s[0].key]) + StaleOf(s[1..], now)
  }

  lemma StaleStep(s: Slots, k: nat, now: nat)
    requires k < |s|
    ensures StaleOf(s[k..], now) == (if IsFresh(s[k].value, now) then [] else [s[k].key]) + StaleOf(s[k + 1..], now)
  {
    assert s[k..][0] == s[k] && s[k..][1..] == s[k + 1..];
  }

  method StaleKeys(s: Slots, now: nat) returns (keys: seq<string>)
    ensures keys == StaleOf(s, now)
  {
    keys := [];
    assert s[0..] == s;
    for k := 0 to |s|
      invariant keys + StaleOf(s[k..], now) == StaleOf(s, now)
    {
      hide StaleOf;
      StaleStep(s, k, now);
      if !IsFresh(s[k].value, now) {
        ConcatAssoc(keys, [s[k].key], StaleOf(s[k + 1..], now));
        keys := keys + [s[k].key];
      } else {
        NothingBefore(StaleOf(s[k + 1..], now));
      }
    }
    assert s[|s|..] == [];
    NothingAfter(keys);
  }

  lemma NothingBefore(a: seq<string>)
    ensures [] + a == a
  {
  }

  lemma NothingAfter(a: seq<string>)
    ensures a + [] == a
  {
  }

  /** Sweeping a list is sweeping its parts. */
  lemma {:induction false} StaleConcat(a: Slots, b: Slots, now: nat)
    ensures StaleOf(a + b, now) == StaleOf(a, now) + StaleOf(b, now)
  {
    if a == [] {
      assert a + b == b;
    } else {
      assert (a + b)[1..] == a[1..] + b && (a + b)[0] == a[0];
      StaleConcat(a[1..], b, now);
      var first := if IsFresh(a[0].value, now) then [] else [a[0].key];
      ConcatAssoc(first, StaleOf(a[1..], now), StaleOf(b, now));
    }
  }

  lemma {:induction false} FreshConcat(a: Slots, b: Slots, now: nat)
    ensures FreshOnly(a + b, now) == FreshOnly(a, now) + FreshOnly(b, now)
  {
    if a == [] {
      assert a + b == b;
    } else {
      assert (a + b)[1..] == a[1..] + b && (a + b)[0] == a[0];
      FreshConcat(a[1..], b, now);
      var first := if IsFresh(a[0].value, now) then [a[0]] else [];
      ConcatAssoc(first, FreshOnly(a[1..], now), FreshOnly(b, now));
    }
  }

  /** The first stale entry. */
  lemma {:induction false} StaleHead(s: Slots, now: nat) returns (i: nat)
    requires StaleOf(s, now) != []
    ensures i < |s| && !IsFresh(s[i].value, now) && s[i].key == StaleOf(s, now)[0]
    ensures StaleOf(s[..i], now) == []
  {
    if !IsFresh(s[0].value, now) {
      i := 0;
    } else {
      var k := StaleHead(s[1..], now);
      i := k + 1;
      assert s[..i][0] == s[0] && s[..i][1..] == s[1..][..k];
    }
  }

  lemma SweepCut(s: Slots, i: nat, now: nat)
    requires i < |s| && !IsFresh(s[i].value, now) && StaleOf(s[..i], now) == []
    ensures StaleOf(s, now) != [] && StaleOf(s[..i] + s[i + 1..], now) == StaleOf(s, now)[1..]
    ensures FreshOnly(s[..i] + s[i + 1..], now) == FreshOnly(s, now)
  {
    CutAt(s, i);
    StaleConcat(s[..i], s[i..], now);
    StaleConcat(s[..i], s[i + 1..], now);
    FreshConcat(s[..i], s[i..], now);
    FreshConcat(s[..i], s[i + 1..], now);
    assert s[i..][0] == s[i] && s[i..][1..] == s[i + 1..];
  }

  /** Dropping the first stale key. */
  lemma SweepOne(s: Slots, keys: seq<string>, now: nat)
    requires Distinct(s) && keys == StaleOf(s, now) && keys != []
    ensures Find(s, keys[0]).Some? && Find(s, keys[0]).value.size <= Total(s)
    ensures Total(Without(s, keys[0])) == Total(s) - Find(s, keys[0]).value.size
    ensures Distinct(Without(s, keys[0])) && |Without(s, keys[0])| == |s| - 1
    ensures StaleOf(Without(s, keys[0]), now) == keys[1..]
    ensures FreshOnly(Without(s, keys[0]), now) == FreshOnly(s, now)
  {
    var i := StaleHead(s, now);
    IndexAt(s, i);
    TotalWithout(s, keys[0]);
    WithoutKey(s, keys[0]);
    hide Total, Distinct, StaleOf, FreshOnly;
    SweepCut(s, i, now);
  }

  lemma {:induction false} SweepDone(s: Slots, now: nat)
    requires StaleOf(s, now) == []
    ensures FreshOnly(s, now) == s
  {
    if s != [] {
      SweepDone(s[1..], now);
    }
  }

  datatype Op = GetOp(key: string) | InsertOp(key: string, entry: Entry) | RemoveOp(key: string) | SweepOp(now: nat)

  /** What each operation does to the list; every method of the store promises its own. */
  ghost predicate Performs(s: Slots, op: Op, max: nat, s': Slots) {
    match op
    case GetOp(key) =>
      s' == if Find(s, key).Some? then Without(s, key) + [Slot(key, Find(s, key).value)] else s
    case InsertOp(key, entry) =>
      if entry.size > max then s' == s
      else exists n: nat :: Trimmed(Without(s, key) + [Slot(key, entry)], s', n, max)
    case RemoveOp(key) => s' == Without(s, key)
    case SweepOp(now) => s' == FreshOnly(s, now)
  }

  class Store {
    const maxBytes: nat
    var slots: Slots
    /** Running sum of every held entry's size. */
    var bytes: nat
    var evictions: nat
    var stores: nat

    ghost predicate Valid()
      reads this
    {
      Distinct(slots) && bytes == Total(slots) && bytes <= maxBytes
    }

    constructor (maxBytes: nat)
      ensures Valid() && this.maxBytes == maxBytes && slots == []
    {
      this.maxBytes := maxBytes;
      slots := [];
      bytes := 0;
      evictions := 0;
      stores := 0;
    }

    /** `get`: the entry, moved to the most recently used end. */
    method Get(key: string) returns (r: Option<Entry>)
      requires Valid()
      modifies this`slots
      ensures Valid() && r == Find(old(slots), key)
      ensures r.Some? ==> Slot(key, r.value) in old(slots)
      ensures r.None? ==> forall i :: 0 <= i < |old(slots)| ==> old(slots)[i].key != key
      ensures slots == if r.Some? then Without(old(slots), key) + [Slot(key, r.value)] else old(slots)
      ensures Performs(old(slots), GetOp(key), maxBytes, slots)
    {
      hide Total, Without;
      r := Find(slots, key);
      IndexFirst(slots, key);
      if r.Some? {
        TotalWithout(slots, key);
        WithoutKey(slots, key);
        TotalConcat(Without(slots, key), [Slot(key, r.value)]);
        TotalOne(Slot(key, r.value));
        DistinctSnoc(Without(slots, key), Slot(key, r.value));
        slots := Without(slots, key) + [Slot(key, r.value)];
      }
    }

    /** `remove`. */
    method Remove(key: string)
      requires Valid()
      modifies this`slots, this`bytes
      ensures Valid() && slots == Without(old(slots), key)
      ensures Performs(old(slots), RemoveOp(key), maxBytes, slots)
    {
      var old_ := Find(slots, key);
      TotalWithout(slots, key);
      WithoutKey(slots, key);
      hide Total;
      if old_.Some? {
        slots := Without(slots, key);
        bytes := SaturatingSub(bytes, old_.value.size);
      }
    }

    /**
     `insert`: an object over the whole budget is refused; otherwise it becomes the most
     recently used entry, survives, and exactly the shortest least-recently-used prefix
     that restores the budget is evicted.
     */
    method Insert(key: string, entry: Entry)
      requires Valid()
      modifies this`slots, this`bytes, this`evictions, this`stores
      ensures Valid()
      ensures entry.size > maxBytes ==> slots == old(slots) && evictions == old(evictions) && stores == old(stores)
      ensures entry.size <= maxBytes ==>
        && evictions >= old(evictions) && stores == old(stores) + 1
        && Trimmed(Without(old(slots), key) + [Slot(key, entry)], slots, evictions - old(evictions), maxBytes)
        && slots != [] && slots[|slots| - 1] == Slot(key, entry)
      ensures Performs(old(slots), InsertOp(key, entry), maxBytes, slots)
    {
      hide Total, Without, Distinct, Find, Trimmed;
      if entry.size > maxBytes {
        return;
      }
      Place(key, entry);
      var evicted := EvictToBudget();
      evictions := evictions + evicted;
      stores := stores + 1;
    }

    /** The first half of `insert`: the new entry in place of any older one, `bytes` adjusted. */
    method Place(key: string, entry: Entry)
      requires Valid()
      modifies this`slots, this`bytes
      ensures Distinct(slots) && bytes == Total(slots)
      ensures slots == Without(old(slots), key) + [Slot(key, entry)]
    {
      Placed(slots, key, entry);
      hide Total, Without, Distinct, Find;
      var replaced := Find(slots, key);
      slots := Without(slots, key) + [Slot(key, entry)];
      if replaced.Some? {
        bytes := SaturatingSub(bytes, replaced.value.size);
      }
      bytes := bytes + entry.size;
    }

    /** The eviction loop of `insert`: from the least recently used end, never the last entry. */
    method EvictToBudget() returns (n: nat)
      requires Distinct(slots) && bytes == Total(slots)
      requires slots != [] && slots[|slots| - 1].value.size <= maxBytes
      modifies this`slots, this`bytes
      ensures Valid() && Trimmed(old(slots), slots, n, maxBytes)
      ensures slots != [] && slots[|slots| - 1] == old(slots[|slots| - 1])
    {
      hide Total, Distinct;
      ghost var full := slots;
      assert full[0..] == full;
      n := 0;
      while bytes > maxBytes && |slots| > 1
        invariant n < |full| && slots == full[n..] && bytes == Total(slots)
        invariant n > 0 ==> Total(full[n - 1..]) > maxBytes
        decreases |slots|
      {
        DropFirst(full, n);
        var evicted := slots[0].value;
        slots := slots[1..];
        bytes := SaturatingSub(bytes, evicted.size);
        n := n + 1;
      }
      LastFits(full, n, full[|full| - 1].value.size, maxBytes);
    }

    /** `evict_expired`: everything no longer fresh goes, the rest keeps its order. */
    method EvictExpired(now: nat)
      requires Valid()
      modifies this`slots, this`bytes, this`evictions
      ensures Valid() && slots == FreshOnly(old(slots), now)
      ensures forall x :: x in slots <==>
        x in old(slots) && x.value.lifetime > 0 && now < x.value.storedAt + x.value.lifetime
      ensures Performs(old(slots), SweepOp(now), maxBytes, slots)
      ensures evictions == old(evictions) + |old(slots)| - |slots|
    {
      var stale: seq<string> := StaleKeys(slots, now);
      ghost var before := slots;
      hide Total, Without, Distinct, FreshOnly, StaleOf, Find;
      assert stale[0..] == stale;
      for k := 0 to |stale|
        invariant Distinct(slots) && bytes == Total(slots) <= maxBytes
        invariant StaleOf(slots, now) == stale[k..] && FreshOnly(slots, now) == FreshOnly(before, now)
        invariant evictions == old(evictions) + k && |slots| == |before| - k
      {
        SweepOne(slots, stale[k..], now);
        assert stale[k..][1..] == stale[k + 1..];
        var gone := Find(slots, stale[k]);
        if gone.Some? {
          slots := Without(slots, stale[k]);
          bytes := SaturatingSub(bytes, gone.value.size);
          evictions := evictions + 1;
        }
      }
      SweepDone(slots, now);
      FreshExact(before, now);
    }
  }

  // -- Runs ----------------------------------------------------------------------------

  /** The states of a run that starts from an empty store. */
  ghost predicate IsRun(ops: seq<Op>, states: seq<Slots>, max: nat) {
    && |states| == |ops| + 1 && states[0] == []
    && forall i :: 0 <= i < |ops| ==> Performs(states[i], ops[i], max, states[i + 1])
  }

  /** The response last accepted for a key and not removed since. */
  ghost function LastStored(ops: seq<Op>, key: string, max: nat): Option<Entry> {
    if ops == [] then None
    else
      var op, before := ops[|ops| - 1], LastStored(ops[..|ops| - 1], key, max);
      if op.InsertOp? && op.key == key && op.entry.size <= max then Some(op.entry)
      else if op.RemoveOp? && op.key == key then None
      else before
  }

  /** Every slot of `s` is one of `t`. */
  ghost predicate Within(s: Slots, t: Slots) {
    forall i :: 0 <= i < |s| ==> s[i] in t
  }

  lemma {:induction false} FreshWithin(s: Slots, now: nat)
    ensures Within(FreshOnly(s, now), s)
    ensures Distinct(s) ==> Distinct(FreshOnly(s, now))
  {
    if s != [] {
      FreshWithin(s[1..], now);
      var f, g := FreshOnly(s, now), FreshOnly(s[1..], now);
      forall i | 0 <= i < |f| ensures f[i] in s {
        if f == g {
          assert g[i] in s[1..];
        } else if i > 0 {
          assert f[i] == g[i - 1] && g[i - 1] in s[1..];
        }
      }
      if Distinct(s) && f != g {
        forall j | 0 <= j < |g| ensures g[j].key != s[0].key {
          assert g[j] in s[1..];
          var k :| 0 <= k < |s[1..]| && s[1..][k] == g[j];
          assert s[k + 1] == g[j];
        }
        DistinctCons(s[0], g);
        assert f == [s[0]] + g;
      }
    }
  }

  lemma DistinctCons(x: Slot<string, Entry>, s: Slots)
    requires Distinct(s) && forall j :: 0 <= j < |s| ==> s[j].key != x.key
    ensures Distinct([x] + s)
  {
  }

  /** A slot an operation may leave behind: the one it stores, or one it did not remove. */
  ghost predicate Admits(s: Slots, op: Op, max: nat, x: Slot<string, Entry>) {
    if op.InsertOp? && op.entry.size <= max && x.key == op.key then x == Slot(op.key, op.entry)
    else x in s && !(op.RemoveOp? && x.key == op.key)
  }

  lemma InsertAdmits(s: Slots, op: Op, max: nat, s': Slots, n: nat)
    requires Distinct(s) && op.InsertOp? && op.entry.size <= max
    requires Trimmed(Without(s, op.key) + [Slot(op.key, op.entry)], s', n, max)
    ensures Distinct(s') && forall i :: 0 <= i < |s'| ==> Admits(s, op, max, s'[i])
  {
    WithoutKey(s, op.key);
    WithoutIn(s, op.key);
    hide Total, Without;
    var full := Without(s, op.key) + [Slot(op.key, op.entry)];
    assert forall i :: 0 <= i < |s'| ==> s'[i] == full[n + i];
  }

  lemma PerformsAdmits(s: Slots, op: Op, max: nat, s': Slots)
    requires Distinct(s) && Performs(s, op, max, s')
    ensures Distinct(s') && forall i :: 0 <= i < |s'| ==> Admits(s, op, max, s'[i])
  {
    match op {
      case GetOp(key) =>
        WithoutKey(s, key);
        WithoutIn(s, key);
        hide Without;
        if Find(s, key).Some? {
          assert Slot(key, Find(s, key).value) in s;
        }
      case InsertOp(key, entry) =>
        if entry.size <= max {
          var n: nat :| Trimmed(Without(s, key) + [Slot(key, entry)], s', n, max);
          InsertAdmits(s, op, max, s', n);
        }
      case RemoveOp(key) =>
        WithoutKey(s, key);
        WithoutIn(s, key);
        hide Without;
      case SweepOp(now) => FreshWithin(s, now);
    }
  }

  /**
   Over every run, a held entry is the response last accepted for its key and not removed
   since: hits are never out of date with respect to stores and removals.
   */
  lemma {:induction false} Coherence(ops: seq<Op>, states: seq<Slots>, max: nat)
    requires IsRun(ops, states, max)
    ensures Distinct(states[|ops|])
    ensures forall i :: 0 <= i < |states[|ops|]| ==>
      LastStored(ops, states[|ops|][i].key, max) == Some(states[|ops|][i].value)
    decreases |ops|
  {
    hide Performs;
    if ops != [] {
      var n := |ops| - 1;
      var s, s' := states[n], states[n + 1];
      Coherence(ops[..n], states[..n + 1], max);
      PerformsAdmits(s, ops[n], max, s');
      forall i | 0 <= i < |s'| ensures LastStored(ops, s'[i].key, max) == Some(s'[i].value) {
        assert Admits(s, ops[n], max, s'[i]);
        if !(ops[n].InsertOp? && ops[n].entry.size <= max && s'[i].key == ops[n].key) {
          var k :| 0 <= k < |s| && s[k] == s'[i];
        }
      }
    }
  }

  /** A hit is therefore the response last accepted for that key and not removed since. */
  lemma HitIsLastStored(ops: seq<Op>, states: seq<Slots>, max: nat, key: string)
    requires IsRun(ops, states, max) && Find(states[|ops|], key).Some?
    ensures LastStored(ops, key, max) == Find(states[|ops|], key)
  {
    hide IsRun;
    Coherence(ops, states, max);
  }

  /** A response accepted and not removed is missed only because it was evicted or swept. */
  lemma StoredIsFound(s: Slots, key: string, entry: Entry, max: nat, s': Slots)
    requires Distinct(s) && entry.size <= max && Performs(s, InsertOp(key, entry), max, s')
    ensures Find(s', key) == Some(entry)
  {
    var n: nat :| Trimmed(Without(s, key) + [Slot(key, entry)], s', n, max);
    var full := Without(s, key) + [Slot(key, entry)];
    Survives(full, s', n, max);
    WithoutKey(s, key);
    DistinctSnoc(Without(s, key), Slot(key, entry));
    hide Without, Trimmed;
    assert s'[|s'| - 1] == Slot(key, entry);
    DistinctTail(full, n);
    IndexAt(s', |s'| - 1);
  }

  lemma DistinctTail(s: Slots, n: nat)
    requires Distinct(s) && n <= |s|
    ensures Distinct(s[n..])
  {
  }

  /** The newest entry fits, so the shortest prefix that restores the budget ends before it. */
  lemma Survives(full: Slots, rest: Slots, n: nat, max: nat)
    requires full != [] && full[|full| - 1].value.size <= max && Trimmed(full, rest, n, max)
    ensures n < |full| && rest == full[n..] && rest[|rest| - 1] == full[|full| - 1]
  {
    assert full[|full| - 1..] == [full[|full| - 1]];
    TotalOne(full[|full| - 1]);
  }

  // -- Recency ---------------------------------------------------------------------------------

  /** An operation that makes a key the most recently used. */
  predicate Uses(op: Op, key: string, max: nat) {
    (op.GetOp? && op.key == key) || (op.InsertOp? && op.key == key && op.entry.size <= max)
  }

  /** When a key was last stored or looked up, counting from 1; 0 if never. */
  ghost function LastUse(ops: seq<Op>, key: string, max: nat): nat {
    if ops == [] then 0
    else if Uses(ops[|ops| - 1], key, max) then |ops|
    else LastUse(ops[..|ops| - 1], key, max)
  }

  /** Keys in the order of a clock. */
  ghost predicate Ordered(s: Slots, clock: string -> nat) {
    forall i, j :: 0 <= i < j < |s| ==> clock(s[i].key) < clock(s[j].key)
  }

  /** `s` is what is left of `t` after dropping some slots. */
  ghost predicate IsThinned(s: Slots, t: Slots) {
    forall clock: string -> nat :: Ordered(t, clock) ==> Ordered(s, clock)
  }

  lemma DroppedThinned(s: Slots, i: nat)
    requires i < |s|
    ensures IsThinned(s[..i] + s[i + 1..], s)
  {
    Dropped(s, i);
    var r := s[..i] + s[i + 1..];
    forall clock: string -> nat | Ordered(s, clock) ensures Ordered(r, clock) {
      forall j, k | 0 <= j < k < |r| ensures clock(r[j].key) < clock(r[k].key) {
        var j', k' := if j < i then j else j + 1, if k < i then k else k + 1;
        assert r[j] == s[j'] && r[k] == s[k'];
      }
    }
  }

  lemma WithoutThinned(s: Slots, key: string)
    ensures IsThinned(Without(s, key), s)
  {
    hide IsThinned, IndexOf;
    var i := IndexOf(s, key);
    if i < |s| {
      DroppedThinned(s, i);
    } else {
      NothingDropped(s);
    }
  }

  lemma NothingDropped(s: Slots)
    ensures IsThinned(s, s)
  {
  }

  lemma {:induction false} FreshThinned(s: Slots, now: nat)
    ensures IsThinned(FreshOnly(s, now), s)
  {
    if s != [] {
      FreshThinned(s[1..], now);
      FreshWithin(s[1..], now);
      var f, g := FreshOnly(s, now), FreshOnly(s[1..], now);
      forall clock: string -> nat | Ordered(s, clock) ensures Ordered(f, clock) {
        assert Ordered(s[1..], clock);
        assert Ordered(g, clock);
        if f != g {
          forall j | 0 <= j < |g| ensures clock(s[0].key) < clock(g[j].key) {
            assert g[j] in s[1..];
            var k :| 0 <= k < |s[1..]| && s[1..][k] == g[j];
            assert s[k + 1] == g[j];
          }
          assert f == [s[0]] + g;
        }
      }
    }
  }

  lemma SnocOrdered(s: Slots, x: Slot<string, Entry>, clock: string -> nat)
    requires Ordered(s, clock) && forall i :: 0 <= i < |s| ==> clock(s[i].key) < clock(x.key)
    ensures Ordered(s + [x], clock)
  {
  }

  lemma SuffixOrdered(s: Slots, n: nat, clock: string -> nat)
    requires Ordered(s, clock) && n <= |s|
    ensures Ordered(s[n..], clock)
  {
  }

  lemma {:induction false} UseBounded(ops: seq<Op>, key: string, max: nat)
    ensures LastUse(ops, key, max) <= |ops|
    decreases |ops|
  {
    if ops != [] {
      UseBounded(ops[..|ops| - 1], key, max);
    }
  }

  /** Ordering by one clock carries over to another that agrees on every key held. */
  lemma SameOrder(s: Slots, a: string -> nat, b: string -> nat)
    requires Ordered(s, a) && forall i :: 0 <= i < |s| ==> a(s[i].key) == b(s[i].key)
    ensures Ordered(s, b)
  {
  }

  /** One operation keeps the list in order of last use. */
  lemma StepOrdered(s: Slots, op: Op, max: nat, s': Slots, before: string -> nat, after: string -> nat, now: nat)
    requires Distinct(s) && Performs(s, op, max, s') && Ordered(s, before)
    requires forall k :: before(k) < now
    requires forall k :: after(k) == if Uses(op, k, max) then now else before(k)
    ensures Ordered(s', after)
  {
    match op {
      case GetOp(key) =>
        IndexFirst(s, key);
        if Find(s, key).Some? {
          TouchOrdered(s, key, Find(s, key).value, before, after, now);
        } else {
          SameOrder(s, before, after);
        }
      case InsertOp(key, entry) =>
        if entry.size <= max {
          var n: nat :| Trimmed(Without(s, key) + [Slot(key, entry)], s', n, max);
          TouchOrdered(s, key, entry, before, after, now);
          SuffixOrdered(Without(s, key) + [Slot(key, entry)], n, after);
        } else {
          SameOrder(s, before, after);
        }
      case RemoveOp(key) =>
        WithoutThinned(s, key);
        SameOrder(s', before, after);
      case SweepOp(now_) =>
        FreshThinned(s, now_);
        SameOrder(s', before, after);
    }
  }

  lemma TouchOrdered(s: Slots, key: string, entry: Entry, before: string -> nat, after: string -> nat, now: nat)
    requires Distinct(s) && Ordered(s, before) && after(key) == now
    requires forall k :: before(k) < now && (k != key ==> after(k) == before(k))
    ensures Ordered(Without(s, key) + [Slot(key, entry)], after)
  {
    WithoutThinned(s, key);
    WithoutKey(s, key);
    hide Without;
    var w := Without(s, key);
    assert Ordered(w, before);
    assert forall i :: 0 <= i < |w| ==> w[i].key != key;
    SameOrder(w, before, after);
    SnocOrdered(w, Slot(key, entry), after);
  }

  /** Over every run the list is in order of last use, so what eviction takes was used longest ago. */
  lemma {:induction false} RecencyOrder(ops: seq<Op>, states: seq<Slots>, max: nat)
    requires IsRun(ops, states, max)
    ensures Ordered(states[|ops|], k => LastUse(ops, k, max))
    decreases |ops|
  {
    hide Performs, Ordered;
    if ops != [] {
      var n := |ops| - 1;
      RecencyOrder(ops[..n], states[..n + 1], max);
      Coherence(ops[..n], states[..n + 1], max);
      var before, after := (k: string) => LastUse(ops[..n], k, max), (k: string) => LastUse(ops, k, max);
      forall k ensures before(k) < n + 1 {
        UseBounded(ops[..n], k, max);
      }
      StepOrdered(states[n], ops[n], max, states[n + 1], before, after, n + 1);
    } else {
      NothingOrdered(k => LastUse(ops, k, max));
    }
  }

  lemma NothingOrdered(clock: string -> nat)
    ensures Ordered([], clock)
  {
  }
}
