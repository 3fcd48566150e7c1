/**
 Request-count archives (src/metrics.rs): four ring buffers at nested
 resolutions.  Every tick writes one fine slot; each coarser archive takes the
 sum of the last slots of the finer one whenever enough have been written.
 */
module Archives {
  import opened Arithmetic

  const FINE_SLOTS: nat := 720
  const MINUTE_SLOTS: nat := 1440
  const HOURLY_SLOTS: nat := 720
  const DAILY_SLOTS: nat := 365

  const MINUTE_RATIO: nat := 12
  const HOURLY_RATIO: nat := 60
  const DAILY_RATIO: nat := 24

  const U32: nat := 0x1_0000_0000

  /** The value written `age` slots ago; slots never written read as zero. */
  function Aged(log: seq<nat>, age: nat): nat {
    if age < |log| then log[|log| - 1 - age] else 0
  }

  /** Sum of the `n` most recent values. */
  function Recent(log: seq<nat>, n: nat): nat {
    if n == 0 then 0 else Recent(log, n - 1) + Aged(log, n - 1)
  }

  /** Index of the slot written `age` slots before `head`. */
  function Back(head: nat, age: nat, cap: nat): (i: int)
    requires head < cap && age < cap
  {
    if age < head then head - 1 - age else head - 1 - age + cap
  }

  /** One archive's `req` column. */
  class Archive {
    const cap: nat
    const req: array<nat>
    /** Ring-buffer write index. */
    var head: nat
    /** Slots ever written; drives consolidation. */
    var written: nat
    /** Every value ever written, oldest first. */
    ghost var log: seq<nat>

    ghost predicate Valid()
      reads this, req
    {
      && 0 < cap == req.Length && head < cap && written == |log|
      && (forall age :: 0 <= age < cap ==> 0 <= Back(head, age, cap) < cap)
      && (forall age :: 0 <= age < cap ==> req[Back(head, age, cap)] == Aged(log, age))
    }

    constructor (cap: nat)
      requires cap > 0
      ensures Valid() && this.cap == cap && log == [] && fresh(req)
    {
      this.cap := cap;
      req := new nat[cap](_ => 0);
      head := 0;
      written := 0;
      log := [];
    }

    /** Overwrite the oldest slot. */
    method Push(v: nat)
      requires Valid()
      modifies this`head, this`written, this`log, req
      ensures Valid() && log == old(log) + [v] && written == |log|
    {
      ghost var before := req[..];
      ghost var h := head;
      req[head] := v;
      ModOnce(head + 1, cap);
      head := (head + 1) % cap;
      written := written + 1;
      log := log + [v];
      forall age | 0 <= age < cap ensures req[Back(head, age, cap)] == Aged(log, age) {
        if age == 0 {
          assert Back(head, age, cap) == h;
        } else {
          assert Back(head, age, cap) == Back(h, age - 1, cap) != h;
          assert before[Back(h, age - 1, cap)] == Aged(old(log), age - 1);
        }
      }
    }

    /** Sum of the last `n` slots, oldest first, as the consolidators read them. */
    method SumLast(n: nat) returns (sum: nat)
      requires Valid() && n <= cap
      ensures sum == Recent(log, n)
    {
      sum := 0;
      for i := 0 to n
        invariant sum + Recent(log, n - i) == Recent(log, n)
      {
        ModOnce(head + cap - n + i, cap);
        var idx := (head + cap - n + i) % cap;
        assert idx == Back(head, n - 1 - i, cap);
        sum := sum + req[idx];
      }
    }

    /** `window_req`: the `n` most recently completed slots, newest first. */
    method WindowReq(n: nat) returns (sum: nat)
      requires Valid()
      ensures sum == Recent(log, if n < cap then n else cap)
    {
      var m := if n < cap then n else cap;
      sum := 0;
      for i := 0 to m
        invariant sum == Recent(log, i)
      {
        ModOnce(head + cap - 1 - i, cap);
        var idx := (head + cap - 1 - i) % cap;
        assert idx == Back(head, i, cap);
        sum := sum + req[idx];
      }
    }
  }
}
