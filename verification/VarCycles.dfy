/**
 Rejection of variable dependency cycles (src/vars.rs `deps_of`,
 `check_cycles`, `cycle_dfs`): a three-colour depth-first search.
 */
module VarCycles {
  import opened Common
  import opened Digraph
  import opened Templates
  import opened Variables

  /** Every reference in a body resolves to one of `n` slots. */
  ghost predicate BodyInScope(body: VarBody, n: nat) {
    InScope(AllParts(body), n)
  }

  ghost predicate AllInScope(bodies: seq<VarBody>) {
    forall i :: 0 <= i < |bodies| ==> BodyInScope(bodies[i], |bodies|)
  }

  lemma RefersInScope(t: Template, n: nat, id: nat)
    requires InScope(t, n) && RefersTo(t, id)
    ensures id < n
  {
  }

  /** Merge one template's references into a duplicate-free list. */
  method AddRefs(ids: seq<nat>, t: Template) returns (r: seq<nat>)
    requires NoDup(ids)
    ensures NoDup(r)
    ensures forall id :: id in r <==> id in ids || RefersTo(t, id)
  {
    r := ids;
    var refs := Refs(t);
    for k := 0 to |refs.vars|
      invariant NoDup(r)
      invariant forall id :: id in r <==> id in ids || id in refs.vars[..k]
    {
      if refs.vars[k] !in r {
        r := r + [refs.vars[k]];
      }
      TakeSnoc(refs.vars, k);
    }
    assert refs.vars[..|refs.vars|] == refs.vars;
  }

  /** `deps_of`: exactly the variables a body refers to, each once. */
  method DepsOf(body: VarBody) returns (ids: seq<nat>)
    ensures NoDup(ids)
    ensures forall id :: id in ids <==> id in Deps(body)
  {
    hide NoDup, RefersTo;
    DepsRefers(body);
    match body {
      case Const(t) =>
        ids := AddRefs([], t) by { assert NoDup<nat>([]) by { EmptyNoDup<nat>(); } }
      case Match(input, arms) =>
        ids := AddRefs([], input) by { assert NoDup<nat>([]) by { EmptyNoDup<nat>(); } }
        forall id ensures RefersTo(AllParts(body), id) <==> RefersTo(input, id) || RefersTo(ArmParts(arms), id) {
          RefersConcat(input, ArmParts(arms), id);
        }
        for k := 0 to |arms|
          invariant NoDup(ids)
          invariant forall id :: id in ids || RefersTo(ArmParts(arms[k..]), id) <==> RefersTo(AllParts(body), id)
        {
          assert arms[k..][0] == arms[k] && arms[k..][1..] == arms[k + 1..];
          forall id ensures RefersTo(ArmParts(arms[k..]), id)
                       <==> RefersTo(arms[k].value, id) || RefersTo(ArmParts(arms[k + 1..]), id) {
            RefersConcat(arms[k].value, ArmParts(arms[k + 1..]), id);
          }
          ids := AddRefs(ids, arms[k].value);
        }
        assert ArmParts(arms[|arms|..]) == [];
        forall id ensures !RefersTo([], id) {
          NothingRefers(id);
        }
    }
  }

  lemma EmptyNoDup<T>()
    ensures NoDup<T>([])
  {
  }

  lemma NothingRefers(id: nat)
    ensures !RefersTo([], id)
  {
  }

  /**
   What the search keeps: 1 marks exactly the current path, 2 exactly the
   finished variables, and whatever is finished is ranked above all it reaches.
   */
  ghost predicate Colouring(bodies: seq<VarBody>, colour: seq<nat>, stack: seq<nat>, done: map<nat, nat>) {
    && |colour| == |bodies|
    && (forall i :: 0 <= i < |bodies| ==> colour[i] <= 2)
    && (forall i :: 0 <= i < |bodies| ==> (colour[i] == 1 <==> i in stack))
    && (forall i :: 0 <= i < |bodies| ==> (colour[i] == 2 <==> i in done))
    && (stack == [] || IsPath<nat>(DepGraph(bodies), stack))
    && NoDup(stack) && (forall i :: i in stack ==> i < |bodies|)
    && PartialRank<nat>(DepGraph(bodies), done)
  }

  lemma EnterColouring(bodies: seq<VarBody>, colour: seq<nat>, stack: seq<nat>, done: map<nat, nat>, i: nat)
    requires Colouring(bodies, colour, stack, done) && i < |bodies| && colour[i] == 0
    requires stack == [] || Edge<nat>(DepGraph(bodies), stack[|stack| - 1], i)
    ensures Colouring(bodies, colour[i := 1], stack + [i], done)
  {
    hide IsPath, PartialRank, Edge;
    PathSnoc<nat>(DepGraph(bodies), stack, i);
  }

  lemma LeaveColouring(bodies: seq<VarBody>, colour: seq<nat>, stack: seq<nat>, done: map<nat, nat>, i: nat)
    requires i < |bodies| && Colouring(bodies, colour, stack + [i], done)
    requires forall d :: d in Deps(bodies[i]) ==> d < |bodies| && colour[d] == 2
    ensures Colouring(bodies, colour[i := 2], stack, done[i := |done|])
  {
    hide Deps, PartialRank;
    var full := stack + [i];
    assert full[|stack|] == i;
    RankOneMore<nat>(DepGraph(bodies), done, i);
    forall j, k | 0 <= j < k < |stack| ensures stack[j] != stack[k] {
      assert full[j] != full[k];
    }
    forall k | 0 < k < |stack| ensures Edge<nat>(DepGraph(bodies), stack[k - 1], stack[k]) {
      assert Edge<nat>(DepGraph(bodies), full[k - 1], full[k]);
    }
    forall j | 0 <= j < |bodies| ensures j in stack <==> j in full && j != i {
      if j in stack {
        var k :| 0 <= k < |stack| && stack[k] == j;
        assert full[k] == j && full[k] != full[|stack|];
      }
    }
    assert forall j :: j in stack ==> j in full;
  }

  /** States move from unvisited to done only, and `i` is done. */
  ghost predicate Advanced(before: seq<nat>, now: seq<nat>, i: nat) {
    && |now| == |before| && i < |now| && now[i] == 2
    && forall j :: 0 <= j < |now| ==> now[j] == before[j] || (before[j] == 0 && now[j] == 2)
  }

  lemma MovedAdvanced(before: seq<nat>, now: seq<nat>, after: seq<nat>, i: nat, d: nat)
    requires Moved(before, now, i) && Advanced(now, after, d)
    ensures Moved(before, after, i)
    ensures forall j :: 0 <= j < |now| && now[j] == 2 ==> after[j] == 2
  {
  }

  /** From the moment `i` is entered: `i` is on the path, others at most finished. */
  ghost predicate Moved(before: seq<nat>, now: seq<nat>, i: nat) {
    && |now| == |before| && i < |now| && now[i] == 1
    && forall j :: 0 <= j < |now| && j != i ==> now[j] == before[j] || (before[j] == 0 && now[j] == 2)
  }

  ghost function Zeros(s: seq<nat>): set<nat> {
    set i: nat | i < |s| && s[i] == 0
  }

  lemma UnvisitedShrinks(before: seq<nat>, now: seq<nat>, i: nat)
    requires Moved(before, now, i) && before[i] == 0
    ensures Zeros(now) < Zeros(before)
  {
    assert i in Zeros(before) && i !in Zeros(now);
  }

  lemma DepInScope(bodies: seq<VarBody>, i: nat, d: nat)
    requires AllInScope(bodies) && i < |bodies| && d in Deps(bodies[i])
    ensures d < |bodies| && Edge<nat>(DepGraph(bodies), i, d)
  {
    assert BodyInScope(bodies[i], |bodies|);
  }

  /** Where a path holds `x`. */
  /** A variable met again while on the path closes it. */
  lemma OnPath(bodies: seq<VarBody>, colour: seq<nat>, stack: seq<nat>, done: map<nat, nat>, i: nat)
    requires Colouring(bodies, colour, stack, done) && i < |bodies| && colour[i] == 1
    ensures i in stack && IsPath<nat>(DepGraph(bodies), stack)
  {
    hide IsPath, PartialRank;
  }

  lemma ColoursBounded(bodies: seq<VarBody>, colour: seq<nat>, stack: seq<nat>, done: map<nat, nat>, i: nat)
    requires Colouring(bodies, colour, stack, done) && i < |bodies|
    ensures |colour| == |bodies| && colour[i] <= 2
  {
    hide IsPath, PartialRank;
  }

  lemma Unmoved(before: seq<nat>, i: nat)
    requires i < |before| && before[i] == 2
    ensures Advanced(before, before, i)
  {
  }

  lemma Entered(before: seq<nat>, i: nat)
    requires i < |before|
    ensures Moved(before, before[i := 1], i)
  {
  }

  lemma Left(before: seq<nat>, now: seq<nat>, i: nat)
    requires Moved(before, now, i) && before[i] == 0
    ensures Advanced(before, now[i := 2], i)
  {
  }

  class CycleSearch {
    const bodies: seq<VarBody>
    /** 0 = unvisited, 1 = on the current path, 2 = done. */
    const state: array<nat>
    /** The current path, outermost first. */
    var stack: seq<nat>
    /** Order in which variables were finished. */
    ghost var done: map<nat, nat>

    ghost predicate Valid()
      reads this, state
    {
      AllInScope(bodies) && state.Length == |bodies| && Colouring(bodies, state[..], stack, done)
    }

    constructor (bodies: seq<VarBody>)
      requires AllInScope(bodies)
      ensures Valid() && this.bodies == bodies && stack == [] && fresh(state)
    {
      this.bodies := bodies;
      state := new nat[|bodies|](_ => 0);
      stack := [];
      done := map[];
    }

    /** `cycle_dfs`: on failure, the closed path found. */
    method Visit(i: nat) returns (chain: Option<seq<nat>>)
      requires Valid() && i < |bodies|
      requires stack == [] || Edge<nat>(DepGraph(bodies), stack[|stack| - 1], i)
      modifies this`stack, this`done, state
      ensures chain.None? ==> Valid() && stack == old(stack) && Advanced(old(state[..]), state[..], i)
      ensures chain.Some? ==> IsCycle<nat>(DepGraph(bodies), chain.value)
      decreases Zeros(state[..])
    {
      hide AllInScope, IsPath, Edge, Deps, IsCycle, Colouring, Advanced, Moved, Zeros;
      ghost var before, path, finished := state[..], stack, done;
      assert state.Length == |bodies| && |before| == |bodies| && before[i] == state[i];
      if state[i] == 2 {
        Unmoved(before, i);
        return None;
      }
      if state[i] == 1 {
        OnPath(bodies, before, stack, done, i);
        var start := Position(stack, i);
        ClosesCycle<nat>(DepGraph(bodies), stack, start, i);
        return Some(stack[start..] + [i]);
      }
      assert before[i] <= 2 by { ColoursBounded(bodies, before, path, finished, i); }
      EnterColouring(bodies, before, path, finished, i);
      Entered(before, i);
      state[i] := 1;
      stack := stack + [i];
      assert state[..] == before[i := 1];
      chain := VisitDeps(i, before);
      if chain.Some? {
        return;
      }
      LeaveColouring(bodies, state[..], path, done, i);
      Left(before, state[..], i);
      stack := stack[..|stack| - 1];
      ghost var entered := state[..];
      state[i] := 2;
      done := done[i := |done|];
      assert state[..] == entered[i := 2];
      assert stack == path;
    }

    /** The references of `i`, which has just been put on the path. */
    method VisitDeps(i: nat, ghost before: seq<nat>) returns (chain: Option<seq<nat>>)
      requires Valid() && i < |bodies| && stack != [] && stack[|stack| - 1] == i
      requires Moved(before, state[..], i) && before[i] == 0
      modifies this`stack, this`done, state
      ensures chain.None? ==> Valid() && stack == old(stack) && Moved(before, state[..], i)
      ensures chain.None? ==> forall d :: d in Deps(bodies[i]) ==> d < |bodies| && state[..][d] == 2
      ensures chain.Some? ==> IsCycle<nat>(DepGraph(bodies), chain.value)
      decreases Zeros(before), 0
    {
      hide Edge, Deps, IsCycle, Colouring;
      var ds := DepsOf(bodies[i]);
      for k := 0 to |ds|
        invariant Valid() && stack == old(stack) && state.Length == |bodies|
        invariant Moved(before, state[..], i)
        invariant forall j :: 0 <= j < k ==> ds[j] < |bodies| && state[..][ds[j]] == 2
      {
        DepInScope(bodies, i, ds[k]);
        ghost var now := state[..];
        UnvisitedShrinks(before, now, i);
        chain := Visit(ds[k]);
        if chain.Some? {
          return;
        }
        MovedAdvanced(before, now, state[..], i, ds[k]);
      }
      return None;
    }
  }

  method Position(s: seq<nat>, x: nat) returns (k: nat)
    requires x in s
    ensures k < |s| && s[k] == x
    ensures forall j :: 0 <= j < k ==> s[j] != x
  {
    k := 0;
    while s[k] != x
      invariant k < |s| && x !in s[..k]
      invariant x in s
      decreases |s| - k
    {
      k := k + 1;
    }
  }

  /**
   `check_cycles`: accepted exactly when no variable depends on itself, and a
   rejection names a closed chain of references.
   */
  method CheckCycles(bodies: seq<VarBody>) returns (chain: Option<seq<nat>>)
    requires AllInScope(bodies)
    ensures chain.None? <==> NoCycles(bodies)
    ensures chain.Some? ==> IsCycle<nat>(DepGraph(bodies), chain.value)
  {
    hide Colouring, IsCycle, AllInScope, NoCycles;
    var search := new CycleSearch(bodies);
    for i := 0 to |bodies|
      invariant fresh(search) && fresh(search.state) && search.bodies == bodies
      invariant search.Valid() && search.stack == []
      invariant forall j :: 0 <= j < i ==> search.state[..][j] == 2
    {
      ghost var before := search.state[..];
      chain := search.Visit(i);
      if chain.Some? {
        CycleRejected(bodies, chain.value);
        return;
      }
      assert forall j :: 0 <= j < i ==> before[j] == 2;
    }
    AllDone(bodies, search.state[..], search.stack, search.done);
    return None;
  }

  lemma CycleRejected(bodies: seq<VarBody>, p: seq<nat>)
    requires IsCycle<nat>(DepGraph(bodies), p)
    ensures !NoCycles(bodies)
  {
  }

  lemma AllDone(bodies: seq<VarBody>, colour: seq<nat>, stack: seq<nat>, done: map<nat, nat>)
    requires Colouring(bodies, colour, stack, done)
    requires forall j :: 0 <= j < |bodies| ==> colour[j] == 2
    ensures NoCycles(bodies)
  {
    assert RankedBy<nat>(DepGraph(bodies), done);
    RankedIsAcyclic<nat>(DepGraph(bodies), done);
  }
}
