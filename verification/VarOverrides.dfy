/**
 One request, two views (src/handler/static_files.rs `try_files_resolve`): a handler renders
 against a copy of the context with another path, while both views share the memoised slots of
 the same variable scope.  What the second view then reads, and when that is right.
 */
module VarOverrides {
  import opened Common
  import opened Digraph
  import opened Templates
  import opened Variables
  import opened FrozenSlots
  import opened VarScopes

  ghost predicate MentionsPath(t: Template) {
    exists k :: 0 <= k < |t| && t[k].Builtin? && t[k].v.Path?
  }

  /** Some variable reachable from `i` mentions `{path}`. */
  ghost predicate DependsOnPath(bodies: seq<VarBody>, i: nat) {
    exists j: nat :: Reaches<nat>(DepGraph(bodies), i, j) && j < |bodies| && MentionsPath(AllParts(bodies[j]))
  }

  lemma DependsUp(bodies: seq<VarBody>, i: nat)
    requires i < |bodies| && !DependsOnPath(bodies, i)
    ensures !MentionsPath(AllParts(bodies[i]))
    ensures forall d :: d in Deps(bodies[i]) ==> !DependsOnPath(bodies, d)
  {
    hide Reaches, Deps, MentionsPath;
    var g := DepGraph(bodies);
    ReachesSelf<nat>(g, i);
    forall d | d in Deps(bodies[i]) ensures !DependsOnPath(bodies, d) {
      forall j: nat | Reaches<nat>(g, d, j) ensures Reaches<nat>(g, i, j) {
        assert Edge<nat>(g, i, d);
        ReachesStep<nat>(g, i, d, j);
      }
    }
  }

  lemma PathFreeParts(t: Template, ctx: RequestContext, p: string, env1: seq<string>, env2: seq<string>)
    requires !MentionsPath(t)
    requires forall v :: RefersTo(t, v) ==> Lookup(env1, v) == Lookup(env2, v)
    ensures PartsAlike(t, ctx, env1, t, ctx.(path := p), env2)
  {
    hide Lookup, Fill;
    forall k, caps | 0 <= k < |t|
      ensures PartText(t[k], ctx, caps, env1) == PartText(t[k], ctx.(path := p), caps, env2)
    {
      assert t[k].Custom? ==> RefersTo(t, t[k].id);
    }
  }

  /** A variable that does not depend on the path has one value in both views. */
  lemma {:induction false} PathFreeValue(lib: Lib, bodies: seq<VarBody>, ctx: RequestContext, p: string, id: nat)
    requires NoCycles(bodies) && id < |bodies| && !DependsOnPath(bodies, id)
    ensures Value(lib, bodies, ctx.(path := p), id) == Value(lib, bodies, ctx, id)
    decreases Level(bodies, id)
  {
    hide NoCycles, DependsOnPath, MentionsPath, Value, BodyText, PartsAlike, BodiesAlike, RefersTo, Deps, Level;
    var other := ctx.(path := p);
    var va, vb := Values(lib, bodies, ctx), Values(lib, bodies, other);
    var body := bodies[id];
    DependsUp(bodies, id);
    DepsRefers(body);
    forall v: nat | RefersTo(AllParts(body), v) ensures Lookup(va, v) == Lookup(vb, v) {
      if v < |bodies| {
        LevelDescends(bodies, id, v);
        PathFreeValue(lib, bodies, ctx, p, v);
      }
    }
    PathFreeParts(AllParts(body), ctx, p, va, vb);
    SameBodyAlike(body, ctx, va, other, vb);
    AlikeText(lib, body, ctx, va, body, other, vb);
    ValueUnfold(lib, bodies, ctx, id);
    ValueUnfold(lib, bodies, other, id);
  }

  /**
   After one view has filled some slots truthfully, the other view reads every variable right
   exactly when each of the filled ones has the same value in both.
   */
  lemma SharedSlotsRightIff(scope: VarScope, ctx: RequestContext, p: string)
    requires scope.Valid() && scope.Truthful(ctx)
    ensures var other := ctx.(path := p);
      scope.Meaning(other) == Values(scope.lib, scope.Program(), other) <==>
        forall i :: 0 <= i < |scope.slots| && scope.slots[i].Some? ==>
          Value(scope.lib, scope.Program(), other, i) == Value(scope.lib, scope.Program(), ctx, i)
  {
    hide NoCycles, Value, Values, FrozenSlots.Meaning;
    TruthfulIff(scope.lib, scope.Program(), scope.slots, ctx.(path := p));
  }

  /** In particular while no filled slot belongs to a variable that depends on the path. */
  lemma SharedSlotsHold(scope: VarScope, ctx: RequestContext, p: string)
    requires scope.Valid() && scope.Truthful(ctx)
    requires forall i :: 0 <= i < |scope.slots| && scope.slots[i].Some? ==> !DependsOnPath(scope.Program(), i)
    ensures scope.Truthful(ctx.(path := p))
    ensures scope.Meaning(ctx.(path := p)) == Values(scope.lib, scope.Program(), ctx.(path := p))
  {
    hide NoCycles, DependsOnPath, Value, Values, FrozenSlots.Meaning;
    forall i | 0 <= i < |scope.slots| && scope.slots[i].Some?
      ensures scope.slots[i].value == Value(scope.lib, scope.Program(), ctx.(path := p), i)
    {
      PathFreeValue(scope.lib, scope.Program(), ctx, p, i);
    }
    TruthfulIff(scope.lib, scope.Program(), scope.slots, ctx.(path := p));
  }

  /** The first view wins: whatever it read, any later view reads again, for every table and context. */
  method ReadTwice(scope: VarScope, id: nat, ctx: RequestContext, other: RequestContext)
    returns (first: string, second: string)
    requires scope.Valid()
    modifies scope`slots
    ensures scope.Valid() && first == Lookup(old(scope.Meaning(ctx)), id)
    ensures id < |scope.slots| ==> second == first
  {
    first := scope.Get(id, ctx);
    second := scope.Get(id, other);
  }

  const PATH_VARIABLE: VarBody := Const([Builtin(Path, None)])

  lemma PathText(lib: Lib, bodies: seq<VarBody>, ctx: RequestContext)
    requires NoCycles(bodies) && bodies == [PATH_VARIABLE]
    ensures Value(lib, bodies, ctx, 0) == ctx.path
  {
    hide Value, NoCycles;
    ValueUnfold(lib, bodies, ctx, 0);
    var t: Template, env := [Builtin(Path, None)], Values(lib, bodies, ctx);
    assert t[..0] == [] && Render(t[..0], ctx, None, env) == "";
    assert Render(t, ctx, None, env) == "" + PartText(t[0], ctx, None, env);
  }

  lemma PathAcyclic()
    ensures NoCycles([PATH_VARIABLE])
  {
    assert AllParts(PATH_VARIABLE) == [Builtin(Path, None)];
    RankedIsAcyclic<nat>(DepGraph([PATH_VARIABLE]), map[0 := 0]);
  }

  /** `{path}` has a different value in every view with another path. */
  lemma PathValuesDiffer(lib: Lib, ctx: RequestContext, p: string)
    requires p != ctx.path
    ensures NoCycles([PATH_VARIABLE]) && DependsOnPath([PATH_VARIABLE], 0)
    ensures Value(lib, [PATH_VARIABLE], ctx, 0) == ctx.path
    ensures Value(lib, [PATH_VARIABLE], ctx.(path := p), 0) == p
  {
    var bodies := [PATH_VARIABLE];
    PathAcyclic();
    ReachesSelf<nat>(DepGraph(bodies), 0);
    assert AllParts(bodies[0])[0] == Builtin(Path, None);
    PathText(lib, bodies, ctx);
    PathText(lib, bodies, ctx.(path := p));
  }

  /**
   The failing input: a fresh scope over one variable defined as `{path}`, read in both views.  The
   second read returns the first view's path.
   */
  method StalePath(lib: Lib, ctx: RequestContext, p: string) returns (first: string, second: string)
    ensures first == second == ctx.path
    ensures NoCycles([PATH_VARIABLE])
    ensures p != ctx.path ==> second != Value(lib, [PATH_VARIABLE], ctx.(path := p), 0)
  {
    hide Value, NoCycles, FrozenSlots.Meaning;
    PathAcyclic();
    var table := VarTable([VarDef("v", PATH_VARIABLE, NO_NEEDS)], VarNames(["v"], map["v" := 0]));
    assert Bodies(table) == [PATH_VARIABLE];
    var scope := new VarScope(lib, table);
    first := scope.Get(0, ctx);
    PathText(lib, [PATH_VARIABLE], ctx);
    second := scope.Get(0, ctx.(path := p));
    if p != ctx.path {
      PathValuesDiffer(lib, ctx, p);
    }
  }
}
