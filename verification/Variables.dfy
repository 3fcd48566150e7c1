/**
 What config-defined variables mean (src/vars.rs).  Given a request context,
 the values of all variables are the one assignment in which every variable
 equals the text of its own body; acyclic tables have exactly one.
 */
module Variables {
  import opened Common
  import opened Digraph
  import opened Templates

  /** One match arm; no pattern is the `_` catch-all. */
  datatype Arm = Arm(pattern: Option<string>, value: Template)

  datatype VarBody =
    | Const(t: Template)
    | Match(input: Template, arms: seq<Arm>)

  function ArmsText(lib: Lib, arms: seq<Arm>, input: string, ctx: RequestContext, env: seq<string>): string {
    if arms == [] then []
    else if arms[0].pattern.None? then Render(arms[0].value, ctx, None, env)
    else
      match lib.captures(arms[0].pattern.value, input)
      case Some(caps) => Render(arms[0].value, ctx, Some(caps), env)
      case None => ArmsText(lib, arms[1..], input, ctx, env)
  }

  /** The text a body yields when the variables have the values `env`. */
  function BodyText(lib: Lib, body: VarBody, ctx: RequestContext, env: seq<string>): string {
    match body
    case Const(t) => Render(t, ctx, None, env)
    case Match(input, arms) => ArmsText(lib, arms, Render(input, ctx, None, env), ctx, env)
  }

  predicate ArmMatches(lib: Lib, arm: Arm, input: string) {
    arm.pattern.None? || lib.captures(arm.pattern.value, input).Some?
  }

  /** The first arm that matches decides, with its own captures; without one the value is empty. */
  lemma {:induction false} FirstArmDecides(
    lib: Lib, arms: seq<Arm>, input: string, ctx: RequestContext, env: seq<string>, k: nat)
    requires k <= |arms| && forall j :: 0 <= j < k ==> !ArmMatches(lib, arms[j], input)
    requires k < |arms| ==> ArmMatches(lib, arms[k], input)
    ensures ArmsText(lib, arms, input, ctx, env) ==
      if k == |arms| then []
      else Render(arms[k].value, ctx,
                  if arms[k].pattern.Some? then lib.captures(arms[k].pattern.value, input) else None, env)
    decreases |arms|
  {
    hide Render;
    if k > 0 {
      assert !ArmMatches(lib, arms[0], input);
      FirstArmDecides(lib, arms[1..], input, ctx, env, k - 1);
    }
  }

  function ArmParts(arms: seq<Arm>): Template {
    if arms == [] then [] else arms[0].value + ArmParts(arms[1..])
  }

  /** Every part a body can ever render. */
  function AllParts(body: VarBody): Template {
    match body
    case Const(t) => t
    case Match(input, arms) => input + ArmParts(arms)
  }

  /** The variables a template refers to. */
  ghost function RefSet(t: Template): set<nat> {
    set k | 0 <= k < |t| && t[k].Custom? :: t[k].id
  }

  ghost function Deps(body: VarBody): set<nat> {
    RefSet(AllParts(body))
  }

  lemma DepsRefers(body: VarBody)
    ensures forall id :: id in Deps(body) <==> RefersTo(AllParts(body), id)
  {
  }

  ghost function DepGraph(bodies: seq<VarBody>): Graph<nat> {
    map i | 0 <= i < |bodies| :: Deps(bodies[i])
  }

  /** No variable depends on itself, however indirectly. */
  ghost predicate NoCycles(bodies: seq<VarBody>) {
    Acyclic<nat>(DepGraph(bodies))
  }

  ghost function Level(bodies: seq<VarBody>, id: nat): (r: nat)
    requires NoCycles(bodies) && id < |bodies|
  {
    Rank<nat>(DepGraph(bodies))[id]
  }

  lemma LevelDescends(bodies: seq<VarBody>, id: nat, d: nat)
    requires NoCycles(bodies) && id < |bodies| && d < |bodies| && d in Deps(bodies[id])
    ensures Level(bodies, d) < Level(bodies, id)
  {
    var g := DepGraph(bodies);
    assert id in g && d in g && d in g[id];
  }

  // -- Bodies that read alike --------------------------------------------

  ghost predicate PartsAlike(
    t1: Template, ctx1: RequestContext, env1: seq<string>,
    t2: Template, ctx2: RequestContext, env2: seq<string>)
  {
    && |t1| == |t2|
    && forall k, caps :: 0 <= k < |t1| ==>
      PartText(t1[k], ctx1, caps, env1) == PartText(t2[k], ctx2, caps, env2)
  }

  ghost predicate BodiesAlike(
    b1: VarBody, ctx1: RequestContext, env1: seq<string>,
    b2: VarBody, ctx2: RequestContext, env2: seq<string>)
  {
    match (b1, b2)
    case (Const(t1), Const(t2)) => PartsAlike(t1, ctx1, env1, t2, ctx2, env2)
    case (Match(i1, a1), Match(i2, a2)) =>
      PartsAlike(i1, ctx1, env1, i2, ctx2, env2) && ArmsAlike(a1, ctx1, env1, a2, ctx2, env2)
    case _ => false
  }

  ghost predicate ArmsAlike(
    a1: seq<Arm>, ctx1: RequestContext, env1: seq<string>,
    a2: seq<Arm>, ctx2: RequestContext, env2: seq<string>)
  {
    && |a1| == |a2|
    && forall k :: 0 <= k < |a1| ==>
      a1[k].pattern == a2[k].pattern && PartsAlike(a1[k].value, ctx1, env1, a2[k].value, ctx2, env2)
  }

  lemma AlikeRender(
    t1: Template, ctx1: RequestContext, env1: seq<string>,
    t2: Template, ctx2: RequestContext, env2: seq<string>, caps: Option<Captures>)
    requires PartsAlike(t1, ctx1, env1, t2, ctx2, env2)
    ensures Render(t1, ctx1, caps, env1) == Render(t2, ctx2, caps, env2)
  {
    RenderCongruence(t1, ctx1, caps, env1, t2, ctx2, env2);
  }

  lemma {:induction false} ArmsAlikeText(
    lib: Lib, input: string,
    a1: seq<Arm>, ctx1: RequestContext, env1: seq<string>,
    a2: seq<Arm>, ctx2: RequestContext, env2: seq<string>)
    requires ArmsAlike(a1, ctx1, env1, a2, ctx2, env2)
    ensures ArmsText(lib, a1, input, ctx1, env1) == ArmsText(lib, a2, input, ctx2, env2)
    decreases |a1|
  {
    hide PartsAlike, Render;
    if a1 != [] {
      var c := if a1[0].pattern.Some? then lib.captures(a1[0].pattern.value, input) else None;
      AlikeRender(a1[0].value, ctx1, env1, a2[0].value, ctx2, env2, c);
      ArmsAlikeText(lib, input, a1[1..], ctx1, env1, a2[1..], ctx2, env2);
    }
  }

  lemma AlikeText(
    lib: Lib,
    b1: VarBody, ctx1: RequestContext, env1: seq<string>,
    b2: VarBody, ctx2: RequestContext, env2: seq<string>)
    requires BodiesAlike(b1, ctx1, env1, b2, ctx2, env2)
    ensures BodyText(lib, b1, ctx1, env1) == BodyText(lib, b2, ctx2, env2)
  {
    hide PartsAlike, ArmsAlike, Render, ArmsText;
    match (b1, b2) {
      case (Const(t1), Const(t2)) => AlikeRender(t1, ctx1, env1, t2, ctx2, env2, None);
      case (Match(i1, a1), Match(i2, a2)) =>
        AlikeRender(i1, ctx1, env1, i2, ctx2, env2, None);
        ArmsAlikeText(lib, Render(i1, ctx1, None, env1), a1, ctx1, env1, a2, ctx2, env2);
    }
  }

  /** One body in two settings: alike as soon as every part reads alike. */
  lemma SameBodyAlike(
    body: VarBody, ctx1: RequestContext, env1: seq<string>, ctx2: RequestContext, env2: seq<string>)
    requires PartsAlike(AllParts(body), ctx1, env1, AllParts(body), ctx2, env2)
    ensures BodiesAlike(body, ctx1, env1, body, ctx2, env2)
  {
    if body.Match? {
      SplitAlike(body.input, ArmParts(body.arms), ctx1, env1, ctx2, env2);
      SameArmsAlike(body.arms, ctx1, env1, ctx2, env2);
    }
  }

  lemma SplitAlike(
    a: Template, b: Template, ctx1: RequestContext, env1: seq<string>, ctx2: RequestContext, env2: seq<string>)
    requires PartsAlike(a + b, ctx1, env1, a + b, ctx2, env2)
    ensures PartsAlike(a, ctx1, env1, a, ctx2, env2) && PartsAlike(b, ctx1, env1, b, ctx2, env2)
  {
    var c := a + b;
    assert forall k :: 0 <= k < |a| ==> a[k] == c[k];
    assert forall k :: 0 <= k < |b| ==> b[k] == c[|a| + k];
  }

  lemma {:induction false} SameArmsAlike(
    arms: seq<Arm>, ctx1: RequestContext, env1: seq<string>, ctx2: RequestContext, env2: seq<string>)
    requires PartsAlike(ArmParts(arms), ctx1, env1, ArmParts(arms), ctx2, env2)
    ensures ArmsAlike(arms, ctx1, env1, arms, ctx2, env2)
  {
    hide PartsAlike;
    if arms != [] {
      SplitAlike(arms[0].value, ArmParts(arms[1..]), ctx1, env1, ctx2, env2);
      SameArmsAlike(arms[1..], ctx1, env1, ctx2, env2);
      assert arms == [arms[0]] + arms[1..];
    }
  }

  // -- Meaning ------------------------------------------------------------

  /** Every variable has the text of its own body. */
  ghost predicate IsSolution(lib: Lib, bodies: seq<VarBody>, ctx: RequestContext, vals: seq<string>) {
    && |vals| == |bodies|
    && forall id :: 0 <= id < |bodies| ==> vals[id] == BodyText(lib, bodies[id], ctx, vals)
  }

  /** The pure, unmemoised evaluator. */
  ghost function Value(lib: Lib, bodies: seq<VarBody>, ctx: RequestContext, id: nat): string
    requires NoCycles(bodies)
    decreases if id < |bodies| then Level(bodies, id) else 0, 1
  {
    if id >= |bodies| then [] else BodyText(lib, bodies[id], ctx, Below(lib, bodies, ctx, Level(bodies, id)))
  }

  /** The values of all variables below a level. */
  ghost function Below(lib: Lib, bodies: seq<VarBody>, ctx: RequestContext, level: nat): seq<string>
    requires NoCycles(bodies)
    decreases level, 0
  {
    seq(|bodies|, j requires 0 <= j < |bodies| =>
      if Level(bodies, j) < level then Value(lib, bodies, ctx, j) else [])
  }

  ghost function Values(lib: Lib, bodies: seq<VarBody>, ctx: RequestContext): seq<string>
    requires NoCycles(bodies)
  {
    seq(|bodies|, j requires 0 <= j < |bodies| => Value(lib, bodies, ctx, j))
  }

  /** A body's text depends on the variables it refers to, and on no other. */
  lemma DepsDecide(lib: Lib, body: VarBody, ctx: RequestContext, env1: seq<string>, env2: seq<string>)
    requires forall id :: id in Deps(body) ==> Lookup(env1, id) == Lookup(env2, id)
    ensures BodyText(lib, body, ctx, env1) == BodyText(lib, body, ctx, env2)
  {
    var ps := AllParts(body);
    forall k, caps | 0 <= k < |ps| ensures PartText(ps[k], ctx, caps, env1) == PartText(ps[k], ctx, caps, env2) {
      if ps[k].Custom? {
        assert ps[k].id in Deps(body);
      }
    }
    SameBodyAlike(body, ctx, env1, ctx, env2);
    AlikeText(lib, body, ctx, env1, body, ctx, env2);
  }

  lemma ValueUnfold(lib: Lib, bodies: seq<VarBody>, ctx: RequestContext, id: nat)
    requires NoCycles(bodies) && id < |bodies|
    ensures Value(lib, bodies, ctx, id) == BodyText(lib, bodies[id], ctx, Values(lib, bodies, ctx))
  {
    hide BodyText, Deps;
    var lower, vals := Below(lib, bodies, ctx, Level(bodies, id)), Values(lib, bodies, ctx);
    forall d | d in Deps(bodies[id]) ensures Lookup(lower, d) == Lookup(vals, d) {
      if d < |bodies| {
        LevelDescends(bodies, id, d);
      }
    }
    DepsDecide(lib, bodies[id], ctx, lower, vals);
  }

  /** Acyclic tables have a meaning ... */
  lemma ValuesSolve(lib: Lib, bodies: seq<VarBody>, ctx: RequestContext)
    requires NoCycles(bodies)
    ensures IsSolution(lib, bodies, ctx, Values(lib, bodies, ctx))
  {
    forall id | 0 <= id < |bodies|
      ensures Values(lib, bodies, ctx)[id] == BodyText(lib, bodies[id], ctx, Values(lib, bodies, ctx))
    {
      ValueUnfold(lib, bodies, ctx, id);
    }
  }

  /** ... and only one. */
  lemma {:induction false} SolutionUnique(
    lib: Lib, bodies: seq<VarBody>, ctx: RequestContext, vals: seq<string>, id: nat)
    requires NoCycles(bodies) && IsSolution(lib, bodies, ctx, vals)
    requires id < |bodies|
    ensures vals[id] == Value(lib, bodies, ctx, id)
    decreases Level(bodies, id)
  {
    hide BodyText, Deps, Value;
    var all := Values(lib, bodies, ctx);
    forall d | d in Deps(bodies[id]) ensures Lookup(vals, d) == Lookup(all, d) {
      if d < |bodies| {
        LevelDescends(bodies, id, d);
        SolutionUnique(lib, bodies, ctx, vals, d);
      }
    }
    DepsDecide(lib, bodies[id], ctx, vals, all);
    ValueUnfold(lib, bodies, ctx, id);
  }

  // -- The compiled table -------------------------------------------------

  /** Request-time facilities something requires, transitively. */
  datatype VarNeeds = VarNeeds(principal: bool, geoip: bool, headers: seq<string>, usesVars: bool)

  const NO_NEEDS := VarNeeds(false, false, [], false)

  datatype VarDef = VarDef(name: string, body: VarBody, needs: VarNeeds)

  datatype VarTable = VarTable(defs: seq<VarDef>, names: VarNames)

  function Bodies(t: VarTable): (r: seq<VarBody>)
    ensures |r| == |t.defs| && forall i :: 0 <= i < |r| ==> r[i] == t.defs[i].body
  {
    seq(|t.defs|, i requires 0 <= i < |t.defs| => t.defs[i].body)
  }
}
