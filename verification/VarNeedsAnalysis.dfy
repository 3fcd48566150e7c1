/**
 The "needs" analysis (src/vars.rs `VarNeeds`, `compute_needs`,
 `resolve_needs`): which request-time facilities a template calls for, through
 any depth of variable references, and why nothing else can change its text.
 */
module VarNeedsAnalysis {
  import opened Common
  import opened Digraph
  import opened Templates
  import opened Variables
  import opened VarCycles

  predicate Has(nd: VarNeeds, w: Want) {
    Listed(nd.principal, nd.geoip, nd.headers, w)
  }

  ghost predicate AsksAt(bodies: seq<VarBody>, j: nat, w: Want) {
    j < |bodies| && Asks(AllParts(bodies[j]), w)
  }

  /** Some variable reachable from `i` reads `w` in one of its templates. */
  ghost predicate Needs(bodies: seq<VarBody>, i: nat, w: Want) {
    exists j: nat :: Reaches<nat>(DepGraph(bodies), i, j) && AsksAt(bodies, j, w)
  }

  /** `nd` lists exactly what `i` transitively needs. */
  ghost predicate Exact(bodies: seq<VarBody>, i: nat, nd: VarNeeds) {
    && (forall w :: Has(nd, w) <==> Needs(bodies, i, w))
    && NoDup(nd.headers) && !nd.usesVars
  }

  lemma NeedsUnfold(bodies: seq<VarBody>, i: nat, w: Want)
    requires i < |bodies|
    ensures Needs(bodies, i, w) <==>
      AsksAt(bodies, i, w) || exists d :: d in Deps(bodies[i]) && Needs(bodies, d, w)
  {
    hide AsksAt, Deps, Reaches;
    var g := DepGraph(bodies);
    ReachesSelf<nat>(g, i);
    if j: nat :| Reaches<nat>(g, i, j) && AsksAt(bodies, j, w) {
      ReachesUnfold<nat>(g, i, j);
      if j != i {
        var v: nat :| Edge<nat>(g, i, v) && Reaches<nat>(g, v, j);
        assert v in Deps(bodies[i]) && Needs(bodies, v, w);
      }
    }
    if d :| d in Deps(bodies[i]) && Needs(bodies, d, w) {
      var j: nat :| Reaches<nat>(g, d, j) && AsksAt(bodies, j, w);
      assert Edge<nat>(g, i, d);
      ReachesStep<nat>(g, i, d, j);
    }
  }

  /** Append the names not yet listed. */
  method AddNames(a: seq<string>, b: seq<string>) returns (r: seq<string>)
    requires NoDup(a)
    ensures NoDup(r) && forall h :: h in r <==> h in a || h in b
  {
    r := a;
    for k := 0 to |b|
      invariant NoDup(r)
      invariant forall h :: h in r <==> h in a || h in b[..k]
    {
      if b[k] !in r {
        r := r + [b[k]];
      }
      TakeSnoc(b, k);
    }
    assert b[..|b|] == b;
  }

  /** `VarNeeds::merge`. */
  method Merge(a: VarNeeds, b: VarNeeds) returns (r: VarNeeds)
    requires NoDup(a.headers)
    ensures NoDup(r.headers)
    ensures forall w :: Has(r, w) <==> Has(a, w) || Has(b, w)
    ensures r.usesVars <==> a.usesVars || b.usesVars
  {
    var headers := AddNames(a.headers, b.headers);
    r := VarNeeds(a.principal || b.principal, a.geoip || b.geoip, headers, a.usesVars || b.usesVars);
    forall w ensures Has(r, w) <==> Has(a, w) || Has(b, w) {
      match w {
        case _ =>
      }
    }
  }

  /** Fold one template's direct references into a body's. */
  method TakeRefs(nd: VarNeeds, dp: seq<nat>, t: Template) returns (nd': VarNeeds, dp': seq<nat>)
    requires NoDup(nd.headers) && NoDup(dp)
    ensures NoDup(nd'.headers) && NoDup(dp') && nd'.usesVars == nd.usesVars
    ensures forall w :: Has(nd', w) <==> Has(nd, w) || Asks(t, w)
    ensures forall id :: id in dp' <==> id in dp || RefersTo(t, id)
  {
    var r := Refs(t);
    nd' := Merge(nd, VarNeeds(r.principal, r.geoip, r.headers, false));
    dp' := AddRefs(dp, t);
  }

  /** Direct needs and dependencies of one body. */
  method Direct(body: VarBody) returns (nd: VarNeeds, dp: seq<nat>)
    ensures NoDup(nd.headers) && NoDup(dp) && !nd.usesVars
    ensures forall w :: Has(nd, w) <==> Asks(AllParts(body), w)
    ensures forall id :: id in dp <==> id in Deps(body)
  {
    nd, dp := NO_NEEDS, [];
    forall w ensures !Has(nd, w) && !Asks([], w) {
      match w {
        case _ =>
      }
    }
    hide RefersTo, Asks, Has, NoDup;
    DepsRefers(body);
    match body {
      case Const(t) =>
        nd, dp := TakeRefs(nd, dp, t);
      case Match(input, arms) =>
        nd, dp := TakeRefs(nd, dp, input);
        forall w ensures Asks(AllParts(body), w) <==> Asks(input, w) || Asks(ArmParts(arms), w) {
          AsksConcat(input, ArmParts(arms), w);
        }
        forall id ensures RefersTo(AllParts(body), id) <==> RefersTo(input, id) || RefersTo(ArmParts(arms), id) {
          RefersConcat(input, ArmParts(arms), id);
        }
        for k := 0 to |arms|
          invariant NoDup(nd.headers) && NoDup(dp) && !nd.usesVars
          invariant forall w :: Has(nd, w) || Asks(ArmParts(arms[k..]), w) <==> Asks(AllParts(body), w)
          invariant forall id :: id in dp || RefersTo(ArmParts(arms[k..]), id) <==> RefersTo(AllParts(body), id)
        {
          assert arms[k..][0] == arms[k] && arms[k..][1..] == arms[k + 1..];
          var rest := ArmParts(arms[k + 1..]);
          forall w ensures Asks(ArmParts(arms[k..]), w) <==> Asks(arms[k].value, w) || Asks(rest, w) {
            AsksConcat(arms[k].value, rest, w);
          }
          forall id ensures RefersTo(ArmParts(arms[k..]), id) <==> RefersTo(arms[k].value, id) || RefersTo(rest, id) {
            RefersConcat(arms[k].value, rest, id);
          }
          nd, dp := TakeRefs(nd, dp, arms[k].value);
        }
        forall id ensures !RefersTo([], id) {
          NothingRefers(id);
        }
    }
  }

  /** Needs after the first references of `i` have been folded in. */
  ghost predicate Folded(bodies: seq<VarBody>, i: nat, ds: seq<nat>, nd: VarNeeds) {
    && NoDup(nd.headers) && !nd.usesVars
    && forall w :: Has(nd, w) <==> AsksAt(bodies, i, w) || exists d :: d in ds && Needs(bodies, d, w)
  }

  class NeedsFold {
    ghost const bodies: seq<VarBody>
    const direct: seq<VarNeeds>
    const deps: seq<seq<nat>>
    var resolved: seq<Option<VarNeeds>>

    ghost predicate Valid()
      reads this
    {
      && NoCycles(bodies) && AllInScope(bodies)
      && |direct| == |deps| == |resolved| == |bodies|
      && (forall i :: 0 <= i < |bodies| ==> DirectOf(bodies, i, direct[i], deps[i]))
      && (forall i :: 0 <= i < |bodies| && resolved[i].Some? ==> Exact(bodies, i, resolved[i].value))
    }

    constructor (ghost bodies: seq<VarBody>, direct: seq<VarNeeds>, deps: seq<seq<nat>>)
      requires NoCycles(bodies) && AllInScope(bodies)
      requires |direct| == |deps| == |bodies|
      requires forall i :: 0 <= i < |bodies| ==> DirectOf(bodies, i, direct[i], deps[i])
      ensures Valid() && this.bodies == bodies
    {
      this.bodies := bodies;
      this.direct := direct;
      this.deps := deps;
      this.resolved := seq(|direct|, _ => None);
    }

    /** `resolve_needs`, memoised. */
    method Resolve(i: nat) returns (nd: VarNeeds)
      requires Valid() && i < |bodies|
      modifies this`resolved
      ensures Valid() && Exact(bodies, i, nd) && resolved[i].Some?
      ensures forall j :: 0 <= j < |bodies| && old(resolved[j].Some?) ==> resolved[j].Some?
      decreases Level(bodies, i)
    {
      hide NoCycles, AllInScope, Exact, Needs, Level, Deps, AsksAt, Has, NoDup;
      if resolved[i].Some? {
        return resolved[i].value;
      }
      nd := direct[i];
      assert DirectOf(bodies, i, nd, deps[i]);
      assert deps[i][..0] == [];
      assert Folded(bodies, i, deps[i][..0], nd);
      for k := 0 to |deps[i]|
        invariant Valid() && Folded(bodies, i, deps[i][..k], nd)
        invariant forall j :: 0 <= j < |bodies| && old(resolved[j].Some?) ==> resolved[j].Some?
      {
        var d := deps[i][k];
        DepInScope(bodies, i, d);
        LevelDescends(bodies, i, d);
        var sub := Resolve(d);
        FoldOne(bodies, i, deps[i], k, nd, sub);
        nd := Merge(nd, sub);
      }
      assert deps[i][..|deps[i]|] == deps[i];
      FoldAll(bodies, i, deps[i], nd);
      resolved := resolved[i := Some(nd)];
    }
  }

  ghost predicate DirectOf(bodies: seq<VarBody>, i: nat, nd: VarNeeds, dp: seq<nat>)
    requires i < |bodies|
  {
    && NoDup(nd.headers) && !nd.usesVars
    && (forall w :: Has(nd, w) <==> AsksAt(bodies, i, w))
    && (forall id :: id in dp <==> id in Deps(bodies[i]))
  }

  /** What merging a resolved dependency into a partial fold yields. */
  lemma FoldOne(bodies: seq<VarBody>, i: nat, ds: seq<nat>, k: nat, nd: VarNeeds, sub: VarNeeds)
    requires k < |ds| && Folded(bodies, i, ds[..k], nd) && Exact(bodies, ds[k], sub)
    ensures NoDup(nd.headers) && !sub.usesVars
    ensures forall r: VarNeeds ::
      NoDup(r.headers) && !r.usesVars && (forall w :: Has(r, w) <==> Has(nd, w) || Has(sub, w))
      ==> Folded(bodies, i, ds[..k + 1], r)
  {
    hide Needs, AsksAt, Has, NoDup;
    TakeSnoc(ds, k);
    assert forall d :: d in ds[..k + 1] <==> d in ds[..k] || d == ds[k];
  }

  lemma FoldAll(bodies: seq<VarBody>, i: nat, ds: seq<nat>, nd: VarNeeds)
    requires i < |bodies| && Folded(bodies, i, ds, nd)
    requires forall id :: id in ds <==> id in Deps(bodies[i])
    ensures Exact(bodies, i, nd)
  {
    hide Needs, AsksAt, Has, NoDup, Deps;
    forall w ensures Has(nd, w) <==> Needs(bodies, i, w) {
      NeedsUnfold(bodies, i, w);
    }
  }

  /** `compute_needs`: every definition ends up with its exact transitive needs. */
  method ComputeNeeds(table: VarTable) returns (r: VarTable)
    requires NoCycles(Bodies(table)) && AllInScope(Bodies(table))
    ensures r.names == table.names && Bodies(r) == Bodies(table)
    ensures |r.defs| == |table.defs|
    ensures forall i :: 0 <= i < |r.defs| ==> r.defs[i].name == table.defs[i].name
    ensures forall i :: 0 <= i < |r.defs| ==> Exact(Bodies(r), i, r.defs[i].needs)
  {
    hide NoCycles, AllInScope, Exact, Deps, NoDup, Asks, Has;
    ghost var bodies := Bodies(table);
    var n := |table.defs|;
    var direct: seq<VarNeeds> := [];
    var deps: seq<seq<nat>> := [];
    for i := 0 to n
      invariant |direct| == |deps| == i
      invariant forall j :: 0 <= j < i ==> DirectOf(bodies, j, direct[j], deps[j])
    {
      var nd, dp := Direct(table.defs[i].body);
      direct := direct + [nd];
      deps := deps + [dp];
    }
    var fold := new NeedsFold(bodies, direct, deps);
    for i := 0 to n
      invariant fresh(fold) && fold.Valid() && fold.bodies == bodies
      invariant forall j :: 0 <= j < i ==> fold.resolved[j].Some?
    {
      var _ := fold.Resolve(i);
    }
    var needs := fold.resolved;
    var defs := seq(n, i requires 0 <= i < n => table.defs[i].(needs := needs[i].value));
    r := VarTable(defs, table.names);
    assert Bodies(r) == bodies;
  }

  // -- Soundness ----------------------------------------------------------

  /** What rendering `t` can read, through any depth of variables. */
  ghost predicate TemplateNeeds(bodies: seq<VarBody>, t: Template, w: Want) {
    Asks(t, w) || exists v :: RefersTo(t, v) && Needs(bodies, v, w)
  }

  /** A table whose definitions carry their exact needs. */
  ghost predicate Analysed(table: VarTable) {
    forall i :: 0 <= i < |table.defs| ==> Exact(Bodies(table), i, table.defs[i].needs)
  }

  /** `VarNeeds::absorb`: adds exactly what the template can read. */
  method Absorb(needs: VarNeeds, t: Template, table: VarTable) returns (r: VarNeeds)
    requires NoDup(needs.headers) && Analysed(table) && InScope(t, |table.defs|)
    ensures NoDup(r.headers)
    ensures forall w :: Has(r, w) <==> Has(needs, w) || TemplateNeeds(Bodies(table), t, w)
    ensures r.usesVars <==> needs.usesVars || exists v :: RefersTo(t, v)
  {
    var refs := Refs(t);
    r := Merge(needs, VarNeeds(refs.principal, refs.geoip, refs.headers, false));
    assert forall w :: Has(r, w) <==> Has(needs, w) || Asks(t, w);
    hide Has, Needs, NoDup, Asks;
    ghost var bodies := Bodies(table);
    for k := 0 to |refs.vars|
      invariant NoDup(r.headers)
      invariant r.usesVars <==> needs.usesVars || k > 0
      invariant forall w :: Has(r, w) <==>
        Has(needs, w) || Asks(t, w) || exists v :: v in refs.vars[..k] && Needs(bodies, v, w)
    {
      TakeSnoc(refs.vars, k);
      assert RefersTo(t, refs.vars[k]);
      RefersInScope(t, |table.defs|, refs.vars[k]);
      assert Exact(bodies, refs.vars[k], table.defs[refs.vars[k]].needs);
      r := Merge(r, table.defs[refs.vars[k]].needs);
      r := r.(usesVars := true);
      forall w ensures Has(r, w) <==>
        Has(needs, w) || Asks(t, w) || exists v :: v in refs.vars[..k + 1] && Needs(bodies, v, w)
      {
        HasIgnoresUse(r, w);
      }
    }
    assert refs.vars[..|refs.vars|] == refs.vars;
    assert |refs.vars| > 0 ==> RefersTo(t, refs.vars[0]);
  }

  lemma HasIgnoresUse(nd: VarNeeds, w: Want)
    ensures Has(nd, w) == Has(nd.(usesVars := false), w) == Has(nd.(usesVars := true), w)
  {
  }

  /** Two contexts give the same answer to one facility. */
  ghost predicate AgreeOn(a: RequestContext, b: RequestContext, w: Want) {
    match w
    case Principal => a.username == b.username && a.groups == b.groups
    case GeoIp => a.country == b.country
    case HeaderNamed(h) => HeaderValue(a.headers, h) == HeaderValue(b.headers, h)
  }

  /** Two contexts differ at most in identity, country and headers. */
  ghost predicate SameRequest(a: RequestContext, b: RequestContext) {
    b == a.(username := b.username, groups := b.groups, country := b.country, headers := b.headers)
  }

  lemma PartSame(
    p: Part, a: RequestContext, b: RequestContext, caps: Option<Captures>, env1: seq<string>, env2: seq<string>)
    requires SameRequest(a, b)
    requires forall w :: PartAsks(p, w) ==> AgreeOn(a, b, w)
    requires p.Custom? ==> Lookup(env1, p.id) == Lookup(env2, p.id)
    ensures PartText(p, a, caps, env1) == PartText(p, b, caps, env2)
  {
    if p.Header? {
      assert PartAsks(p, HeaderNamed(p.name));
      assert AgreeOn(a, b, HeaderNamed(p.name));
    } else if p.Builtin? {
      assert PartAsks(p, Principal) ==> AgreeOn(a, b, Principal);
      assert PartAsks(p, GeoIp) ==> AgreeOn(a, b, GeoIp);
    }
  }

  lemma TemplateSame(
    t: Template, a: RequestContext, b: RequestContext, env1: seq<string>, env2: seq<string>)
    requires SameRequest(a, b)
    requires forall w :: Asks(t, w) ==> AgreeOn(a, b, w)
    requires forall v :: RefersTo(t, v) ==> Lookup(env1, v) == Lookup(env2, v)
    ensures PartsAlike(t, a, env1, t, b, env2)
  {
    hide SameRequest, AgreeOn, PartText, Lookup;
    forall k, caps | 0 <= k < |t| ensures PartText(t[k], a, caps, env1) == PartText(t[k], b, caps, env2) {
      assert forall w :: PartAsks(t[k], w) ==> Asks(t, w);
      assert t[k].Custom? ==> RefersTo(t, t[k].id);
      PartSame(t[k], a, b, caps, env1, env2);
    }
  }

  /** A variable reads the same wherever everything it needs does. */
  lemma {:induction false} ValueSame(
    lib: Lib, bodies: seq<VarBody>, a: RequestContext, b: RequestContext, id: nat)
    requires NoCycles(bodies) && id < |bodies| && SameRequest(a, b)
    requires forall w :: Needs(bodies, id, w) ==> AgreeOn(a, b, w)
    ensures Value(lib, bodies, a, id) == Value(lib, bodies, b, id)
    decreases Level(bodies, id)
  {
    hide NoCycles, SameRequest, AgreeOn, Needs, Value, BodyText, PartsAlike, BodiesAlike, Asks, RefersTo, Deps, Level;
    var va, vb := Values(lib, bodies, a), Values(lib, bodies, b);
    var body := bodies[id];
    forall w | Asks(AllParts(body), w) ensures AgreeOn(a, b, w) {
      NeedsUnfold(bodies, id, w);
    }
    DepsRefers(body);
    forall v: nat | RefersTo(AllParts(body), v) ensures Lookup(va, v) == Lookup(vb, v) {
      if v < |bodies| {
        LevelDescends(bodies, id, v);
        forall w | Needs(bodies, v, w) ensures AgreeOn(a, b, w) {
          NeedsUnfold(bodies, id, w);
        }
        ValueSame(lib, bodies, a, b, v);
      }
    }
    TemplateSame(AllParts(body), a, b, va, vb);
    SameBodyAlike(body, a, va, b, vb);
    AlikeText(lib, body, a, va, body, b, vb);
    ValueUnfold(lib, bodies, a, id);
    ValueUnfold(lib, bodies, b, id);
  }

  /**
   Needs soundness: a template renders identically in any two contexts that
   agree on everything it (transitively) needs.
   */
  lemma NeedsSound(
    lib: Lib, bodies: seq<VarBody>, t: Template, caps: Option<Captures>, a: RequestContext, b: RequestContext)
    requires NoCycles(bodies) && SameRequest(a, b)
    requires forall w :: TemplateNeeds(bodies, t, w) ==> AgreeOn(a, b, w)
    ensures Render(t, a, caps, Values(lib, bodies, a)) == Render(t, b, caps, Values(lib, bodies, b))
  {
    hide NoCycles, SameRequest, AgreeOn, Needs, Value, PartsAlike, Asks, RefersTo, Render;
    var va, vb := Values(lib, bodies, a), Values(lib, bodies, b);
    forall v: nat | RefersTo(t, v) ensures Lookup(va, v) == Lookup(vb, v) {
      if v < |bodies| {
        ValueSame(lib, bodies, a, b, v);
      }
    }
    TemplateSame(t, a, b, va, vb);
    AlikeRender(t, a, va, t, b, vb, caps);
  }

  // -- What a route actually hands to its templates ------------------------

  /** The headers a route copies out of the request: those its needs list. */
  function Snapshot(names: seq<string>, headers: seq<(string, string)>): seq<(string, string)> {
    if names == [] then []
    else [(names[0], HeaderValue(headers, names[0]))] + Snapshot(names[1..], headers)
  }

  lemma {:induction false} SnapshotKeeps(names: seq<string>, headers: seq<(string, string)>, h: string)
    requires h in names
    ensures HeaderValue(Snapshot(names, headers), h) == HeaderValue(headers, h)
  {
    var snap := Snapshot(names, headers);
    assert snap[1..] == Snapshot(names[1..], headers);
    if names[0] != h {
      SnapshotKeeps(names[1..], headers, h);
    }
  }

  /**
   A context a route may build: identity and country are there when its needs
   list them (and may be anything otherwise), headers are copied as listed.
   */
  ghost predicate Serves(nd: VarNeeds, full: RequestContext, ctx: RequestContext) {
    && SameRequest(full, ctx)
    && (nd.principal ==> ctx.username == full.username && ctx.groups == full.groups)
    && (nd.geoip ==> ctx.country == full.country)
    && ctx.headers == Snapshot(nd.headers, full.headers)
  }

  /** Without variable references the scope is left empty. */
  ghost function GatedValues(lib: Lib, nd: VarNeeds, bodies: seq<VarBody>, ctx: RequestContext): seq<string>
    requires NoCycles(bodies)
  {
    if nd.usesVars then Values(lib, bodies, ctx) else []
  }

  /**
   Skipping what the needs do not list is invisible: a template folded into a
   route's needs renders as it would with every facility available.
   */
  lemma GatingInvisible(
    lib: Lib, bodies: seq<VarBody>, t: Template, nd: VarNeeds, full: RequestContext, ctx: RequestContext)
    requires NoCycles(bodies) && Serves(nd, full, ctx)
    requires forall w :: TemplateNeeds(bodies, t, w) ==> Has(nd, w)
    requires (exists v :: RefersTo(t, v)) ==> nd.usesVars
    ensures Render(t, ctx, None, GatedValues(lib, nd, bodies, ctx)) == Render(t, full, None, Values(lib, bodies, full))
  {
    hide NoCycles, Needs, Value, PartsAlike, Asks, RefersTo, Render, Snapshot, HeaderValue;
    forall w | TemplateNeeds(bodies, t, w) ensures AgreeOn(full, ctx, w) {
      if w.HeaderNamed? {
        SnapshotKeeps(nd.headers, full.headers, w.name);
      }
    }
    NeedsSound(lib, bodies, t, None, full, ctx);
    if !nd.usesVars {
      TemplateSame(t, ctx, ctx, [], Values(lib, bodies, ctx));
      AlikeRender(t, ctx, [], t, ctx, Values(lib, bodies, ctx), None);
    }
  }

  /** The context a route builds: identity and country only when asked for, headers as listed. */
  function Gated(nd: VarNeeds, full: RequestContext): RequestContext {
    full.(username := if nd.principal then full.username else "",
          groups := if nd.principal then full.groups else "",
          country := if nd.geoip then full.country else "",
          headers := Snapshot(nd.headers, full.headers))
  }

  /** What was not asked for is withheld, and still no template of the route can tell. */
  lemma GatedRenders(lib: Lib, bodies: seq<VarBody>, t: Template, nd: VarNeeds, full: RequestContext)
    requires NoCycles(bodies)
    requires forall w :: TemplateNeeds(bodies, t, w) ==> Has(nd, w)
    requires (exists v :: RefersTo(t, v)) ==> nd.usesVars
    ensures !nd.principal ==> Gated(nd, full).username == "" && Gated(nd, full).groups == ""
    ensures !nd.geoip ==> Gated(nd, full).country == ""
    ensures forall h :: h !in nd.headers ==> HeaderValue(Gated(nd, full).headers, h) == ""
    ensures Render(t, Gated(nd, full), None, GatedValues(lib, nd, bodies, Gated(nd, full)))
         == Render(t, full, None, Values(lib, bodies, full))
  {
    hide NoCycles, Render, Values, TemplateNeeds, Has, RefersTo, HeaderValue;
    GatingInvisible(lib, bodies, t, nd, full, Gated(nd, full));
    forall h | h !in nd.headers ensures HeaderValue(Gated(nd, full).headers, h) == "" {
      SnapshotLacks(nd.headers, full.headers, h);
    }
  }

  lemma {:induction false} SnapshotLacks(names: seq<string>, headers: seq<(string, string)>, h: string)
    requires h !in names
    ensures HeaderValue(Snapshot(names, headers), h) == ""
  {
    if names != [] {
      var snap := Snapshot(names, headers);
      assert snap[1..] == Snapshot(names[1..], headers);
      SnapshotLacks(names[1..], headers, h);
    }
  }
}
