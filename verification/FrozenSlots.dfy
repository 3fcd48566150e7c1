/**
 What a variable means while some slots are already filled, by whatever view of the request: a
 filled slot is a constant, and everything else is evaluated around it.
 */
module FrozenSlots {
  import opened Common
  import opened Digraph
  import opened Templates
  import opened Variables

  type Slots = seq<Option<string>>

  /** A variable with a filled slot no longer refers to anything. */
  ghost function FrozenBody(body: VarBody, slot: Option<string>): VarBody {
    if slot.Some? then Const([Literal(slot.value)]) else body
  }

  /** The program with every filled slot in place of its body. */
  ghost function Frozen(bodies: seq<VarBody>, slots: Slots): seq<VarBody>
    requires |slots| == |bodies|
  {
    seq(|bodies|, i requires 0 <= i < |bodies| => FrozenBody(bodies[i], slots[i]))
  }

  lemma FrozenDeps(body: VarBody, slot: Option<string>)
    ensures Deps(FrozenBody(body, slot)) == if slot.Some? then {} else Deps(body)
  {
  }

  /** Freezing only removes references. */
  lemma FrozenAcyclic(bodies: seq<VarBody>, slots: Slots)
    requires NoCycles(bodies) && |slots| == |bodies|
    ensures NoCycles(Frozen(bodies, slots))
  {
    hide Level, FrozenBody, Deps;
    var g := DepGraph(Frozen(bodies, slots));
    var rank := map i | 0 <= i < |bodies| :: Level(bodies, i);
    forall v, w | v in g && w in g[v] && w in g ensures rank[w] < rank[v] {
      FrozenDeps(bodies[v], slots[v]);
      LevelDescends(bodies, v, w);
    }
    RankedIsAcyclic<nat>(g, rank);
  }

  /** The value of every variable, given the filled slots. */
  ghost function Meaning(lib: Lib, bodies: seq<VarBody>, slots: Slots, ctx: RequestContext): seq<string>
    requires NoCycles(bodies) && |slots| == |bodies|
  {
    FrozenAcyclic(bodies, slots);
    Values(lib, Frozen(bodies, slots), ctx)
  }

  lemma SizeOfMeaning(lib: Lib, bodies: seq<VarBody>, slots: Slots, ctx: RequestContext)
    requires NoCycles(bodies) && |slots| == |bodies|
    ensures |Meaning(lib, bodies, slots, ctx)| == |Values(lib, bodies, ctx)| == |bodies|
  {
  }

  lemma FrozenText(lib: Lib, body: VarBody, slot: Option<string>, ctx: RequestContext, env: seq<string>)
    ensures BodyText(lib, FrozenBody(body, slot), ctx, env)
         == if slot.Some? then slot.value else BodyText(lib, body, ctx, env)
  {
    if slot.Some? {
      var t: Template := [Literal(slot.value)];
      assert t[..0] == [] && Render(t[..0], ctx, None, env) == "";
      assert Render(t, ctx, None, env) == "" + PartText(t[0], ctx, None, env);
    }
  }

  /** One variable's equation. */
  ghost predicate Settles(
    lib: Lib, bodies: seq<VarBody>, slots: Slots, ctx: RequestContext, vals: seq<string>, id: nat)
    requires |vals| == |slots| == |bodies| && id < |bodies|
  {
    vals[id] == if slots[id].Some? then slots[id].value else BodyText(lib, bodies[id], ctx, vals)
  }

  /** A filled slot reads as it is; any other variable has the text of its own body. */
  lemma MeaningSettles(lib: Lib, bodies: seq<VarBody>, slots: Slots, ctx: RequestContext, id: nat)
    requires NoCycles(bodies) && |slots| == |bodies| && id < |bodies|
    ensures |Meaning(lib, bodies, slots, ctx)| == |bodies|
    ensures Settles(lib, bodies, slots, ctx, Meaning(lib, bodies, slots, ctx), id)
  {
    hide NoCycles, FrozenBody, BodyText, Value;
    FrozenAcyclic(bodies, slots);
    var vals := Meaning(lib, bodies, slots, ctx);
    ValueUnfold(lib, Frozen(bodies, slots), ctx, id);
    FrozenText(lib, bodies[id], slots[id], ctx, vals);
  }

  /** Those equations have no other solution. */
  lemma MeaningUnique(lib: Lib, bodies: seq<VarBody>, slots: Slots, ctx: RequestContext, vals: seq<string>)
    requires NoCycles(bodies) && |vals| == |slots| == |bodies|
    requires forall id :: 0 <= id < |bodies| ==> Settles(lib, bodies, slots, ctx, vals, id)
    ensures vals == Meaning(lib, bodies, slots, ctx)
  {
    hide NoCycles, FrozenBody, BodyText, Value, Settles;
    FrozenAcyclic(bodies, slots);
    var frozen := Frozen(bodies, slots);
    forall id | 0 <= id < |bodies| ensures vals[id] == BodyText(lib, frozen[id], ctx, vals) {
      SettledText(lib, bodies, slots, ctx, vals, id);
    }
    forall id | 0 <= id < |bodies| ensures vals[id] == Meaning(lib, bodies, slots, ctx)[id] {
      SolutionUnique(lib, frozen, ctx, vals, id);
    }
  }

  lemma SettledText(
    lib: Lib, bodies: seq<VarBody>, slots: Slots, ctx: RequestContext, vals: seq<string>, id: nat)
    requires |vals| == |slots| == |bodies| && id < |bodies|
    requires Settles(lib, bodies, slots, ctx, vals, id)
    ensures vals[id] == BodyText(lib, Frozen(bodies, slots)[id], ctx, vals)
  {
    hide FrozenBody, BodyText;
    FrozenText(lib, bodies[id], slots[id], ctx, vals);
  }

  /** Filling a slot with its variable's own value changes nothing. */
  lemma MeaningKept(lib: Lib, bodies: seq<VarBody>, slots: Slots, ctx: RequestContext, id: nat)
    requires NoCycles(bodies) && |slots| == |bodies| && id < |bodies| && slots[id].None?
    ensures |Meaning(lib, bodies, slots, ctx)| == |bodies|
    ensures Meaning(lib, bodies, slots[id := Some(Meaning(lib, bodies, slots, ctx)[id])], ctx)
         == Meaning(lib, bodies, slots, ctx)
  {
    hide NoCycles, BodyText, Meaning;
    MeaningSettles(lib, bodies, slots, ctx, id);
    var vals := Meaning(lib, bodies, slots, ctx);
    var filled := slots[id := Some(vals[id])];
    forall j | 0 <= j < |bodies| ensures Settles(lib, bodies, filled, ctx, vals, j) {
      MeaningSettles(lib, bodies, slots, ctx, j);
    }
    MeaningUnique(lib, bodies, filled, ctx, vals);
  }

  /** Every filled slot holds its variable's value in this view. */
  ghost predicate Truthful(lib: Lib, bodies: seq<VarBody>, slots: Slots, ctx: RequestContext)
    requires NoCycles(bodies) && |slots| == |bodies|
  {
    forall i :: 0 <= i < |slots| && slots[i].Some? ==> slots[i].value == Value(lib, bodies, ctx, i)
  }

  /** Every variable still reads its true value exactly when every filled slot does. */
  lemma TruthfulIff(lib: Lib, bodies: seq<VarBody>, slots: Slots, ctx: RequestContext)
    requires NoCycles(bodies) && |slots| == |bodies|
    ensures Meaning(lib, bodies, slots, ctx) == Values(lib, bodies, ctx) <==> Truthful(lib, bodies, slots, ctx)
  {
    hide NoCycles, BodyText, Meaning, Value;
    var vals := Values(lib, bodies, ctx);
    forall i | 0 <= i < |slots| && slots[i].Some?
      ensures Meaning(lib, bodies, slots, ctx) == vals ==> slots[i].value == Value(lib, bodies, ctx, i)
    {
      MeaningSettles(lib, bodies, slots, ctx, i);
    }
    if Truthful(lib, bodies, slots, ctx) {
      forall j | 0 <= j < |bodies| ensures Settles(lib, bodies, slots, ctx, vals, j) {
        ValueUnfold(lib, bodies, ctx, j);
      }
      MeaningUnique(lib, bodies, slots, ctx, vals);
    }
  }
}
