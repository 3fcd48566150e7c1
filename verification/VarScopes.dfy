/**
 Per-request evaluation of variables: lazy, and memoised in one slot per
 variable (src/vars.rs `VarScope`, `VarTable::eval`, src/headers.rs `render_inner`).
 */
module VarScopes {
  import opened Common
  import opened Digraph
  import opened Templates
  import opened Variables
  import opened FrozenSlots

  /** `j` can be reached from one of `roots`. */
  ghost predicate From(bodies: seq<VarBody>, roots: set<nat>, j: nat) {
    exists r: nat :: r in roots && Reaches<nat>(DepGraph(bodies), r, j)
  }

  /** Filled slots keep their value; only variables reachable from `roots` get filled. */
  ghost predicate Grew(
    bodies: seq<VarBody>, before: Slots, after: Slots, roots: set<nat>)
  {
    && |after| == |before|
    && (forall j :: 0 <= j < |before| && before[j].Some? ==> after[j] == before[j])
    && (forall j :: 0 <= j < |before| && before[j] != after[j] ==> From(bodies, roots, j))
  }

  lemma GrewTwice(
    bodies: seq<VarBody>, a: Slots, b: Slots, c: Slots,
    r1: set<nat>, r2: set<nat>, roots: set<nat>)
    requires Grew(bodies, a, b, r1) && Grew(bodies, b, c, r2)
    requires r1 <= roots && r2 <= roots
    ensures Grew(bodies, a, c, roots)
  {
    forall j | 0 <= j < |a| && a[j] != c[j] ensures From(bodies, roots, j) {
      if a[j] != b[j] {
        assert From(bodies, r1, j);
      } else {
        assert From(bodies, r2, j);
      }
    }
  }

  /** What the variables a body refers to can reach, the variable itself can. */
  lemma GrewFromBody(
    bodies: seq<VarBody>, id: nat, before: Slots, after: Slots)
    requires id < |bodies| && Grew(bodies, before, after, Deps(bodies[id]))
    ensures Grew(bodies, before, after, {id})
  {
    hide Deps;
    forall j | 0 <= j < |before| && before[j] != after[j] ensures From(bodies, {id}, j) {
      assert From(bodies, Deps(bodies[id]), j);
      var r: nat :| r in Deps(bodies[id]) && Reaches<nat>(DepGraph(bodies), r, j);
      assert Edge<nat>(DepGraph(bodies), id, r);
      ReachesStep<nat>(DepGraph(bodies), id, r, j);
    }
  }

  /** Evaluating a body never touches the variable's own slot. */
  lemma OwnSlotUntouched(
    bodies: seq<VarBody>, id: nat, before: Slots, after: Slots)
    requires NoCycles(bodies) && id < |bodies| == |before|
    requires Grew(bodies, before, after, Deps(bodies[id]))
    ensures after[id] == before[id]
  {
    hide Deps;
    if after[id] != before[id] {
      var g := DepGraph(bodies);
      assert From(bodies, Deps(bodies[id]), id);
      var r: nat :| r in Deps(bodies[id]) && Reaches<nat>(g, r, id);
      assert Edge<nat>(g, id, r);
      ReachesBack<nat>(g, id, r);
    }
  }

  lemma FilledSelf(bodies: seq<VarBody>, id: nat, slots: Slots, value: string)
    requires id < |slots| && slots[id].None?
    ensures Grew(bodies, slots, slots[id := Some(value)], {id})
  {
    ReachesSelf<nat>(DepGraph(bodies), id);
    assert From(bodies, {id}, id);
  }

  /** All of a template's references lie below `level`. */
  ghost predicate Under(bodies: seq<VarBody>, t: Template, level: nat)
    requires NoCycles(bodies)
  {
    forall k :: 0 <= k < |t| && t[k].Custom? && t[k].id < |bodies| ==> Level(bodies, t[k].id) < level
  }

  lemma RefSetIn(t: Template, k: nat)
    requires k < |t| && t[k].Custom?
    ensures t[k].id in RefSet(t)
  {
  }

  /** A level above every variable. */
  lemma {:induction false} TopLevel(bodies: seq<VarBody>, n: nat) returns (level: nat)
    requires NoCycles(bodies) && n <= |bodies|
    ensures forall id :: 0 <= id < n ==> Level(bodies, id) < level
    decreases n
  {
    hide Level;
    level := 0;
    if n > 0 {
      level := TopLevel(bodies, n - 1);
      level := level + Level(bodies, n - 1) + 1;
    }
  }

  lemma ArmInBody(body: VarBody, k: nat)
    requires body.Match? && k < |body.arms|
    ensures RefSet(body.arms[k].value) <= RefSet(AllParts(body))
  {
    ArmInArms(body.arms, k);
    RefSetConcat(body.input, ArmParts(body.arms));
  }

  lemma {:induction false} ArmInArms(arms: seq<Arm>, k: nat)
    requires k < |arms|
    ensures RefSet(arms[k].value) <= RefSet(ArmParts(arms))
  {
    RefSetConcat(arms[0].value, ArmParts(arms[1..]));
    if k > 0 {
      ArmInArms(arms[1..], k - 1);
    }
  }

  lemma RefSetConcat(a: Template, b: Template)
    ensures RefSet(a + b) == RefSet(a) + RefSet(b)
  {
    var c := a + b;
    assert forall k :: 0 <= k < |a| ==> c[k] == a[k];
    assert forall k :: 0 <= k < |b| ==> c[|a| + k] == b[k];
    forall id | id in RefSet(b) ensures id in RefSet(c) {
      var k :| 0 <= k < |b| && b[k].Custom? && b[k].id == id;
      assert c[|a| + k] == b[k];
    }
  }

  /** A body's own templates lie below the variable. */
  lemma UnderBody(bodies: seq<VarBody>, id: nat, t: Template)
    requires NoCycles(bodies) && id < |bodies| && RefSet(t) <= RefSet(AllParts(bodies[id]))
    ensures Under(bodies, t, Level(bodies, id))
  {
    hide Level;
    forall k | 0 <= k < |t| && t[k].Custom? && t[k].id < |bodies|
      ensures Level(bodies, t[k].id) < Level(bodies, id)
    {
      assert t[k].id in RefSet(t);
      assert Deps(bodies[id]) == RefSet(AllParts(bodies[id]));
      LevelDescends(bodies, id, t[k].id);
    }
  }

  class VarScope {
    const lib: Lib
    const table: Option<VarTable>
    /** One memo slot per variable: written at most once. */
    var slots: Slots

    ghost function Program(): seq<VarBody> {
      if table.Some? then Bodies(table.value) else []
    }

    ghost predicate Valid()
      reads this
    {
      |slots| == |Program()| && NoCycles(Program())
    }

    /** What every variable reads in this view, given the slots filled so far. */
    ghost function Meaning(ctx: RequestContext): seq<string>
      requires Valid()
      reads this
    {
      FrozenSlots.Meaning(lib, Program(), slots, ctx)
    }

    /** Every filled slot holds its variable's value in this view. */
    ghost predicate Truthful(ctx: RequestContext)
      requires Valid()
      reads this
    {
      FrozenSlots.Truthful(lib, Program(), slots, ctx)
    }

    /** A scope over an accepted table, with fresh slots. */
    constructor (lib: Lib, table: VarTable)
      requires NoCycles(Bodies(table))
      ensures Valid() && this.lib == lib && this.table == Some(table)
      ensures forall i :: 0 <= i < |slots| ==> slots[i].None?
    {
      this.lib := lib;
      this.table := Some(table);
      this.slots := seq(|table.defs|, _ => None);
    }

    /** The scope of a route without variables. */
    constructor Empty(lib: Lib)
      ensures Valid() && this.lib == lib && this.table == None && slots == []
    {
      this.lib := lib;
      this.table := None;
      this.slots := [];
      new;
      var g := DepGraph([]);
      assert RankedBy<nat>(g, map[]);
      RankedIsAcyclic<nat>(g, map[]);
      assert Program() == [];
    }

    /**
     `VarScope::get`, whatever view filled the slots: a filled one is returned as it is, any other
     variable is computed around them, once.
     */
    method Get(id: nat, ctx: RequestContext) returns (v: string)
      requires Valid()
      modifies this`slots
      ensures Valid() && Meaning(ctx) == old(Meaning(ctx))
      ensures v == Lookup(old(Meaning(ctx)), id)
      ensures old(Truthful(ctx)) ==> Truthful(ctx) && v == Lookup(Values(lib, Program(), ctx), id)
      ensures Grew(Program(), old(slots), slots, {id})
      ensures id < |slots| ==> slots[id] == Some(v)
      ensures id < |slots| && old(slots)[id].Some? ==> slots == old(slots)
      decreases if id < |Program()| then Level(Program(), id) + 1 else 0, 2, 0
    {
      hide Value, Values, BodyText, Level, NoCycles, Deps, FrozenSlots.Meaning, FrozenSlots.Truthful;
      TruthfulIff(lib, Program(), slots, ctx);
      SizeOfMeaning(lib, Program(), slots, ctx);
      if table.None? || id >= |slots| {
        return [];
      }
      MeaningSettles(lib, Program(), slots, ctx, id);
      if slots[id].Some? {
        return slots[id].value;
      }
      var value := Eval(id, ctx);
      OwnSlotUntouched(Program(), id, old(slots), slots);
      GrewFromBody(Program(), id, old(slots), slots);
      ghost var mid := slots;
      MeaningKept(lib, Program(), mid, ctx, id);
      if slots[id].None? {
        slots := slots[id := Some(value)];
      }
      FilledSelf(Program(), id, mid, value);
      GrewTwice(Program(), old(slots), mid, slots, {id}, {id}, {id});
      TruthfulIff(lib, Program(), slots, ctx);
      return slots[id].value;
    }

    /** `VarTable::eval`: the text of one body, around the slots filled so far. */
    method Eval(id: nat, ctx: RequestContext) returns (v: string)
      requires Valid() && table.Some? && id < |slots|
      modifies this`slots
      ensures Valid() && Meaning(ctx) == old(Meaning(ctx))
      ensures v == BodyText(lib, Program()[id], ctx, old(Meaning(ctx)))
      ensures Grew(Program(), old(slots), slots, Deps(Program()[id]))
      decreases Level(Program(), id) + 1, 1, 0
    {
      hide Level, NoCycles, Grew, Render, ArmsText, Under, FrozenSlots.Meaning;
      ghost var bodies, level := Program(), Level(Program(), id);
      var body := table.value.defs[id].body;
      assert Deps(body) == RefSet(AllParts(body));
      match body {
        case Const(t) =>
          UnderBody(bodies, id, t);
          v := RenderParts(t, ctx, None, level);
        case Match(input, arms) =>
          RefSetConcat(input, ArmParts(arms));
          UnderBody(bodies, id, input);
          var text := RenderParts(input, ctx, None, level);
          ghost var mid := slots;
          forall k | 0 <= k < |arms| ensures Under(bodies, arms[k].value, level) {
            ArmInBody(body, k);
            UnderBody(bodies, id, arms[k].value);
          }
          v := EvalArms(arms, text, ctx, level);
          GrewTwice(bodies, old(slots), mid, slots, RefSet(input), RefSet(ArmParts(arms)), Deps(body));
      }
    }

    /** The arms in declaration order: the first that matches decides. */
    method EvalArms(arms: seq<Arm>, input: string, ctx: RequestContext, ghost level: nat) returns (v: string)
      requires Valid()
      requires forall k :: 0 <= k < |arms| ==> Under(Program(), arms[k].value, level)
      modifies this`slots
      ensures Valid() && Meaning(ctx) == old(Meaning(ctx))
      ensures v == ArmsText(lib, arms, input, ctx, old(Meaning(ctx)))
      ensures Grew(Program(), old(slots), slots, RefSet(ArmParts(arms)))
      decreases level + 1, 0, 1
    {
      hide Level, NoCycles, Render, Under, FrozenSlots.Meaning, RefSet, ArmParts;
      ghost var vals := Meaning(ctx);
      for k := 0 to |arms|
        invariant slots == old(slots)
        invariant ArmsText(lib, arms, input, ctx, vals) == ArmsText(lib, arms[k..], input, ctx, vals)
      {
        assert arms[k..][0] == arms[k] && arms[k..][1..] == arms[k + 1..];
        ArmInArms(arms, k);
        var caps := None;
        if arms[k].pattern.Some? {
          caps := lib.captures(arms[k].pattern.value, input);
          if caps.None? {
            continue;
          }
        }
        v := RenderParts(arms[k].value, ctx, caps, level);
        GrewTwice(Program(), old(slots), old(slots), slots, {}, RefSet(arms[k].value), RefSet(ArmParts(arms)));
        return;
      }
      v := [];
    }

    /** `render_inner`: reads each referenced variable through `Get`. */
    method RenderParts(t: Template, ctx: RequestContext, caps: Option<Captures>, ghost level: nat)
      returns (out: string)
      requires Valid() && Under(Program(), t, level)
      modifies this`slots
      ensures Valid() && Meaning(ctx) == old(Meaning(ctx))
      ensures out == Render(t, ctx, caps, old(Meaning(ctx)))
      ensures Grew(Program(), old(slots), slots, RefSet(t))
      decreases level + 1, 0, 0
    {
      hide Level, NoCycles, FrozenSlots.Meaning, FrozenSlots.Truthful, From;
      ghost var vals := Meaning(ctx);
      out := [];
      for k := 0 to |t|
        invariant Valid() && Meaning(ctx) == vals
        invariant out == Render(t[..k], ctx, caps, vals)
        invariant Grew(Program(), old(slots), slots, RefSet(t))
      {
        TakeSnoc(t, k);
        var p := t[k];
        if p.Custom? {
          ghost var mid := slots;
          RefSetIn(t, k);
          var value := Get(p.id, ctx);
          GrewTwice(Program(), old(slots), mid, slots, RefSet(t), {p.id}, RefSet(t));
          out := out + Fill(value, p.fallback);
        } else {
          out := out + PartText(p, ctx, caps, []);
        }
      }
      assert t[..|t|] == t;
    }

    /** `Template::render` of a route's template. */
    method RenderTemplate(t: Template, ctx: RequestContext) returns (out: string)
      requires Valid()
      modifies this`slots
      ensures Valid() && Meaning(ctx) == old(Meaning(ctx))
      ensures out == Render(t, ctx, None, old(Meaning(ctx)))
      ensures old(Truthful(ctx)) ==> Truthful(ctx) && out == Render(t, ctx, None, Values(lib, Program(), ctx))
      ensures Grew(Program(), old(slots), slots, RefSet(t))
    {
      hide Values, Render, FrozenSlots.Meaning, FrozenSlots.Truthful;
      TruthfulIff(lib, Program(), slots, ctx);
      ghost var level := TopLevel(Program(), |Program()|);
      out := RenderParts(t, ctx, None, level);
      TruthfulIff(lib, Program(), slots, ctx);
    }
  }
}
