/**
 `VarTable::build_layered` as a whole: which layerings are accepted, and that a
 layered table means what the table of the definitions in force means, in any
 order of slots.
 */
module VarLayers {
  import opened Common
  import opened Digraph
  import opened Templates
  import opened Variables
  import opened VarCycles
  import opened VarNeedsAnalysis
  import opened VarBuild

  // -- The same text compiled against two slot orders ------------------------------

  ghost predicate SameNames(n1: VarNames, n2: VarNames) {
    n1.Valid() && n2.Valid() && n1.index.Keys == n2.index.Keys
  }

  /** The same part, up to the slots of variables. */
  ghost predicate Renamed(p1: Part, p2: Part, n1: VarNames, n2: VarNames) {
    if p1.Custom? && p2.Custom? then
      && p1.id < |n1.names| && p2.id < |n2.names| && n1.names[p1.id] == n2.names[p2.id]
      && p1.fallback == p2.fallback
    else p1 == p2 && !p1.Custom?
  }

  ghost predicate RenamedParts(t1: Template, t2: Template, n1: VarNames, n2: VarNames) {
    |t1| == |t2| && forall k :: 0 <= k < |t1| ==> Renamed(t1[k], t2[k], n1, n2)
  }

  ghost predicate RenamedBody(b1: VarBody, b2: VarBody, n1: VarNames, n2: VarNames) {
    match (b1, b2)
    case (Const(t1), Const(t2)) => RenamedParts(t1, t2, n1, n2)
    case (Match(i1, a1), Match(i2, a2)) =>
      RenamedParts(i1, i2, n1, n2) && |a1| == |a2|
      && forall k :: 0 <= k < |a1| ==>
        a1[k].pattern == a2[k].pattern && RenamedParts(a1[k].value, a2[k].value, n1, n2)
    case _ => false
  }

  lemma PartRenamed(lib: Lib, tok: RawTok, n1: VarNames, n2: VarNames, caps: Option<CaptureScope>)
    requires SameNames(n1, n2)
    ensures PartOf(lib, tok, Some(n1), caps).Ok? <==> PartOf(lib, tok, Some(n2), caps).Ok?
    ensures PartOf(lib, tok, Some(n1), caps).Ok? ==>
      Renamed(PartOf(lib, tok, Some(n1), caps).value, PartOf(lib, tok, Some(n2), caps).value, n1, n2)
  {
    hide KnownVarOf, HeaderOf, LookupGroup, DigitGroup;
    if tok.Token? {
      assert tok.name in n1.index <==> tok.name in n2.index;
    }
  }

  lemma CompiledRenamed(lib: Lib, s: string, n1: VarNames, n2: VarNames, caps: Option<CaptureScope>)
    requires SameNames(n1, n2)
    ensures Compiled(lib, s, Some(n1), caps).Ok? <==> Compiled(lib, s, Some(n2), caps).Ok?
    ensures Compiled(lib, s, Some(n1), caps).Ok? ==>
      RenamedParts(Compiled(lib, s, Some(n1), caps).value, Compiled(lib, s, Some(n2), caps).value, n1, n2)
  {
    hide PartOf, Renamed, SameNames;
    var toks := Tokens(s);
    forall k | 0 <= k < |toks|
      ensures PartOf(lib, toks[k], Some(n1), caps).Ok? <==> PartOf(lib, toks[k], Some(n2), caps).Ok?
      ensures PartOf(lib, toks[k], Some(n1), caps).Ok? ==>
        Renamed(PartOf(lib, toks[k], Some(n1), caps).value, PartOf(lib, toks[k], Some(n2), caps).value, n1, n2)
    {
      PartRenamed(lib, toks[k], n1, n2, caps);
    }
  }

  lemma {:induction false} CollidingSame(caps: seq<(string, nat)>, n1: VarNames, n2: VarNames)
    requires SameNames(n1, n2)
    ensures CollidingName(caps, n1) == CollidingName(caps, n2)
  {
    hide KnownVarOf;
    if caps != [] {
      assert caps[0].0 in n1.index.Keys <==> caps[0].0 in n2.index.Keys;
      CollidingSame(caps[1..], n1, n2);
    }
  }

  lemma ArmRenamed(lib: Lib, arm: VariableArm, n1: VarNames, n2: VarNames)
    requires SameNames(n1, n2)
    ensures CompiledArm(lib, arm, n1).Ok? <==> CompiledArm(lib, arm, n2).Ok?
    ensures CompiledArm(lib, arm, n1).Ok? ==>
      && CompiledArm(lib, arm, n1).value.pattern == CompiledArm(lib, arm, n2).value.pattern
      && RenamedParts(CompiledArm(lib, arm, n1).value.value, CompiledArm(lib, arm, n2).value.value, n1, n2)
  {
    hide Compiled, RenamedParts, SameNames, CollidingName;
    var caps := CaptureScope(0, []);
    if arm.pattern.Some? && lib.regex(arm.pattern.value).Some? {
      caps := lib.regex(arm.pattern.value).value;
      CollidingSame(caps.names, n1, n2);
    }
    CompiledRenamed(lib, arm.value, n1, n2, Some(caps));
  }

  /** Whether a definition compiles does not depend on the slot order. */
  lemma CompilesSame(lib: Lib, body: VariableBody, n1: VarNames, n2: VarNames)
    requires SameNames(n1, n2) && Compiles(lib, body, n1)
    ensures Compiles(lib, body, n2)
  {
    hide CompiledArm, SameNames;
    if body.MatchOn? {
      forall k | 0 <= k < |body.arms| ensures CompiledArm(lib, body.arms[k], n2).Ok? {
        ArmRenamed(lib, body.arms[k], n1, n2);
      }
    }
  }

  lemma BodyRenamed(lib: Lib, body: VariableBody, n1: VarNames, n2: VarNames, b1: VarBody, b2: VarBody)
    requires SameNames(n1, n2) && IsCompiled(lib, body, n1, b1) && IsCompiled(lib, body, n2, b2)
    ensures RenamedBody(b1, b2, n1, n2)
  {
    hide CompiledArm, SameNames, Compiled, RenamedParts;
    match body {
      case Constant(text) => CompiledRenamed(lib, text, n1, n2, None);
      case MatchOn(input, arms) =>
        CompiledRenamed(lib, input, n1, n2, None);
        forall k | 0 <= k < |arms|
          ensures b1.arms[k].pattern == b2.arms[k].pattern
          ensures RenamedParts(b1.arms[k].value, b2.arms[k].value, n1, n2)
        {
          ArmRenamed(lib, arms[k], n1, n2);
        }
    }
  }

  lemma RenamedConcat(a1: Template, a2: Template, b1: Template, b2: Template, n1: VarNames, n2: VarNames)
    requires RenamedParts(a1, a2, n1, n2) && RenamedParts(b1, b2, n1, n2)
    ensures RenamedParts(a1 + b1, a2 + b2, n1, n2)
  {
  }

  lemma {:induction false} RenamedArms(a1: seq<Arm>, a2: seq<Arm>, n1: VarNames, n2: VarNames)
    requires |a1| == |a2|
    requires forall k :: 0 <= k < |a1| ==> RenamedParts(a1[k].value, a2[k].value, n1, n2)
    ensures RenamedParts(ArmParts(a1), ArmParts(a2), n1, n2)
    decreases |a1|
  {
    if a1 != [] {
      hide RenamedParts;
      RenamedArms(a1[1..], a2[1..], n1, n2);
      RenamedConcat(a1[0].value, a2[0].value, ArmParts(a1[1..]), ArmParts(a2[1..]), n1, n2);
    }
  }

  lemma RenamedAllParts(b1: VarBody, b2: VarBody, n1: VarNames, n2: VarNames)
    requires RenamedBody(b1, b2, n1, n2)
    ensures RenamedParts(AllParts(b1), AllParts(b2), n1, n2)
  {
    hide RenamedParts;
    if b1.Match? {
      RenamedArms(b1.arms, b2.arms, n1, n2);
      RenamedConcat(b1.input, b2.input, ArmParts(b1.arms), ArmParts(b2.arms), n1, n2);
    }
  }

  // -- Meaning by name -----------------------------------------------------------

  /** Both environments give each name the same value. */
  ghost predicate EnvsAgree(n1: VarNames, env1: seq<string>, n2: VarNames, env2: seq<string>) {
    && |env1| == |n1.names| && |env2| == |n2.names|
    && forall i, j :: 0 <= i < |n1.names| && 0 <= j < |n2.names| && n1.names[i] == n2.names[j] ==> env1[i] == env2[j]
  }

  lemma RenamedAlike(
    t1: Template, t2: Template, n1: VarNames, n2: VarNames, ctx: RequestContext, env1: seq<string>, env2: seq<string>)
    requires RenamedParts(t1, t2, n1, n2) && EnvsAgree(n1, env1, n2, env2)
    ensures PartsAlike(t1, ctx, env1, t2, ctx, env2)
  {
    forall k, caps | 0 <= k < |t1| ensures PartText(t1[k], ctx, caps, env1) == PartText(t2[k], ctx, caps, env2) {
      assert Renamed(t1[k], t2[k], n1, n2);
    }
  }

  lemma RenamedBodyAlike(
    b1: VarBody, b2: VarBody, n1: VarNames, n2: VarNames, ctx: RequestContext, env1: seq<string>, env2: seq<string>)
    requires RenamedBody(b1, b2, n1, n2) && EnvsAgree(n1, env1, n2, env2)
    ensures BodiesAlike(b1, ctx, env1, b2, ctx, env2)
  {
    hide RenamedParts, EnvsAgree, PartsAlike;
    match (b1, b2) {
      case (Const(t1), Const(t2)) => RenamedAlike(t1, t2, n1, n2, ctx, env1, env2);
      case (Match(i1, a1), Match(i2, a2)) =>
        RenamedAlike(i1, i2, n1, n2, ctx, env1, env2);
        forall k | 0 <= k < |a1| ensures PartsAlike(a1[k].value, ctx, env1, a2[k].value, ctx, env2) {
          RenamedAlike(a1[k].value, a2[k].value, n1, n2, ctx, env1, env2);
        }
    }
  }

  /** Two scope chains put the same definition in force for every name. */
  ghost predicate SameDefs(f1: seq<VariableDef>, f2: seq<VariableDef>) {
    forall n :: LastDef(f1, n) == LastDef(f2, n)
  }

  /** The slot of table 1 that has the name of slot `j` of table 2. */
  ghost function Twin(t1: VarTable, t2: VarTable, j: nat): nat
    requires SameNames(t1.names, t2.names) && j < |t2.names.names|
  {
    assert t2.names.names[j] in t1.names.index.Keys;
    t1.names.index[t2.names.names[j]]
  }

  lemma BuiltSameNames(lib: Lib, f1: seq<VariableDef>, t1: VarTable, f2: seq<VariableDef>, t2: VarTable)
    requires BuiltFrom(lib, f1, t1) && BuiltFrom(lib, f2, t2) && SameDefs(f1, f2)
    ensures SameNames(t1.names, t2.names)
  {
    hide SlotOf, LastDef;
    var k1, k2 := t1.names.index.Keys, t2.names.index.Keys;
    assert forall n :: n in k1 <==> LastDef(f1, n).Some?;
    assert forall n :: n in k2 <==> LastDef(f2, n).Some?;
  }

  lemma TwinsRenamed(lib: Lib, f1: seq<VariableDef>, t1: VarTable, f2: seq<VariableDef>, t2: VarTable, j: nat)
    requires BuiltFrom(lib, f1, t1) && BuiltFrom(lib, f2, t2) && SameDefs(f1, f2)
    requires SameNames(t1.names, t2.names) && j < |t2.defs|
    ensures Twin(t1, t2, j) < |t1.defs|
    ensures t1.names.names[Twin(t1, t2, j)] == t2.names.names[j]
    ensures RenamedBody(Bodies(t1)[Twin(t1, t2, j)], Bodies(t2)[j], t1.names, t2.names)
  {
    hide IsCompiled, Compiles, LastDef, RenamedBody;
    var i := Twin(t1, t2, j);
    assert t2.names.names[j] in t1.names.index.Keys;
    assert SlotOf(lib, f1, t1, i) && SlotOf(lib, f2, t2, j);
    var name := t2.names.names[j];
    assert LastDef(f1, name) == LastDef(f2, name);
    BodyRenamed(lib, LastDef(f1, name).value.body, t1.names, t2.names, Bodies(t1)[i], Bodies(t2)[j]);
  }

  /** Acyclicity is a matter of names, not of slots. */
  lemma AcyclicByName(lib: Lib, f1: seq<VariableDef>, t1: VarTable, f2: seq<VariableDef>, t2: VarTable)
    requires BuiltFrom(lib, f1, t1) && BuiltFrom(lib, f2, t2) && SameDefs(f1, f2)
    requires NoCycles(Bodies(t1))
    ensures NoCycles(Bodies(t2))
  {
    hide BuiltFrom, SameDefs, NoCycles, Level, Bodies, SameNames, Deps;
    BuiltSameNames(lib, f1, t1, f2, t2);
    SizesAgree(lib, f2, t2);
    var g2 := DepGraph(Bodies(t2));
    forall j | 0 <= j < |t2.defs| ensures Twin(t1, t2, j) < |Bodies(t1)| {
      TwinsRenamed(lib, f1, t1, f2, t2, j);
      SizesAgree(lib, f1, t1);
    }
    var rank: map<nat, nat> := map j: nat | j < |t2.defs| :: Level(Bodies(t1), Twin(t1, t2, j));
    forall v: nat, w: nat | v in g2 && w in g2[v] && w in g2 ensures rank[w] < rank[v] {
      TwinEdge(lib, f1, t1, f2, t2, v, w);
    }
    assert RankedBy<nat>(g2, rank);
    RankedIsAcyclic<nat>(g2, rank);
    assert NoCycles(Bodies(t2)) by { IsNoCycles(Bodies(t2)); }
  }

  lemma SizesAgree(lib: Lib, f: seq<VariableDef>, t: VarTable)
    requires BuiltFrom(lib, f, t)
    ensures |Bodies(t)| == |t.defs| == |t.names.names|
  {
  }

  lemma IsNoCycles(bodies: seq<VarBody>)
    requires Acyclic<nat>(DepGraph(bodies))
    ensures NoCycles(bodies)
  {
  }

  lemma TwinEdge(
    lib: Lib, f1: seq<VariableDef>, t1: VarTable, f2: seq<VariableDef>, t2: VarTable, v: nat, w: nat)
    requires BuiltFrom(lib, f1, t1) && BuiltFrom(lib, f2, t2) && SameDefs(f1, f2)
    requires NoCycles(Bodies(t1)) && SameNames(t1.names, t2.names)
    requires v < |t2.defs| && w < |t2.defs| && w in Deps(Bodies(t2)[v])
    ensures Twin(t1, t2, v) < |Bodies(t1)| && Twin(t1, t2, w) < |Bodies(t1)|
    ensures Level(Bodies(t1), Twin(t1, t2, w)) < Level(Bodies(t1), Twin(t1, t2, v))
  {
    hide BuiltFrom, SameDefs, NoCycles, Level, RenamedBody, AllParts;
    SizesAgree(lib, f1, t1);
    SizesAgree(lib, f2, t2);
    TwinsRenamed(lib, f1, t1, f2, t2, v);
    TwinsRenamed(lib, f1, t1, f2, t2, w);
    var x, y := Twin(t1, t2, v), Twin(t1, t2, w);
    var p1, p2 := AllParts(Bodies(t1)[x]), AllParts(Bodies(t2)[v]);
    RenamedAllParts(Bodies(t1)[x], Bodies(t2)[v], t1.names, t2.names);
    var k :| 0 <= k < |p2| && p2[k].Custom? && p2[k].id == w;
    assert Renamed(p1[k], p2[k], t1.names, t2.names);
    assert p1[k].id == y;
    LevelDescends(Bodies(t1), x, y);
  }

  /** By-name transfer: table 1's values, read in table 2's slot order, solve table 2. */
  lemma TransferSolves(
    lib: Lib, f1: seq<VariableDef>, t1: VarTable, f2: seq<VariableDef>, t2: VarTable,
    ctx: RequestContext, v1: seq<string>, v2: seq<string>)
    requires BuiltFrom(lib, f1, t1) && BuiltFrom(lib, f2, t2) && SameDefs(f1, f2)
    requires SameNames(t1.names, t2.names)
    requires IsSolution(lib, Bodies(t1), ctx, v1)
    requires EnvsAgree(t1.names, v1, t2.names, v2)
    ensures IsSolution(lib, Bodies(t2), ctx, v2)
  {
    hide BuiltFrom, SameDefs, SameNames, RenamedBody, BodiesAlike, BodyText;
    SizesAgree(lib, f1, t1);
    SizesAgree(lib, f2, t2);
    forall j | 0 <= j < |t2.defs| ensures v2[j] == BodyText(lib, Bodies(t2)[j], ctx, v2) {
      TwinsRenamed(lib, f1, t1, f2, t2, j);
      var i := Twin(t1, t2, j);
      RenamedBodyAlike(Bodies(t1)[i], Bodies(t2)[j], t1.names, t2.names, ctx, v1, v2);
      AlikeText(lib, Bodies(t1)[i], ctx, v1, Bodies(t2)[j], ctx, v2);
    }
  }

  /** Variables have the same value under every layering with the same definitions in force. */
  lemma ValuesByName(
    lib: Lib, f1: seq<VariableDef>, t1: VarTable, f2: seq<VariableDef>, t2: VarTable, ctx: RequestContext)
    requires BuiltFrom(lib, f1, t1) && BuiltFrom(lib, f2, t2) && SameDefs(f1, f2)
    requires NoCycles(Bodies(t1)) && NoCycles(Bodies(t2))
    ensures EnvsAgree(t1.names, Values(lib, Bodies(t1), ctx), t2.names, Values(lib, Bodies(t2), ctx))
  {
    hide BuiltFrom, SameDefs, NoCycles, Value, IsSolution, RenamedBody;
    BuiltSameNames(lib, f1, t1, f2, t2);
    SizesAgree(lib, f1, t1);
    SizesAgree(lib, f2, t2);
    var v1, n := Values(lib, Bodies(t1), ctx), |t2.defs|;
    forall j | 0 <= j < n ensures Twin(t1, t2, j) < |v1| {
      TwinsRenamed(lib, f1, t1, f2, t2, j);
    }
    var v2 := seq(n, j requires 0 <= j < n => v1[Twin(t1, t2, j)]);
    assert EnvsAgree(t1.names, v1, t2.names, v2);
    ValuesSolve(lib, Bodies(t1), ctx);
    TransferSolves(lib, f1, t1, f2, t2, ctx, v1, v2);
    forall j | 0 <= j < n ensures v2[j] == Value(lib, Bodies(t2), ctx, j) {
      SolutionUnique(lib, Bodies(t2), ctx, v2, j);
    }
    assert v2 == Values(lib, Bodies(t2), ctx);
  }

  /**
   Late binding: any template text renders the same against a layered table and
   against any other table of the same definitions in force, whatever the layers
   and the order of definitions.
   */
  lemma SameMeaning(
    lib: Lib, f1: seq<VariableDef>, t1: VarTable, f2: seq<VariableDef>, t2: VarTable, s: string, ctx: RequestContext)
    requires BuiltFrom(lib, f1, t1) && BuiltFrom(lib, f2, t2) && SameDefs(f1, f2)
    requires NoCycles(Bodies(t1)) && NoCycles(Bodies(t2))
    ensures Compiled(lib, s, Some(t1.names), None).Ok? && Compiled(lib, s, Some(t2.names), None).Ok?
    ensures Render(Compiled(lib, s, Some(t1.names), None).value, ctx, None, Values(lib, Bodies(t1), ctx))
         == Render(Compiled(lib, s, Some(t2.names), None).value, ctx, None, Values(lib, Bodies(t2), ctx))
  {
    hide BuiltFrom, SameDefs, NoCycles, Values, EnvsAgree, RenamedParts, PartsAlike, Compiled, Render, SameNames;
    CompileNeverFails(lib, s, Some(t1.names));
    CompileNeverFails(lib, s, Some(t2.names));
    var p1, p2 := Compiled(lib, s, Some(t1.names), None).value, Compiled(lib, s, Some(t2.names), None).value;
    BuiltSameNames(lib, f1, t1, f2, t2);
    CompiledRenamed(lib, s, t1.names, t2.names, None);
    ValuesByName(lib, f1, t1, f2, t2, ctx);
    var v1, v2 := Values(lib, Bodies(t1), ctx), Values(lib, Bodies(t2), ctx);
    RenamedAlike(p1, p2, t1.names, t2.names, ctx, v1, v2);
    AlikeRender(p1, ctx, v1, p2, ctx, v2, None);
  }

  // -- Acceptance -----------------------------------------------------------------

  /** Well-named layers whose definitions in force compile and do not depend on themselves. */
  ghost predicate Accepts(lib: Lib, layers: seq<seq<VariableDef>>) {
    && Admissible(layers)
    && exists table :: BuiltFrom(lib, Flatten(layers), table) && NoCycles(Bodies(table))
  }

  lemma AddLayerFlat(layers: seq<seq<VariableDef>>, l: nat)
    requires l < |layers|
    ensures Flatten(layers[..l + 1]) == Flatten(layers[..l]) + layers[l]
  {
    TakeSnoc(layers, l);
  }

  /** A definition in force that does not compile rules out every table. */
  lemma NoTable(lib: Lib, flat: seq<VariableDef>, names: VarNames, chosen: seq<VariableDef>, i: nat)
    requires Layout(flat, names, chosen) && i < |chosen| && !Compiles(lib, chosen[i].body, names)
    ensures forall table :: !BuiltFrom(lib, flat, table)
  {
    hide Compiles, LastDef, IsCompiled;
    forall table ensures !BuiltFrom(lib, flat, table) {
      if BuiltFrom(lib, flat, table) {
        assert names.index.Keys == table.names.index.Keys;
        var j := table.names.index[names.names[i]];
        assert SlotOf(lib, flat, table, j);
        CompilesSame(lib, chosen[i].body, table.names, names);
      }
    }
  }

  lemma NoAcyclicTable(lib: Lib, flat: seq<VariableDef>, table: VarTable)
    requires BuiltFrom(lib, flat, table) && !NoCycles(Bodies(table))
    ensures forall t :: BuiltFrom(lib, flat, t) ==> !NoCycles(Bodies(t))
  {
    hide BuiltFrom, NoCycles;
    forall t | BuiltFrom(lib, flat, t) ensures !NoCycles(Bodies(t)) {
      if NoCycles(Bodies(t)) {
        AcyclicByName(lib, flat, t, flat, table);
      }
    }
  }

  /** `build_layered`'s first loop: names and the definitions in force. */
  method Collect(layers: seq<seq<VariableDef>>)
    returns (error: Option<BuildError>, names: VarNames, chosen: seq<VariableDef>)
    ensures error.None? <==> Admissible(layers)
    ensures error.None? ==> Layout(Flatten(layers), names, chosen)
    ensures error.Some? ==> error.value.InvalidName? || error.value.ReservedName? || error.value.DuplicateName?
  {
    names, chosen := NO_NAMES, [];
    assert Flatten(layers[..0]) == [] && Layout([], names, chosen);
    hide Layout, LayerOk;
    for l := 0 to |layers|
      invariant forall k :: 0 <= k < l ==> LayerOk(layers[k])
      invariant Layout(Flatten(layers[..l]), names, chosen)
    {
      error, names, chosen := AddLayer(layers[l], Flatten(layers[..l]), names, chosen);
      if error.Some? {
        return;
      }
      AddLayerFlat(layers, l);
    }
    assert layers[..|layers|] == layers;
    error := None;
  }

  /** The second loop: compile what is in force. */
  method CompileAll(lib: Lib, ghost flat: seq<VariableDef>, names: VarNames, chosen: seq<VariableDef>)
    returns (r: Result<VarTable, BuildError>)
    requires Layout(flat, names, chosen)
    ensures r.Ok? ==> BuiltFrom(lib, flat, r.value) && r.value.names == names
    ensures r.Err? ==> r.error.BadArm? && forall table :: !BuiltFrom(lib, flat, table)
  {
    hide Compiles, IsCompiled, LastDef, BuiltFrom;
    var defs: seq<VarDef> := [];
    for i := 0 to |chosen|
      invariant |defs| == i
      invariant forall j :: 0 <= j < i ==> SlotReady(lib, chosen[j], names, defs[j])
    {
      var body := CompileBody(lib, chosen[i], names);
      if body.Err? {
        NoTable(lib, flat, names, chosen, i);
        return Err(body.error);
      }
      LayoutName(flat, names, chosen, i);
      defs := defs + [VarDef(chosen[i].name, body.value, NO_NEEDS)];
    }
    r := Ok(VarTable(defs, names));
    AllReady(lib, flat, names, chosen, defs);
  }

  ghost predicate SlotReady(lib: Lib, spec: VariableDef, names: VarNames, def: VarDef) {
    def.name == spec.name && Compiles(lib, spec.body, names) && IsCompiled(lib, spec.body, names, def.body)
  }

  lemma {:induction false} LastDefName(flat: seq<VariableDef>, n: string)
    ensures LastDef(flat, n).Some? ==> LastDef(flat, n).value.name == n
    decreases |flat|
  {
    if flat != [] {
      LastDefName(flat[..|flat| - 1], n);
    }
  }

  lemma LayoutName(flat: seq<VariableDef>, names: VarNames, chosen: seq<VariableDef>, i: nat)
    requires Layout(flat, names, chosen) && i < |chosen|
    ensures chosen[i].name == names.names[i]
  {
    hide LastDef;
    LastDefName(flat, names.names[i]);
  }

  lemma AllReady(
    lib: Lib, flat: seq<VariableDef>, names: VarNames, chosen: seq<VariableDef>, defs: seq<VarDef>)
    requires Layout(flat, names, chosen) && |defs| == |chosen|
    requires forall j :: 0 <= j < |defs| ==> SlotReady(lib, chosen[j], names, defs[j])
    ensures BuiltFrom(lib, flat, VarTable(defs, names))
  {
    hide Compiles, IsCompiled, LastDef;
    forall i | 0 <= i < |defs| ensures SlotOf(lib, flat, VarTable(defs, names), i) {
      LayoutName(flat, names, chosen, i);
    }
  }

  lemma BuiltNeedsFree(lib: Lib, flat: seq<VariableDef>, a: VarTable, b: VarTable)
    requires BuiltFrom(lib, flat, a) && b.names == a.names && Bodies(b) == Bodies(a) && |b.defs| == |a.defs|
    requires forall i :: 0 <= i < |b.defs| ==> b.defs[i].name == a.defs[i].name
    ensures BuiltFrom(lib, flat, b)
  {
    hide Compiles, IsCompiled, LastDef;
    forall i | 0 <= i < |b.defs| ensures SlotOf(lib, flat, b, i) {
      assert SlotOf(lib, flat, a, i);
      assert Bodies(b)[i] == Bodies(a)[i];
    }
  }

  /**
   `build_layered`: succeeds on exactly the acceptable layerings, with a table of
   the definitions in force that is acyclic and carries exact needs.
   */
  method BuildLayered(lib: Lib, layers: seq<seq<VariableDef>>) returns (r: Result<VarTable, BuildError>)
    ensures r.Ok? <==> Accepts(lib, layers)
    ensures r.Ok? ==> BuiltFrom(lib, Flatten(layers), r.value)
    ensures r.Ok? ==> NoCycles(Bodies(r.value)) && AllInScope(Bodies(r.value)) && Analysed(r.value)
    ensures r.Err? && r.error.DependencyCycle? ==>
      exists t :: BuiltFrom(lib, Flatten(layers), t) && IsCycle<nat>(DepGraph(Bodies(t)), r.error.chain)
  {
    hide Admissible, Layout, BuiltFrom, NoCycles, AllInScope, Analysed, Bodies, IsCycle, DepGraph;
    ghost var flat := Flatten(layers);
    var error, names, chosen := Collect(layers);
    if error.Some? {
      return Err(error.value);
    }
    var compiled := CompileAll(lib, flat, names, chosen);
    if compiled.Err? {
      return Err(compiled.error);
    }
    BuiltInScope(lib, flat, compiled.value);
    var bodies := Bodies(compiled.value);
    var chain := CheckCycles(bodies);
    if chain.Some? {
      NoAcyclicTable(lib, flat, compiled.value);
      return Err(DependencyCycle(chain.value));
    }
    var table := ComputeNeeds(compiled.value);
    BuiltNeedsFree(lib, flat, compiled.value, table);
    assert Analysed(table) by { IsAnalysed(table); }
    return Ok(table);
  }

  lemma IsAnalysed(table: VarTable)
    requires forall i :: 0 <= i < |table.defs| ==> Exact(Bodies(table), i, table.defs[i].needs)
    ensures Analysed(table)
  {
  }

  // -- One layer instead of many ------------------------------------------------------

  lemma {:induction false} LastDefListed(flat: seq<VariableDef>, n: string)
    ensures LastDef(flat, n).Some? ==> LastDef(flat, n).value in flat
    decreases |flat|
  {
    if flat != [] {
      LastDefListed(flat[..|flat| - 1], n);
    }
  }

  /** With distinct names, the definition in force is simply the one of that name. */
  lemma {:induction false} LastDefDistinct(flat: seq<VariableDef>, k: nat)
    requires k < |flat| && forall i, j :: 0 <= i < j < |flat| ==> flat[i].name != flat[j].name
    ensures LastDef(flat, flat[k].name) == Some(flat[k])
    decreases |flat|
  {
    if k < |flat| - 1 {
      LastDefDistinct(flat[..|flat| - 1], k);
    }
  }

  lemma {:induction false} LayerOf(layers: seq<seq<VariableDef>>, d: VariableDef) returns (l: nat)
    requires d in Flatten(layers)
    ensures l < |layers| && d in layers[l]
    decreases |layers|
  {
    var n := |layers| - 1;
    if d in layers[n] {
      l := n;
    } else {
      l := LayerOf(layers[..n], d);
    }
  }

  lemma ChosenLayerOk(layers: seq<seq<VariableDef>>, names: VarNames, chosen: seq<VariableDef>)
    requires Admissible(layers) && Layout(Flatten(layers), names, chosen)
    ensures LayerOk(chosen)
  {
    hide LastDef, Flatten, ValidName, IsTaken;
    forall k | 0 <= k < |chosen| ensures ValidName(chosen[k].name) && !IsTaken(chosen[k].name) {
      LastDefListed(Flatten(layers), names.names[k]);
      var l := LayerOf(layers, chosen[k]);
      assert LayerOk(layers[l]);
    }
    forall j, k | 0 <= j < k < |chosen| ensures chosen[j].name != chosen[k].name {
      LayoutName(Flatten(layers), names, chosen, j);
      LayoutName(Flatten(layers), names, chosen, k);
    }
  }

  lemma ChosenSameDefs(flat: seq<VariableDef>, names: VarNames, chosen: seq<VariableDef>)
    requires Layout(flat, names, chosen) && LayerOk(chosen)
    ensures SameDefs(flat, chosen)
  {
    hide LastDef, ValidName, IsTaken;
    forall n ensures LastDef(flat, n) == LastDef(chosen, n) {
      if n in names.index {
        LayoutName(flat, names, chosen, names.index[n]);
        LastDefDistinct(chosen, names.index[n]);
      } else if LastDef(chosen, n).Some? {
        LastDefListed(chosen, n);
        LastDefName(chosen, n);
        var k :| 0 <= k < |chosen| && chosen[k] == LastDef(chosen, n).value;
        LayoutName(flat, names, chosen, k);
      }
    }
  }

  lemma BuiltSameDefs(lib: Lib, f1: seq<VariableDef>, f2: seq<VariableDef>, t: VarTable)
    requires SameDefs(f1, f2)
    ensures BuiltFrom(lib, f1, t) ==> BuiltFrom(lib, f2, t)
  {
    hide LastDef, Compiles, IsCompiled;
    if BuiltFrom(lib, f1, t) {
      forall i | 0 <= i < |t.defs| ensures SlotOf(lib, f2, t, i) {
        assert SlotOf(lib, f1, t, i);
      }
    }
  }

  lemma SameDefsBack(f1: seq<VariableDef>, f2: seq<VariableDef>)
    requires SameDefs(f1, f2)
    ensures SameDefs(f2, f1)
  {
    hide LastDef;
  }

  lemma FlattenOne(layer: seq<VariableDef>)
    ensures Flatten([layer]) == layer && (LayerOk(layer) ==> Admissible([layer]))
  {
    assert [layer][..0] == [];
  }

  /** Acceptance depends only on which tables can be built. */
  lemma AcceptsSame(lib: Lib, a: seq<seq<VariableDef>>, b: seq<seq<VariableDef>>)
    requires Admissible(a) && Admissible(b)
    requires forall t :: BuiltFrom(lib, Flatten(a), t) <==> BuiltFrom(lib, Flatten(b), t)
    ensures Accepts(lib, a) <==> Accepts(lib, b)
  {
    hide BuiltFrom, NoCycles, Flatten, Admissible;
  }

  /**
   Shadowing is all that layers do: writing the definitions in force as one layer
   is accepted exactly when the layers are (and then `SameMeaning` applies).
   */
  lemma OneLayerSuffices(lib: Lib, layers: seq<seq<VariableDef>>, names: VarNames, chosen: seq<VariableDef>)
    requires Admissible(layers) && Layout(Flatten(layers), names, chosen)
    ensures Flatten([chosen]) == chosen && SameDefs(Flatten(layers), chosen)
    ensures Accepts(lib, layers) <==> Accepts(lib, [chosen])
  {
    hide Layout, LayerOk, Admissible, Accepts, BuiltFrom, Flatten, SameDefs;
    ChosenLayerOk(layers, names, chosen);
    ChosenSameDefs(Flatten(layers), names, chosen);
    FlattenOne(chosen);
    SameDefsBack(Flatten(layers), chosen);
    forall t ensures BuiltFrom(lib, Flatten(layers), t) <==> BuiltFrom(lib, chosen, t) {
      BuiltSameDefs(lib, Flatten(layers), chosen, t);
      BuiltSameDefs(lib, chosen, Flatten(layers), t);
    }
    AcceptsSame(lib, layers, [chosen]);
  }
}
