/**
 Compiling `variable` blocks into one table (src/vars.rs `build_layered`,
 `compile_body`, `compile_arm`): scopes are layered, an inner definition takes
 over its name's slot, and references bind late.
 */
module VarBuild {
  import opened Common
  import opened Templates
  import opened Variables
  import opened VarCycles
  import opened VarNeedsAnalysis

  datatype VariableArm = VariableArm(pattern: Option<string>, value: string, line: nat)

  datatype VariableBody =
    | Constant(text: string)
    | MatchOn(input: string, arms: seq<VariableArm>)

  datatype VariableDef = VariableDef(name: string, body: VariableBody, line: nat)

  datatype ArmError =
    | BadPattern(pattern: string)
    | CaptureCollision(name: string)
    | BadGroup(error: CaptureError)
    | UnreachableArms

  datatype BuildError =
    | InvalidName(line: nat, name: string)
    | ReservedName(line: nat, name: string)
    | DuplicateName(line: nat, name: string)
    | BadArm(line: nat, name: string, error: ArmError)
    | DependencyCycle(chain: seq<nat>)

  // -- Names ----------------------------------------------------------------

  const RESERVED: seq<string> := ["request_id", "port", "header"]

  predicate ValidName(s: string) {
    && s != [] && 'a' <= s[0] <= 'z'
    && forall i :: 0 < i < |s| ==> 'a' <= s[i] <= 'z' || '0' <= s[i] <= '9' || s[i] == '_'
  }

  predicate IsTaken(name: string) {
    KnownVarOf(name).Some? || name in RESERVED
  }

  // -- One definition ---------------------------------------------------------

  /** A capture name must not hide a variable. */
  function CollidingName(caps: seq<(string, nat)>, names: VarNames): Option<string> {
    if caps == [] then None
    else if KnownVarOf(caps[0].0).Some? || names.Get(caps[0].0).Some? then Some(caps[0].0)
    else CollidingName(caps[1..], names)
  }

  function ArmValue(lib: Lib, arm: VariableArm, names: VarNames, caps: CaptureScope): Result<Arm, ArmError> {
    match Compiled(lib, arm.value, Some(names), Some(caps))
    case Ok(t) => Ok(Arm(arm.pattern, t))
    case Err(e) => Err(BadGroup(e))
  }

  /** `compile_arm`. */
  function CompiledArm(lib: Lib, arm: VariableArm, names: VarNames): Result<Arm, ArmError> {
    match arm.pattern
    case None => ArmValue(lib, arm, names, CaptureScope(0, []))
    case Some(pat) =>
      match lib.regex(pat)
      case None => Err(BadPattern(pat))
      case Some(caps) =>
        match CollidingName(caps.names, names)
        case Some(n) => Err(CaptureCollision(n))
        case None => ArmValue(lib, arm, names, caps)
  }

  /** The `_` arm may only come last. */
  predicate Reachable(arms: seq<VariableArm>, k: nat)
    requires k < |arms|
  {
    arms[k].pattern.Some? || k + 1 == |arms|
  }

  ghost predicate Compiles(lib: Lib, body: VariableBody, names: VarNames) {
    body.MatchOn? ==> forall k :: 0 <= k < |body.arms| ==>
      Reachable(body.arms, k) && CompiledArm(lib, body.arms[k], names).Ok?
  }

  /** `b` is what the definition text `body` compiles to. */
  ghost predicate IsCompiled(lib: Lib, body: VariableBody, names: VarNames, b: VarBody) {
    match body
    case Constant(text) => b.Const? && Compiled(lib, text, Some(names), None) == Ok(b.t)
    case MatchOn(input, arms) =>
      && b.Match? && Compiled(lib, input, Some(names), None) == Ok(b.input)
      && |b.arms| == |arms|
      && forall k :: 0 <= k < |arms| ==> CompiledArm(lib, arms[k], names) == Ok(b.arms[k])
  }

  /** `compile_body`. */
  method CompileBody(lib: Lib, spec: VariableDef, names: VarNames) returns (r: Result<VarBody, BuildError>)
    ensures r.Ok? <==> Compiles(lib, spec.body, names)
    ensures r.Ok? ==> IsCompiled(lib, spec.body, names, r.value)
    ensures r.Err? ==> r.error.BadArm?
  {
    hide CompiledArm, Compiled;
    match spec.body {
      case Constant(text) =>
        CompileNeverFails(lib, text, Some(names));
        var t := Build(lib, text, Some(names), None);
        return Ok(Const(t.value));
      case MatchOn(input, arms) =>
        CompileNeverFails(lib, input, Some(names));
        var t := Build(lib, input, Some(names), None);
        var compiled: seq<Arm> := [];
        for k := 0 to |arms|
          invariant |compiled| == k
          invariant forall j :: 0 <= j < k ==>
            Reachable(arms, j) && CompiledArm(lib, arms[j], names) == Ok(compiled[j])
        {
          if arms[k].pattern.None? && k + 1 != |arms| {
            assert !Reachable(arms, k);
            return Err(BadArm(arms[k].line, spec.name, UnreachableArms));
          }
          var arm := CompiledArm(lib, arms[k], names);
          if arm.Err? {
            return Err(BadArm(arms[k].line, spec.name, arm.error));
          }
          compiled := compiled + [arm.value];
        }
        return Ok(Match(t.value, compiled));
    }
  }

  lemma CompiledBodyInScope(lib: Lib, body: VariableBody, names: VarNames, b: VarBody)
    requires names.Valid() && IsCompiled(lib, body, names, b)
    ensures BodyInScope(b, |names.names|)
  {
    hide Compiled, InScope, CollidingName;
    match body {
      case Constant(text) => CompiledInScope(lib, text, names, None);
      case MatchOn(input, arms) =>
        CompiledInScope(lib, input, names, None);
        forall k | 0 <= k < |arms| ensures InScope(b.arms[k].value, |names.names|) {
          var caps := if arms[k].pattern.Some? then lib.regex(arms[k].pattern.value).value else CaptureScope(0, []);
          assert CompiledArm(lib, arms[k], names) == Ok(b.arms[k]);
          CompiledInScope(lib, arms[k].value, names, Some(caps));
        }
        ArmsInScope(b.arms, |names.names|);
        InScopeConcat(b.input, ArmParts(b.arms), |names.names|);
    }
  }

  lemma InScopeConcat(a: Template, b: Template, n: nat)
    requires InScope(a, n) && InScope(b, n)
    ensures InScope(a + b, n)
  {
  }

  lemma {:induction false} ArmsInScope(arms: seq<Arm>, n: nat)
    requires forall k :: 0 <= k < |arms| ==> InScope(arms[k].value, n)
    ensures InScope(ArmParts(arms), n)
  {
    hide InScope;
    if arms == [] {
      assert InScope([], n) by { NothingInScope(n); }
    } else {
      ArmsInScope(arms[1..], n);
      InScopeConcat(arms[0].value, ArmParts(arms[1..]), n);
    }
  }

  lemma NothingInScope(n: nat)
    ensures InScope([], n)
  {
  }

  // -- Layers ------------------------------------------------------------------

  function Flatten(layers: seq<seq<VariableDef>>): seq<VariableDef> {
    if layers == [] then [] else Flatten(layers[..|layers| - 1]) + layers[|layers| - 1]
  }

  /** The definition in force: the last one, outermost scope first. */
  function LastDef(flat: seq<VariableDef>, name: string): Option<VariableDef> {
    if flat == [] then None
    else if flat[|flat| - 1].name == name then Some(flat[|flat| - 1])
    else LastDef(flat[..|flat| - 1], name)
  }

  ghost predicate LayerOk(layer: seq<VariableDef>) {
    && (forall k :: 0 <= k < |layer| ==> ValidName(layer[k].name) && !IsTaken(layer[k].name))
    && (forall j, k :: 0 <= j < k < |layer| ==> layer[j].name != layer[k].name)
  }

  ghost predicate Admissible(layers: seq<seq<VariableDef>>) {
    forall l :: 0 <= l < |layers| ==> LayerOk(layers[l])
  }

  /**
   Each name has exactly one slot, `names` and `index` are inverse, and the slot
   holds the innermost definition.
   */
  ghost predicate Layout(flat: seq<VariableDef>, names: VarNames, chosen: seq<VariableDef>) {
    && names.Valid() && |chosen| == |names.names|
    && (forall n :: n in names.index <==> LastDef(flat, n).Some?)
    && (forall i :: 0 <= i < |chosen| ==> LastDef(flat, names.names[i]) == Some(chosen[i]))
  }

  lemma LastDefSnoc(flat: seq<VariableDef>, d: VariableDef)
    ensures forall n :: LastDef(flat + [d], n) == if d.name == n then Some(d) else LastDef(flat, n)
  {
    assert (flat + [d])[..|flat|] == flat;
  }

  lemma LayoutShadow(flat: seq<VariableDef>, names: VarNames, chosen: seq<VariableDef>, d: VariableDef)
    requires Layout(flat, names, chosen) && names.Get(d.name).Some?
    ensures names.Get(d.name).value < |chosen|
    ensures Layout(flat + [d], names, chosen[names.Get(d.name).value := d])
  {
    hide LastDef;
    LastDefSnoc(flat, d);
  }

  lemma LayoutFresh(flat: seq<VariableDef>, names: VarNames, chosen: seq<VariableDef>, d: VariableDef)
    requires Layout(flat, names, chosen) && names.Get(d.name).None?
    ensures Layout(flat + [d], names.Insert(d.name), chosen + [d])
  {
    hide LastDef;
    LastDefSnoc(flat, d);
    var names' := names.Insert(d.name);
    assert forall i :: 0 <= i < |names.names| ==> names'.names[i] == names.names[i] && names.names[i] != d.name;
  }

  /** One layer of `build_layered`'s first loop. */
  method AddLayer(layer: seq<VariableDef>, ghost flat: seq<VariableDef>, names: VarNames, chosen: seq<VariableDef>)
    returns (error: Option<BuildError>, names': VarNames, chosen': seq<VariableDef>)
    requires Layout(flat, names, chosen)
    ensures error.None? <==> LayerOk(layer)
    ensures error.None? ==> Layout(flat + layer, names', chosen')
    ensures error.Some? ==> error.value.InvalidName? || error.value.ReservedName? || error.value.DuplicateName?
  {
    hide ValidName, IsTaken, Layout;
    names', chosen' := names, chosen;
    var seen: set<string> := {};
    assert flat + layer[..0] == flat;
    for k := 0 to |layer|
      invariant seen == set j | 0 <= j < k :: layer[j].name
      invariant forall j :: 0 <= j < k ==> ValidName(layer[j].name) && !IsTaken(layer[j].name)
      invariant forall i, j :: 0 <= i < j < k ==> layer[i].name != layer[j].name
      invariant Layout(flat + layer[..k], names', chosen')
    {
      var spec := layer[k];
      if !ValidName(spec.name) {
        return Some(InvalidName(spec.line, spec.name)), names, chosen;
      }
      if IsTaken(spec.name) {
        return Some(ReservedName(spec.line, spec.name)), names, chosen;
      }
      if spec.name in seen {
        return Some(DuplicateName(spec.line, spec.name)), names, chosen;
      }
      seen := seen + {spec.name};
      TakeSnoc(layer, k);
      ConcatAssoc(flat, layer[..k], [spec]);
      match names'.Get(spec.name) {
        case Some(id) =>
          LayoutShadow(flat + layer[..k], names', chosen', spec);
          chosen' := chosen'[id := spec];
        case None =>
          LayoutFresh(flat + layer[..k], names', chosen', spec);
          names' := names'.Insert(spec.name);
          chosen' := chosen' + [spec];
      }
    }
    assert layer[..|layer|] == layer;
    error := None;
  }

  /** A table that compiles the innermost definition of every name. */
  ghost predicate BuiltFrom(lib: Lib, flat: seq<VariableDef>, table: VarTable) {
    && table.names.Valid() && |table.defs| == |table.names.names|
    && (forall n :: n in table.names.index <==> LastDef(flat, n).Some?)
    && (forall i :: 0 <= i < |table.defs| ==> SlotOf(lib, flat, table, i))
  }

  ghost predicate SlotOf(lib: Lib, flat: seq<VariableDef>, table: VarTable, i: nat)
    requires i < |table.defs| == |table.names.names|
  {
    var name := table.names.names[i];
    && table.defs[i].name == name
    && LastDef(flat, name).Some?
    && Compiles(lib, LastDef(flat, name).value.body, table.names)
    && IsCompiled(lib, LastDef(flat, name).value.body, table.names, table.defs[i].body)
  }

  lemma BuiltInScope(lib: Lib, flat: seq<VariableDef>, table: VarTable)
    requires BuiltFrom(lib, flat, table)
    ensures AllInScope(Bodies(table))
  {
    hide IsCompiled, Compiles, LastDef, BodyInScope;
    var bodies := Bodies(table);
    forall i | 0 <= i < |bodies| ensures BodyInScope(bodies[i], |bodies|) {
      assert SlotOf(lib, flat, table, i);
      CompiledBodyInScope(lib, LastDef(flat, table.names.names[i]).value.body, table.names, bodies[i]);
    }
  }
}
