/**
 What config-defined variables stand for, in terms of the text of their definitions: which
 names are allowed, what a reference to a variable shows, and how a definition gives its value.
 */
module VarMeaning {
  import opened Common
  import opened Templates
  import opened References
  import opened Variables
  import opened VarBuild
  import opened VarLayers

  // -- Names ------------------------------------------------------------------------------

  const FORBIDDEN: seq<string> := BUILTIN_NAMES + ["request_id", "port", "header"]

  /** A lower-case letter, then lower-case letters, digits and underscores; nothing spoken for. */
  ghost predicate MayBeDefined(name: string) {
    && name != "" && name[0] in "abcdefghijklmnopqrstuvwxyz"
    && (forall i :: 0 <= i < |name| ==>
          name[i] in "abcdefghijklmnopqrstuvwxyz" || name[i] in "0123456789" || name[i] == '_')
    && name !in FORBIDDEN
  }

  lemma LetterIn(c: char)
    ensures c in "abcdefghijklmnopqrstuvwxyz" <==> 'a' <= c <= 'z'
  {
    if 'a' <= c <= 'z' {
      assert "abcdefghijklmnopqrstuvwxyz"[(c as int) - ('a' as int)] == c;
    }
  }

  lemma DigitIn(c: char)
    ensures c in "0123456789" <==> '0' <= c <= '9'
  {
    if '0' <= c <= '9' {
      assert "0123456789"[(c as int) - ('0' as int)] == c;
    }
  }

  lemma NameAllowed(name: string)
    ensures MayBeDefined(name) <==> ValidName(name) && !IsTaken(name)
  {
    TakenNames(name);
    hide IsTaken, FORBIDDEN;
    if name != "" {
      LetterIn(name[0]);
      forall i | 0 <= i < |name|
        ensures name[i] in "abcdefghijklmnopqrstuvwxyz" <==> 'a' <= name[i] <= 'z'
        ensures name[i] in "0123456789" <==> '0' <= name[i] <= '9'
      {
        LetterIn(name[i]);
        DigitIn(name[i]);
      }
    }
  }

  lemma TakenNames(name: string)
    ensures IsTaken(name) <==> name in FORBIDDEN
  {
    hide KnownVarOf;
    if name in BUILTIN_NAMES {
      var i :| 0 <= i < |BUILTIN_NAMES| && BUILTIN_NAMES[i] == name;
      BuiltinKnown(name, i);
    } else {
      BuiltinKnown(name, 12);
    }
  }

  /** Layers are admitted exactly when every name may be defined and no layer repeats one. */
  lemma NamesAllowed(layers: seq<seq<VariableDef>>)
    ensures Admissible(layers) <==>
      && (forall l, k :: 0 <= l < |layers| && 0 <= k < |layers[l]| ==> MayBeDefined(layers[l][k].name))
      && (forall l, j, k :: 0 <= l < |layers| && 0 <= j < k < |layers[l]| ==> layers[l][j].name != layers[l][k].name)
  {
    hide ValidName, IsTaken, MayBeDefined;
    forall l, k | 0 <= l < |layers| && 0 <= k < |layers[l]|
      ensures MayBeDefined(layers[l][k].name) <==> ValidName(layers[l][k].name) && !IsTaken(layers[l][k].name)
    {
      NameAllowed(layers[l][k].name);
    }
    assert Admissible(layers) <==> forall l :: 0 <= l < |layers| ==> LayerOk(layers[l]);
  }

  // -- References ----------------------------------------------------------------------------

  /** Variables of an accepted table are well named and hide nothing built in. */
  lemma VariableWellNamed(lib: Lib, layers: seq<seq<VariableDef>>, table: VarTable, name: string)
    requires Admissible(layers) && BuiltFrom(lib, Flatten(layers), table) && name in table.names.index
    ensures ValidName(name) && !IsTaken(name)
  {
    hide LastDef, Flatten, ValidName, IsTaken, SlotOf;
    var d := LastDef(Flatten(layers), name).value;
    LastDefListed(Flatten(layers), name);
    LastDefName(Flatten(layers), name);
    var l := LayerOf(layers, d);
    assert LayerOk(layers[l]);
  }

  lemma {:induction false} NoCollision(caps: seq<(string, nat)>, names: VarNames, name: string)
    requires CollidingName(caps, names).None? && name in names.index
    ensures Assoc(caps, name).None?
  {
    hide KnownVarOf;
    if caps != [] {
      NoCollision(caps[1..], names, name);
    }
  }

  lemma NoHeaderOrDigit(lib: Lib, name: string)
    requires ValidName(name)
    ensures HeaderOf(lib, name).None? && DigitGroup(name).None?
  {
    assert HEADER_PREFIX[6] == ':';
    assert |name| > 6 ==> name[6] != ':';
  }

  /**
   A reference to a defined variable binds to that variable in every template, match arms
   with captures included: no built-in, header, capture name or group number is in its way.
   */
  lemma ReferenceBinds(
    lib: Lib, layers: seq<seq<VariableDef>>, table: VarTable, name: string, fallback: Option<string>, raw: string,
    caps: Option<CaptureScope>)
    requires Admissible(layers) && BuiltFrom(lib, Flatten(layers), table) && name in table.names.index
    requires caps.Some? ==> CollidingName(caps.value.names, table.names).None?
    ensures PartOf(lib, Token(name, fallback, raw), Some(table.names), caps)
         == Ok(Custom(table.names.index[name], fallback))
  {
    hide Admissible, BuiltFrom, ValidName, HeaderOf, DigitGroup, CollidingName, KnownVarOf, Assoc;
    VariableWellNamed(lib, layers, table, name);
    NoHeaderOrDigit(lib, name);
    if caps.Some? {
      NoCollision(caps.value.names, table.names, name);
    }
  }

  lemma NameHasNoBraces(name: string)
    requires ValidName(name)
    ensures IsName(name)
  {
  }

  /**
   From configuration text to response text: in any template, match arms included, `{name}` shows
   the variable's value, with any fallback.
   */
  lemma ReferenceShows(layers: seq<seq<VariableDef>>, table: VarTable, name: string, s: Setting)
    requires Admissible(layers) && BuiltFrom(s.lib, Flatten(layers), table) && name in table.names.index
    requires s.vars == Some(table.names)
    requires s.caps.Some? ==> CollidingName(s.caps.value.names, table.names).None?
    requires NoCycles(Bodies(table)) && s.env == Values(s.lib, Bodies(table), s.ctx)
    ensures table.names.index[name] < |s.env| && Shows(s, name, s.env[table.names.index[name]])
  {
    hide Admissible, NoCycles, PartOf, ValidName, IsTaken, SlotOf, CollidingName;
    var id := table.names.index[name];
    assert id < |s.env|;
    var value := s.env[id];
    VariableWellNamed(s.lib, layers, table, name);
    NameHasNoBraces(name);
    hide BuiltFrom, Values, Bodies, Written, TextShows, IsFallback, IsName;
    forall fallback | IsFallback(fallback)
      ensures TextShows(s, Written(name, fallback),
                        if value != "" then value else if fallback.Some? then fallback.value else "")
    {
      ReferenceBinds(s.lib, layers, table, name, fallback, Written(name, fallback), s.caps);
      PartShows(s, name, fallback, Custom(id, fallback));
    }
  }

  // -- Definitions ---------------------------------------------------------------------------

  /** The definition in force is the last one of its name. */
  lemma {:induction false} InForce(flat: seq<VariableDef>, name: string, k: nat)
    requires k < |flat| && flat[k].name == name && forall j :: k < j < |flat| ==> flat[j].name != name
    ensures LastDef(flat, name) == Some(flat[k])
    decreases |flat|
  {
    if k < |flat| - 1 {
      InForce(flat[..|flat| - 1], name, k);
    }
  }

  lemma InForceBody(lib: Lib, flat: seq<VariableDef>, table: VarTable, k: nat)
    requires BuiltFrom(lib, flat, table) && k < |flat|
    requires forall j :: k < j < |flat| ==> flat[j].name != flat[k].name
    ensures flat[k].name in table.names.index && table.names.index[flat[k].name] < |Bodies(table)|
    ensures IsCompiled(lib, flat[k].body, table.names, Bodies(table)[table.names.index[flat[k].name]])
  {
    hide IsCompiled, LastDef;
    InForce(flat, flat[k].name, k);
    assert SlotOf(lib, flat, table, table.names.index[flat[k].name]);
  }

  /** The value of the variable that `flat[k]` defines. */
  ghost function ValueOf(lib: Lib, flat: seq<VariableDef>, table: VarTable, k: nat, ctx: RequestContext): string
    requires BuiltFrom(lib, flat, table) && k < |flat| && NoCycles(Bodies(table))
    requires forall j :: k < j < |flat| ==> flat[j].name != flat[k].name
  {
    InForceBody(lib, flat, table, k);
    Values(lib, Bodies(table), ctx)[table.names.index[flat[k].name]]
  }

  /** What a template text reads in a table. */
  ghost predicate Reads(
    lib: Lib, table: VarTable, caps: Option<CaptureScope>, groups: Option<Captures>, ctx: RequestContext,
    text: string, shown: string)
    requires NoCycles(Bodies(table))
  {
    TextShows(Setting(lib, Some(table.names), caps, ctx, groups, Values(lib, Bodies(table), ctx)), text, shown)
  }

  /** A constant's value is what its text shows. */
  lemma ConstantValue(lib: Lib, flat: seq<VariableDef>, table: VarTable, k: nat, ctx: RequestContext)
    requires BuiltFrom(lib, flat, table) && k < |flat| && NoCycles(Bodies(table))
    requires forall j :: k < j < |flat| ==> flat[j].name != flat[k].name
    requires flat[k].body.Constant?
    ensures Reads(lib, table, None, None, ctx, flat[k].body.text, ValueOf(lib, flat, table, k, ctx))
  {
    hide BuiltFrom, NoCycles, Compiled, Render, Value, Bodies;
    InForceBody(lib, flat, table, k);
    ValueUnfold(lib, Bodies(table), ctx, table.names.index[flat[k].name]);
  }

  /** The captures an arm's value may name: those of its pattern, or none for `_`. */
  ghost function ScopeOf(lib: Lib, arm: VariableArm): Option<CaptureScope> {
    if arm.pattern.Some? then lib.regex(arm.pattern.value) else Some(CaptureScope(0, []))
  }

  /** What an arm captures from `input`; None when it does not match. */
  ghost function Captured(lib: Lib, arm: VariableArm, input: string): Option<Option<Captures>> {
    if arm.pattern.None? then Some(None)
    else
      match lib.captures(arm.pattern.value, input)
      case Some(g) => Some(Some(g))
      case None => None
  }

  /**
   A match's value: the input's text is tried against the patterns in order, and the first arm
   that matches shows its value text with its own captures; without one the value is empty.
   */
  lemma MatchValue(
    lib: Lib, flat: seq<VariableDef>, table: VarTable, k: nat, ctx: RequestContext, input: string, a: nat)
    requires BuiltFrom(lib, flat, table) && k < |flat| && NoCycles(Bodies(table))
    requires forall j :: k < j < |flat| ==> flat[j].name != flat[k].name
    requires flat[k].body.MatchOn? && a <= |flat[k].body.arms|
    requires Reads(lib, table, None, None, ctx, flat[k].body.input, input)
    requires forall j :: 0 <= j < a ==> Captured(lib, flat[k].body.arms[j], input).None?
    requires a < |flat[k].body.arms| ==> Captured(lib, flat[k].body.arms[a], input).Some?
    ensures a == |flat[k].body.arms| ==> ValueOf(lib, flat, table, k, ctx) == ""
    ensures a < |flat[k].body.arms| ==>
      var arm := flat[k].body.arms[a];
      Reads(lib, table, ScopeOf(lib, arm), Captured(lib, arm, input).value, ctx, arm.value,
            ValueOf(lib, flat, table, k, ctx))
  {
    hide BuiltFrom, NoCycles, Compiled, Render, Value, Bodies, CollidingName;
    InForceBody(lib, flat, table, k);
    var id := table.names.index[flat[k].name];
    ValueUnfold(lib, Bodies(table), ctx, id);
    var arms, body := flat[k].body.arms, Bodies(table)[id];
    forall j | 0 <= j < |arms| ensures ArmMatches(lib, body.arms[j], input) <==> Captured(lib, arms[j], input).Some? {
      assert CompiledArm(lib, arms[j], table.names) == Ok(body.arms[j]);
    }
    FirstArmDecides(lib, body.arms, input, ctx, Values(lib, Bodies(table), ctx), a);
    if a < |arms| {
      assert CompiledArm(lib, arms[a], table.names) == Ok(body.arms[a]);
    }
  }

  /** No capture name is also that of a variable or a built-in. */
  ghost predicate NoClash(caps: CaptureScope, names: VarNames) {
    forall j :: 0 <= j < |caps.names| ==> caps.names[j].0 !in BUILTIN_NAMES && caps.names[j].0 !in names.index
  }

  lemma {:induction false} ClashIff(caps: seq<(string, nat)>, names: VarNames)
    ensures CollidingName(caps, names).None? <==>
      forall j :: 0 <= j < |caps| ==> caps[j].0 !in BUILTIN_NAMES && caps[j].0 !in names.index
  {
    if caps != [] {
      ClashIff(caps[1..], names);
      BuiltinIff(caps[0].0);
      hide KnownVarOf, BUILTIN_NAMES;
      assert caps == [caps[0]] + caps[1..];
    }
  }

  lemma BuiltinIff(name: string)
    ensures KnownVarOf(name).Some? <==> name in BUILTIN_NAMES
  {
    hide KnownVarOf;
    if name in BUILTIN_NAMES {
      var i :| 0 <= i < |BUILTIN_NAMES| && BUILTIN_NAMES[i] == name;
      BuiltinKnown(name, i);
    } else {
      BuiltinKnown(name, 12);
    }
  }

  /** The token `{d}`, with or without a fallback. */
  ghost predicate IsNumbered(tok: RawTok, d: nat)
    requires 1 <= d <= 9
  {
    tok.Token? && tok.name == DigitName(d)
  }

  /** Every numbered group a value text refers to exists. */
  ghost predicate GroupsExist(value: string, caps: CaptureScope) {
    forall k, d :: 0 <= k < |Tokens(value)| && 1 <= d <= 9 && IsNumbered(Tokens(value)[k], d) ==>
      d <= caps.groups || !NoGroupNamed(caps, DigitName(d))
  }

  lemma DigitNameOnce(d: nat)
    requires 1 <= d <= 9
    ensures forall e :: 1 <= e <= 9 && DigitName(e) == DigitName(d) ==> e == d
  {
    forall e | 1 <= e <= 9 && DigitName(e) == DigitName(d) ensures e == d {
      assert DigitGroup(DigitName(e)) == Some(e);
      assert DigitGroup(DigitName(d)) == Some(d);
    }
  }

  lemma GroupNamedIff(caps: CaptureScope, name: string)
    ensures Assoc(caps.names, name).None? <==> NoGroupNamed(caps, name)
  {
    if NoGroupNamed(caps, name) {
      AssocAt(caps.names, name, |caps.names|);
    } else {
      FirstNamed(caps.names, name);
    }
  }

  lemma {:induction false} FirstNamed(pairs: seq<(string, nat)>, name: string)
    requires exists j :: 0 <= j < |pairs| && pairs[j].0 == name
    ensures Assoc(pairs, name).Some?
  {
    if pairs[0].0 != name {
      var j :| 0 <= j < |pairs| && pairs[j].0 == name;
      assert pairs[1..][j - 1] == pairs[j];
      FirstNamed(pairs[1..], name);
    }
  }

  lemma NumberedFails(lib: Lib, tok: RawTok, names: VarNames, caps: CaptureScope, d: nat)
    requires 1 <= d <= 9 && IsNumbered(tok, d)
    ensures PartOf(lib, tok, Some(names), Some(caps)).Err? <==> d > caps.groups && NoGroupNamed(caps, DigitName(d))
  {
    DigitOpen(lib, d);
    OpenName(lib, tok.name);
    GroupNamedIff(caps, tok.name);
    hide BUILTIN_NAMES, KnownVarOf, NoGroupNamed, DigitName, DigitGroup, HeaderOf, IsOpen, Assoc;
  }

  lemma OthersCompile(lib: Lib, tok: RawTok, names: VarNames, caps: CaptureScope)
    requires forall d :: 1 <= d <= 9 ==> !IsNumbered(tok, d)
    ensures PartOf(lib, tok, Some(names), Some(caps)).Ok?
  {
    hide BUILTIN_NAMES, KnownVarOf, HeaderOf, Assoc;
    if tok.Token? {
      forall d | 1 <= d <= 9 ensures tok.name != DigitName(d) {
        assert !IsNumbered(tok, d);
      }
      NotADigit(tok.name);
    }
  }

  lemma SameNumber(tok: RawTok, d: nat, e: nat)
    requires 1 <= d <= 9 && 1 <= e <= 9 && IsNumbered(tok, d) && IsNumbered(tok, e)
    ensures d == e
  {
    DigitNameOnce(d);
  }

  lemma TokenFails(lib: Lib, tok: RawTok, names: VarNames, caps: CaptureScope)
    ensures PartOf(lib, tok, Some(names), Some(caps)).Err? <==>
      exists d :: 1 <= d <= 9 && IsNumbered(tok, d) && d > caps.groups && NoGroupNamed(caps, DigitName(d))
  {
    hide PartOf, NoGroupNamed, DigitName, IsNumbered;
    if d :| 1 <= d <= 9 && IsNumbered(tok, d) {
      NumberedFails(lib, tok, names, caps, d);
      forall e | 1 <= e <= 9 && IsNumbered(tok, e) ensures e == d {
        SameNumber(tok, d, e);
      }
    } else {
      OthersCompile(lib, tok, names, caps);
    }
  }

  lemma ValueCompiles(lib: Lib, value: string, names: VarNames, caps: CaptureScope)
    ensures Compiled(lib, value, Some(names), Some(caps)).Ok? <==> GroupsExist(value, caps)
  {
    hide PartOf, Tokens, NoGroupNamed, DigitName;
    var toks := Tokens(value);
    forall k | 0 <= k < |toks| ensures PartOf(lib, toks[k], Some(names), Some(caps)).Err? <==>
      exists d :: 1 <= d <= 9 && IsNumbered(toks[k], d) && d > caps.groups && NoGroupNamed(caps, DigitName(d)) {
      TokenFails(lib, toks[k], names, caps);
    }
  }

  /**
   A match definition is accepted exactly when `_` comes last if at all, every pattern is a regular
   expression none of whose groups is named like a variable or built-in, and every value refers to
   groups its pattern has.
   */
  lemma MatchAccepted(lib: Lib, input: string, arms: seq<VariableArm>, names: VarNames)
    ensures Compiles(lib, MatchOn(input, arms), names) <==>
      forall k :: 0 <= k < |arms| ==>
        && (arms[k].pattern.None? ==> k == |arms| - 1)
        && ScopeOf(lib, arms[k]).Some?
        && NoClash(ScopeOf(lib, arms[k]).value, names)
        && GroupsExist(arms[k].value, ScopeOf(lib, arms[k]).value)
  {
    hide GroupsExist, Compiled, BUILTIN_NAMES;
    forall k | 0 <= k < |arms| ensures CompiledArm(lib, arms[k], names).Ok? <==>
      && ScopeOf(lib, arms[k]).Some? && NoClash(ScopeOf(lib, arms[k]).value, names)
      && GroupsExist(arms[k].value, ScopeOf(lib, arms[k]).value) {
      if ScopeOf(lib, arms[k]).Some? {
        var caps := ScopeOf(lib, arms[k]).value;
        ValueCompiles(lib, arms[k].value, names, caps);
        ClashIff(caps.names, names);
      }
    }
  }
}
