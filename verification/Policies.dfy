/**
 Named policies (src/router.rs): `apply` references are inlined depth-first
 when the configuration is loaded.
 */
module Policies {
  import opened Common
  import opened Digraph
  import opened Access
  import opened AccessLaws

  datatype RuleDef =
    | Rule(rule: PolicyRule)
    | Apply(name: string)

  type PolicyDefs = map<string, seq<RuleDef>>

  type Flat = map<string, seq<PolicyRule>>

  datatype PolicyError =
    | Undefined(name: string)
    | Circular(name: string, chain: seq<string>)
    | NeedsIdentity

  function Applied(rules: seq<RuleDef>): set<string> {
    set k | 0 <= k < |rules| && rules[k].Apply? :: rules[k].name
  }

  ghost function ApplyGraph(defs: PolicyDefs): Graph<string> {
    map n | n in defs :: Applied(defs[n])
  }

  ghost predicate AllDefined(defs: PolicyDefs) {
    forall n :: n in defs ==> Applied(defs[n]) <= defs.Keys
  }

  /** Every applied name is defined, and no policy applies itself, however indirectly. */
  ghost predicate Resolvable(defs: PolicyDefs) {
    AllDefined(defs) && Acyclic(ApplyGraph(defs))
  }

  function One(def: RuleDef, flat: Flat): seq<PolicyRule>
    requires def.Apply? ==> def.name in flat
  {
    match def
    case Rule(r) => [r]
    case Apply(n) => flat[n]
  }

  /** A rule list with every `apply` replaced by the rules it stands for. */
  function Expand(rules: seq<RuleDef>, flat: Flat): seq<PolicyRule>
    requires Applied(rules) <= flat.Keys
  {
    if rules == [] then []
    else
      var n := |rules| - 1;
      AppliedTake(rules, n);
      Expand(rules[..n], flat) + One(rules[n], flat)
  }

  lemma AppliedTake(rules: seq<RuleDef>, k: nat)
    requires k < |rules|
    ensures Applied(rules[..k]) <= Applied(rules)
    ensures rules[k].Apply? ==> rules[k].name in Applied(rules)
    ensures Applied(rules[..k + 1]) == Applied(rules[..k]) + (if rules[k].Apply? then {rules[k].name} else {})
  {
    TakeSnoc(rules, k);
    var a, b := rules[..k], rules[..k + 1];
    assert forall j :: 0 <= j < k ==> a[j] == b[j] == rules[j];
    assert b[k] == rules[k];
  }

  lemma ExpandTake(rules: seq<RuleDef>, k: nat, flat: Flat)
    requires k < |rules| && Applied(rules[..k + 1]) <= flat.Keys
    ensures Applied(rules[..k]) <= flat.Keys && (rules[k].Apply? ==> rules[k].name in flat)
    ensures Expand(rules[..k + 1], flat) == Expand(rules[..k], flat) + One(rules[k], flat)
  {
    AppliedTake(rules, k);
    TakeSnoc(rules, k);
  }

  /** Flat lists of some of the policies, closed under `apply`. */
  ghost predicate PartlyFlat(defs: PolicyDefs, flat: Flat) {
    && flat.Keys <= defs.Keys
    && forall n :: n in flat ==> Applied(defs[n]) <= flat.Keys && flat[n] == Expand(defs[n], flat)
  }

  /** Every policy's list is its own rules with the applied lists in place. */
  ghost predicate IsFlattening(defs: PolicyDefs, flat: Flat) {
    PartlyFlat(defs, flat) && flat.Keys == defs.Keys
  }

  lemma {:induction false} ExpandAgree(rules: seq<RuleDef>, f1: Flat, f2: Flat)
    requires Applied(rules) <= f1.Keys && Applied(rules) <= f2.Keys
    requires forall n :: n in Applied(rules) ==> f1[n] == f2[n]
    ensures Expand(rules, f1) == Expand(rules, f2)
    decreases |rules|
  {
    hide Applied;
    if rules != [] {
      var n := |rules| - 1;
      AppliedTake(rules, n);
      ExpandAgree(rules[..n], f1, f2);
    }
  }

  /** There is at most one flattening, so the order of resolution cannot show. */
  lemma FlatteningUnique(defs: PolicyDefs, f1: Flat, f2: Flat)
    requires Resolvable(defs) && IsFlattening(defs, f1) && IsFlattening(defs, f2)
    ensures f1 == f2
  {
    forall n | n in defs ensures f1[n] == f2[n] {
      FlatteningUniqueAt(defs, f1, f2, n);
    }
  }

  lemma {:induction false} FlatteningUniqueAt(defs: PolicyDefs, f1: Flat, f2: Flat, n: string)
    requires Resolvable(defs) && IsFlattening(defs, f1) && IsFlattening(defs, f2) && n in defs
    ensures f1[n] == f2[n]
    decreases Rank(ApplyGraph(defs))[n]
  {
    hide Applied, Expand, Acyclic;
    var g := ApplyGraph(defs);
    forall m | m in Applied(defs[n]) ensures f1[m] == f2[m] {
      assert m in g && n in g && m in g[n];
      FlatteningUniqueAt(defs, f1, f2, m);
    }
    ExpandAgree(defs[n], f1, f2);
  }

  lemma PartlyFlatGrows(defs: PolicyDefs, flat: Flat, name: string, rules: seq<PolicyRule>)
    requires PartlyFlat(defs, flat) && name in defs && name !in flat
    requires Applied(defs[name]) <= flat.Keys && rules == Expand(defs[name], flat)
    ensures PartlyFlat(defs, flat[name := rules])
  {
    hide Expand, Applied;
    var grown := flat[name := rules];
    forall n | n in grown ensures Applied(defs[n]) <= grown.Keys && grown[n] == Expand(defs[n], grown) {
      ExpandAgree(defs[n], flat, grown);
    }
  }

  /** Resolved policies are flat, and ranked above all they apply. */
  ghost predicate Recorded(defs: PolicyDefs, resolved: Flat, done: map<string, nat>) {
    && PartlyFlat(defs, resolved)
    && done.Keys == resolved.Keys && PartialRank(ApplyGraph(defs), done)
  }

  lemma RecordOne(defs: PolicyDefs, resolved: Flat, done: map<string, nat>, name: string, rules: seq<PolicyRule>)
    requires Recorded(defs, resolved, done) && name in defs
    requires Applied(defs[name]) <= resolved.Keys && rules == Expand(defs[name], resolved)
    ensures Recorded(defs, resolved[name := rules], if name in done then done else done[name := |done|])
    ensures name in resolved ==> resolved[name] == rules
  {
    hide Applied, Expand, PartialRank;
    if name in resolved {
      assert resolved[name := rules] == resolved;
    } else {
      PartlyFlatGrows(defs, resolved, name, rules);
      var g := ApplyGraph(defs);
      assert forall w :: w in g[name] && w in g ==> w in done;
      RankOneMore(g, done, name);
    }
  }

  /** A chain of references from which `n` leads back into the chain. */
  ghost predicate ClosesChain(g: Graph<string>, chain: seq<string>, n: string) {
    && chain != [] && IsPath(g, chain) && Edge(g, chain[|chain| - 1], n)
    && exists k :: 0 <= k < |chain| && chain[k] == n && IsCycle(g, chain[k..] + [n])
  }

  /** A failure is genuine: a missing policy, or a chain of references that closes. */
  ghost predicate Explains(defs: PolicyDefs, e: PolicyError) {
    match e
    case Undefined(n) => n !in defs && exists m :: m in defs && n in Applied(defs[m])
    case Circular(n, chain) => ClosesChain(ApplyGraph(defs), chain, n)
    case NeedsIdentity => false
  }

  lemma Unresolvable(defs: PolicyDefs, e: PolicyError)
    requires Explains(defs, e)
    ensures !Resolvable(defs)
  {
  }

  lemma AllResolved(defs: PolicyDefs, resolved: Flat, done: map<string, nat>)
    requires Recorded(defs, resolved, done) && defs.Keys <= resolved.Keys
    ensures Resolvable(defs) && IsFlattening(defs, resolved)
  {
    var g := ApplyGraph(defs);
    assert RankedBy(g, done);
    RankedIsAcyclic(g, done);
  }

  /** What was resolved stays resolved, to the same rules. */
  ghost predicate Extends(before: Flat, after: Flat) {
    forall n :: n in before ==> n in after && after[n] == before[n]
  }

  lemma ExtendsOne(before: Flat, after: Flat, name: string, rules: seq<PolicyRule>)
    requires Extends(before, after) && (name in after ==> after[name] == rules)
    ensures Extends(before, after[name := rules])
  {
  }

  lemma ExtendsTrans(a: Flat, b: Flat, c: Flat)
    requires Extends(a, b) && Extends(b, c)
    ensures Extends(a, c)
  {
  }

  lemma ExtendsSelf(a: Flat)
    ensures Extends(a, a)
  {
  }

  lemma ExpandExtended(rules: seq<RuleDef>, f1: Flat, f2: Flat)
    requires Applied(rules) <= f1.Keys && Extends(f1, f2)
    ensures Applied(rules) <= f2.Keys && Expand(rules, f1) == Expand(rules, f2)
  {
    hide Applied, Expand;
    ExpandAgree(rules, f1, f2);
  }

  // -- Resolution ------------------------------------------------------------------

  class Resolver {
    const defs: PolicyDefs
    var resolved: Flat
    /** The chain of `apply` references being followed. */
    var visiting: seq<string>
    ghost var done: map<string, nat>

    ghost predicate Valid()
      reads this
    {
      && Recorded(defs, resolved, done)
      && (visiting == [] || IsPath(ApplyGraph(defs), visiting))
      && (forall n :: n in visiting ==> n in defs)
    }

    constructor (defs: PolicyDefs)
      ensures Valid() && this.defs == defs && resolved == map[] && visiting == []
    {
      this.defs := defs;
      resolved := map[];
      visiting := [];
      done := map[];
    }

    /** `resolve_one`. */
    method ResolveOne(name: string) returns (r: Result<seq<PolicyRule>, PolicyError>)
      requires Valid()
      requires if visiting == [] then name in defs else name in Applied(defs[visiting[|visiting| - 1]])
      modifies this
      ensures r.Ok? ==> Valid() && visiting == old(visiting) && Extends(old(resolved), resolved)
      ensures r.Ok? ==> name in resolved && r.value == resolved[name]
      ensures r.Err? ==> Explains(defs, r.error)
      decreases defs.Keys - (set n | n in visiting), 1, 0
    {
      hide Recorded, Applied, Expand, IsPath, Acyclic, IsCycle, Extends;
      ghost var g, before := ApplyGraph(defs), resolved;
      ExtendsSelf(resolved);
      if name in resolved {
        return Ok(resolved[name]);
      }
      if name in visiting {
        ghost var k :| 0 <= k < |visiting| && visiting[k] == name;
        ClosesCycle(g, visiting, k, name);
        return Err(Circular(name, visiting));
      }
      if name !in defs {
        return Err(Undefined(name));
      }
      ghost var path := visiting;
      PathSnoc(g, visiting, name);
      assert (set n | n in visiting + [name]) == (set n | n in visiting) + {name};
      visiting := visiting + [name];
      r := ResolveRuleDefs(defs[name]);
      if r.Err? {
        return;
      }
      visiting := visiting[..|visiting| - 1];
      assert visiting == path;
      RecordOne(defs, resolved, done, name, r.value);
      ExtendsOne(before, resolved, name, r.value);
      done := if name in done then done else done[name := |done|];
      resolved := resolved[name := r.value];
    }

    /** `resolve_rule_defs`. */
    method ResolveRuleDefs(rules: seq<RuleDef>) returns (r: Result<seq<PolicyRule>, PolicyError>)
      requires Valid() && visiting != [] && rules == defs[visiting[|visiting| - 1]]
      modifies this
      ensures r.Ok? ==> Valid() && visiting == old(visiting) && Extends(old(resolved), resolved)
      ensures r.Ok? ==> Applied(rules) <= resolved.Keys && r.value == Expand(rules, resolved)
      ensures r.Err? ==> Explains(defs, r.error)
      decreases defs.Keys - (set n | n in visiting), 2, 0
    {
      hide Recorded, Applied, Expand, IsPath, Acyclic, IsCycle, Extends;
      ExtendsSelf(resolved);
      var result: seq<PolicyRule> := [];
      assert rules[..0] == [];
      NothingApplied(resolved);
      for k := 0 to |rules|
        invariant Valid() && visiting == old(visiting) && Extends(old(resolved), resolved)
        invariant Applied(rules[..k]) <= resolved.Keys && result == Expand(rules[..k], resolved)
      {
        AppliedTake(rules, k);
        match rules[k] {
          case Rule(rule) =>
            ExpandTake(rules, k, resolved);
            result := result + [rule];
          case Apply(name) =>
            ghost var before := resolved;
            var inlined := ResolveOne(name);
            if inlined.Err? {
              return Err(inlined.error);
            }
            ExtendsTrans(old(resolved), before, resolved);
            ExpandExtended(rules[..k], before, resolved);
            ExpandTake(rules, k, resolved);
            result := result + inlined.value;
        }
      }
      assert rules[..|rules|] == rules;
      return Ok(result);
    }
  }

  lemma NothingApplied(flat: Flat)
    ensures Applied([]) <= flat.Keys && Expand([], flat) == []
  {
  }

  /**
   `resolve_named_policies`, over the names in any order: succeeds exactly on
   resolvable definitions, with their one flattening.
   */
  method ResolveNamedPolicies(defs: PolicyDefs) returns (r: Result<Flat, PolicyError>)
    ensures r.Ok? <==> Resolvable(defs)
    ensures r.Ok? ==> IsFlattening(defs, r.value)
    ensures r.Err? ==> Explains(defs, r.error)
  {
    hide Recorded, Resolvable, IsFlattening, Applied, Expand, IsPath, Acyclic, IsCycle;
    var resolver := new Resolver(defs);
    var todo := defs.Keys;
    while todo != {}
      invariant fresh(resolver) && resolver.defs == defs && todo <= defs.Keys
      invariant resolver.Valid() && resolver.visiting == []
      invariant defs.Keys - todo <= resolver.resolved.Keys
      decreases todo
    {
      var name :| name in todo;
      var one := resolver.ResolveOne(name);
      if one.Err? {
        Unresolvable(defs, one.error);
        return Err(one.error);
      }
      todo := todo - {name};
    }
    AllResolved(defs, resolver.resolved, resolver.done);
    return Ok(resolver.resolved);
  }

  // -- Inlining into a location block --------------------------------------------------

  ghost predicate InlineOk(defs: seq<RuleDef>, named: Flat, tcpOnly: bool) {
    && Applied(defs) <= named.Keys
    && (tcpOnly ==> forall k :: 0 <= k < |Expand(defs, named)| ==> !RuleNeedsAuth(Expand(defs, named)[k]))
  }

  /** `check_tcp_block_rules`. */
  method CheckTcpBlockRules(rules: seq<PolicyRule>) returns (ok: bool)
    ensures ok <==> forall k :: 0 <= k < |rules| ==> !RuleNeedsAuth(rules[k])
  {
    for k := 0 to |rules|
      invariant forall j :: 0 <= j < k ==> !RuleNeedsAuth(rules[j])
    {
      if RuleNeedsAuth(rules[k]) {
        return false;
      }
    }
    return true;
  }

  /** Rules allowed on streams are exactly those made of addresses and countries alone. */
  lemma StreamRulesIff(rules: seq<PolicyRule>)
    ensures (forall k :: 0 <= k < |rules| ==> !RuleNeedsAuth(rules[k])) <==>
      forall k :: 0 <= k < |rules| && rules[k].predicate_.Some? ==> OnlyRequestLeaves(rules[k].predicate_.value)
  {
    hide NeedsAuth, Leaves;
    forall k | 0 <= k < |rules| && rules[k].predicate_.Some?
      ensures NeedsAuth(rules[k].predicate_.value) <==> !OnlyRequestLeaves(rules[k].predicate_.value)
    {
      FlagsExact(rules[k].predicate_.value);
      LeafKinds(rules[k].predicate_.value);
    }
  }

  ghost predicate OnlyRequestLeaves(p: Predicate) {
    forall k :: 0 <= k < |Leaves(p)| ==> Leaves(p)[k].Address? || Leaves(p)[k].Country?
  }

  /** `inline_rules`: the expansion, unless a name is missing or identity is needed over plain TCP. */
  method InlineRules(defs: seq<RuleDef>, named: Flat, tcpOnly: bool)
    returns (r: Result<seq<PolicyRule>, PolicyError>)
    ensures r.Ok? <==> InlineOk(defs, named, tcpOnly)
    ensures r.Ok? ==> r.value == Expand(defs, named)
    ensures r.Err? && r.error.Undefined? ==> r.error.name in Applied(defs) - named.Keys
  {
    hide RuleNeedsAuth, Applied, Expand;
    var result: seq<PolicyRule> := [];
    NothingApplied(named);
    assert defs[..0] == [];
    for k := 0 to |defs|
      invariant Applied(defs[..k]) <= named.Keys && result == Expand(defs[..k], named)
      invariant tcpOnly ==> forall j :: 0 <= j < |result| ==> !RuleNeedsAuth(result[j])
    {
      AppliedTake(defs, k);
      match defs[k] {
        case Rule(rule) =>
          ExpandTake(defs, k, named);
          if tcpOnly && RuleNeedsAuth(rule) {
            NotInlinable(defs, k, named, 0);
            return Err(NeedsIdentity);
          }
          result := result + [rule];
        case Apply(name) =>
          if name !in named {
            return Err(Undefined(name));
          }
          ExpandTake(defs, k, named);
          if tcpOnly {
            var ok := CheckTcpBlockRules(named[name]);
            if !ok {
              ghost var j :| 0 <= j < |named[name]| && RuleNeedsAuth(named[name][j]);
              NotInlinable(defs, k, named, j);
              return Err(NeedsIdentity);
            }
          }
          result := result + named[name];
      }
    }
    assert defs[..|defs|] == defs;
    return Ok(result);
  }

  lemma {:induction false} ExpandPrefix(defs: seq<RuleDef>, k: nat, named: Flat)
    requires k <= |defs| && Applied(defs) <= named.Keys
    ensures Applied(defs[..k]) <= named.Keys && Expand(defs[..k], named) <= Expand(defs, named)
    decreases |defs|
  {
    hide Applied;
    if k < |defs| {
      var n := |defs| - 1;
      AppliedTake(defs, n);
      ExpandPrefix(defs[..n], k, named);
      assert defs[..n][..k] == defs[..k];
    } else {
      assert defs[..k] == defs;
    }
  }

  /** One offending rule anywhere rules the whole block out for TCP. */
  lemma NotInlinable(defs: seq<RuleDef>, k: nat, named: Flat, j: nat)
    requires k < |defs| && (defs[k].Apply? ==> defs[k].name in named)
    requires j < |One(defs[k], named)| && RuleNeedsAuth(One(defs[k], named)[j])
    ensures !InlineOk(defs, named, true)
  {
    hide RuleNeedsAuth, Applied;
    if Applied(defs) <= named.Keys {
      ExpandPrefix(defs, k + 1, named);
      ExpandTake(defs, k, named);
      var a, all := Expand(defs[..k], named), Expand(defs, named);
      assert all[|a| + j] == One(defs[k], named)[j];
    }
  }

  // -- Meaning ---------------------------------------------------------------------------

  ghost function PolicyLevel(defs: PolicyDefs, n: string): nat
    requires Resolvable(defs) && n in defs
  {
    Rank(ApplyGraph(defs))[n]
  }

  lemma PolicyLevelDescends(defs: PolicyDefs, n: string, m: string)
    requires Resolvable(defs) && n in defs && m in Applied(defs[n])
    ensures m in defs && PolicyLevel(defs, m) < PolicyLevel(defs, n)
  {
    var g := ApplyGraph(defs);
    assert n in g && m in g && m in g[n];
  }

  /** All applied policies are defined and lie below `level`. */
  ghost predicate Beneath(defs: PolicyDefs, rules: seq<RuleDef>, level: nat)
    requires Resolvable(defs)
  {
    forall n :: n in Applied(rules) ==> n in defs && PolicyLevel(defs, n) < level
  }

  /**
   The nested reading: rules speak in order, and an `apply` hands over to the named
   policy, falling through to the next rule when that policy says nothing.
   */
  ghost function Nested(
    defs: PolicyDefs, rules: seq<RuleDef>, level: nat, peer: IpAddr, country: Option<string>, who: Principal)
    : Option<PolicyOutcome>
    requires Resolvable(defs) && Beneath(defs, rules, level)
    decreases level, |rules|
  {
    if rules == [] then None
    else
      var n := |rules| - 1;
      AppliedTake(rules, n);
      var first := Nested(defs, rules[..n], level, peer, country, who);
      if first.Some? then first
      else
        match rules[n]
        case Rule(r) => RuleDecides(r, peer, country, who)
        case Apply(m) =>
          BeneathItself(defs, m);
          Nested(defs, defs[m], PolicyLevel(defs, m), peer, country, who)
  }

  lemma BeneathItself(defs: PolicyDefs, n: string)
    requires Resolvable(defs) && n in defs
    ensures Beneath(defs, defs[n], PolicyLevel(defs, n))
  {
    hide Resolvable, PolicyLevel, Applied;
    forall m | m in Applied(defs[n]) ensures m in defs && PolicyLevel(defs, m) < PolicyLevel(defs, n) {
      PolicyLevelDescends(defs, n, m);
    }
  }

  /** Inlining preserves meaning: the flat list decides as the nested policies do. */
  lemma {:induction false} InliningPreservesMeaning(
    defs: PolicyDefs, flat: Flat, rules: seq<RuleDef>, level: nat,
    peer: IpAddr, country: Option<string>, who: Principal)
    requires Resolvable(defs) && IsFlattening(defs, flat) && Beneath(defs, rules, level)
    ensures Applied(rules) <= flat.Keys
    ensures Decide(Expand(rules, flat), peer, country, who) == Nested(defs, rules, level, peer, country, who)
    decreases level, |rules|
  {
    hide Resolvable, PolicyLevel, Applied, RuleDecides;
    assert Applied(rules) <= flat.Keys;
    if rules != [] {
      var n := |rules| - 1;
      AppliedTake(rules, n);
      InliningPreservesMeaning(defs, flat, rules[..n], level, peer, country, who);
      DecideConcat(Expand(rules[..n], flat), One(rules[n], flat), peer, country, who);
      match rules[n] {
        case Rule(r) =>
          assert [r][1..] == [];
          assert Decide([], peer, country, who) == None;
        case Apply(m) =>
          BeneathItself(defs, m);
          InliningPreservesMeaning(defs, flat, defs[m], PolicyLevel(defs, m), peer, country, who);
      }
    }
  }

  /** A level above every policy. */
  lemma {:induction false} TopPolicyLevel(defs: PolicyDefs, names: set<string>) returns (level: nat)
    requires Resolvable(defs) && names <= defs.Keys
    ensures forall n :: n in names ==> PolicyLevel(defs, n) < level
  {
    hide PolicyLevel, Resolvable;
    level := 0;
    if names != {} {
      var n :| n in names;
      level := TopPolicyLevel(defs, names - {n});
      level := level + PolicyLevel(defs, n) + 1;
    }
  }

  function OrDefault(o: Option<PolicyOutcome>): PolicyOutcome {
    if o.Some? then o.value else DEFAULT_DENY
  }

  /**
   A location block evaluated after inlining says what its nested reading says, and is denied
   by default where that says nothing.
   */
  lemma BlockMeans(
    defs: PolicyDefs, flat: Flat, rules: seq<RuleDef>, peer: IpAddr, country: Option<string>, who: Principal)
    requires Resolvable(defs) && IsFlattening(defs, flat) && Applied(rules) <= flat.Keys
    ensures exists level ::
      && Beneath(defs, rules, level)
      && Verdict(Expand(rules, flat), peer, country, who) == OrDefault(Nested(defs, rules, level, peer, country, who))
  {
    hide Resolvable, PolicyLevel, Applied, Nested, Expand;
    var level := TopPolicyLevel(defs, defs.Keys);
    assert Beneath(defs, rules, level);
    InliningPreservesMeaning(defs, flat, rules, level, peer, country, who);
  }

  /**
   A block accepted for a stream listener never asks who the caller is: no challenge, the same
   verdict for everyone, and always one of its own actions or the default.
   */
  lemma TcpBlockIgnoresIdentity(
    defs: seq<RuleDef>, named: Flat, peer: IpAddr, country: Option<string>, who: Principal, other: Principal)
    requires InlineOk(defs, named, true)
    ensures !DecideConsults(Expand(defs, named), peer, country, who)
    ensures Verdict(Expand(defs, named), peer, country, who) == Verdict(Expand(defs, named), peer, country, other)
    ensures Verdict(Expand(defs, named), peer, country, who) == DEFAULT_DENY
      || exists r :: r in Expand(defs, named) && Verdict(Expand(defs, named), peer, country, who) == OutcomeOf(r.action)
  {
    hide Expand, Applied, RuleNeedsAuth, Decide, DecideConsults;
    var rules := Expand(defs, named);
    NoAuthVerdict(rules, peer, country, who, other);
    if Decide(rules, peer, country, who).Some? {
      var k :| 0 <= k < |rules| && Decide(rules, peer, country, who).value == OutcomeOf(rules[k].action);
      assert rules[k] in rules;
    }
  }
}
