/**
 Access policies (src/access.rs): a three-valued predicate evaluator with a
 lazily resolved identity, and first-match evaluation of a flat rule list.
 */
module Access {
  import opened Common

  // -- Requests ------------------------------------------------------------------

  datatype IpAddr = V4(bits: nat) | V6(bits: nat)

  datatype IpNet = IpNet(addr: IpAddr, prefix: nat)

  function ShiftRight(bits: nat, n: nat): nat {
    if n == 0 then bits else ShiftRight(bits / 2, n - 1)
  }

  /** The network part of an address of `width` bits. */
  function Network(bits: nat, width: nat, prefix: nat): nat {
    ShiftRight(bits, if prefix <= width then width - prefix else 0)
  }

  /** Same family and same leading `prefix` bits. */
  predicate Contains(net: IpNet, ip: IpAddr) {
    match (net.addr, ip)
    case (V4(a), V4(b)) => Network(a, 32, net.prefix) == Network(b, 32, net.prefix)
    case (V6(a), V6(b)) => Network(a, 128, net.prefix) == Network(b, 128, net.prefix)
    case _ => false
  }

  const MAPPED: nat := 0xffff
  const BITS32: nat := 0x1_0000_0000

  /** IPv4-mapped IPv6 addresses become plain IPv4. */
  function Normalise(ip: IpAddr): IpAddr {
    if ip.V6? && ip.bits / BITS32 == MAPPED then V4(ip.bits % BITS32) else ip
  }

  datatype Principal = Anonymous | Authenticated(username: string, groups: seq<string>)

  // -- Predicates ----------------------------------------------------------------

  datatype Predicate =
    | Address(nets: seq<IpNet>)
    | Country(codes: seq<string>)
    | User(names: seq<string>)
    | Group(names: seq<string>)
    | IsAuthenticated
    | Not(inner: Predicate)
    | And(preds: seq<Predicate>)

  predicate NeedsGeoip(p: Predicate) {
    match p
    case Country(_) => true
    case Not(inner) => NeedsGeoip(inner)
    case And(preds) => exists k :: 0 <= k < |preds| && NeedsGeoip(preds[k])
    case _ => false
  }

  predicate NeedsAuth(p: Predicate) {
    match p
    case IsAuthenticated => true
    case User(_) => true
    case Group(_) => true
    case Not(inner) => NeedsAuth(inner)
    case And(preds) => exists k :: 0 <= k < |preds| && NeedsAuth(preds[k])
    case _ => false
  }

  datatype Answer = Yes | No | Challenge(code: nat)

  predicate InAny(nets: seq<IpNet>, peer: IpAddr) {
    exists k :: 0 <= k < |nets| && Contains(nets[k], peer)
  }

  predicate SharesGroup(mine: seq<string>, listed: seq<string>) {
    exists k :: 0 <= k < |mine| && mine[k] in listed
  }

  function YesIf(b: bool): Answer {
    if b then Yes else No
  }

  /** What a predicate says about a request made by `who`. */
  function Judge(p: Predicate, peer: IpAddr, country: Option<string>, who: Principal): Answer
    decreases p, 0
  {
    match p
    case Address(nets) => YesIf(InAny(nets, peer))
    case Country(codes) => YesIf(country.Some? && country.value in codes)
    case IsAuthenticated => if who.Anonymous? then Challenge(401) else Yes
    case User(names) => if who.Anonymous? then Challenge(401) else YesIf(who.username in names)
    case Group(names) => if who.Anonymous? then Challenge(401) else YesIf(SharesGroup(who.groups, names))
    case Not(inner) => if Judge(inner, peer, country, who).Yes? then No else Yes
    case And(preds) => JudgeAll(preds, peer, country, who)
  }

  /** Conjunction, left to right: the first answer other than Yes. */
  function JudgeAll(preds: seq<Predicate>, peer: IpAddr, country: Option<string>, who: Principal): Answer
    decreases preds, 1
  {
    if preds == [] then Yes
    else if Judge(preds[0], peer, country, who).Yes? then JudgeAll(preds[1..], peer, country, who)
    else Judge(preds[0], peer, country, who)
  }

  /** Whether judging gets as far as asking who the caller is. */
  predicate Consults(p: Predicate, peer: IpAddr, country: Option<string>, who: Principal)
    decreases p, 0
  {
    match p
    case IsAuthenticated => true
    case User(_) => true
    case Group(_) => true
    case Not(inner) => Consults(inner, peer, country, who)
    case And(preds) => ConsultsAny(preds, peer, country, who)
    case _ => false
  }

  predicate ConsultsAny(preds: seq<Predicate>, peer: IpAddr, country: Option<string>, who: Principal)
    decreases preds, 1
  {
    preds != [] && (
      Consults(preds[0], peer, country, who)
      || (Judge(preds[0], peer, country, who).Yes? && ConsultsAny(preds[1..], peer, country, who)))
  }

  /** A conjunction says Yes when all do, and otherwise what the first dissenter says. */
  lemma {:induction false} FirstDissentDecides(
    preds: seq<Predicate>, peer: IpAddr, country: Option<string>, who: Principal, k: nat)
    requires k <= |preds| && forall j :: 0 <= j < k ==> Judge(preds[j], peer, country, who).Yes?
    requires k < |preds| ==> !Judge(preds[k], peer, country, who).Yes?
    ensures Judge(And(preds), peer, country, who) == if k == |preds| then Yes else Judge(preds[k], peer, country, who)
    decreases |preds|
  {
    if k > 0 {
      FirstDissentDecides(preds[1..], peer, country, who, k - 1);
    }
  }

  /** Without identity leaves: nobody is asked, nobody matters, and no challenge arises. */
  lemma {:induction false} NoAuthNoChallenge(
    p: Predicate, peer: IpAddr, country: Option<string>, who: Principal, other: Principal)
    requires !NeedsAuth(p)
    ensures !Judge(p, peer, country, who).Challenge?
    ensures Judge(p, peer, country, who) == Judge(p, peer, country, other)
    ensures !Consults(p, peer, country, who)
    decreases p, 0
  {
    match p {
      case Not(inner) => NoAuthNoChallenge(inner, peer, country, who, other);
      case And(preds) => NoAuthNoChallengeAll(preds, peer, country, who, other);
      case _ =>
    }
  }

  lemma {:induction false} NoAuthNoChallengeAll(
    preds: seq<Predicate>, peer: IpAddr, country: Option<string>, who: Principal, other: Principal)
    requires forall k :: 0 <= k < |preds| ==> !NeedsAuth(preds[k])
    ensures !JudgeAll(preds, peer, country, who).Challenge?
    ensures JudgeAll(preds, peer, country, who) == JudgeAll(preds, peer, country, other)
    ensures !ConsultsAny(preds, peer, country, who)
    decreases preds, 1
  {
    if preds != [] {
      NoAuthNoChallenge(preds[0], peer, country, who, other);
      NoAuthNoChallengeAll(preds[1..], peer, country, who, other);
    }
  }

  /** Without country leaves, the country does not matter. */
  lemma {:induction false} NoGeoSame(
    p: Predicate, peer: IpAddr, c1: Option<string>, c2: Option<string>, who: Principal)
    requires !NeedsGeoip(p)
    ensures Judge(p, peer, c1, who) == Judge(p, peer, c2, who)
    ensures Consults(p, peer, c1, who) == Consults(p, peer, c2, who)
    decreases p, 0
  {
    match p {
      case Not(inner) => NoGeoSame(inner, peer, c1, c2, who);
      case And(preds) => NoGeoSameAll(preds, peer, c1, c2, who);
      case _ =>
    }
  }

  lemma {:induction false} NoGeoSameAll(
    preds: seq<Predicate>, peer: IpAddr, c1: Option<string>, c2: Option<string>, who: Principal)
    requires forall k :: 0 <= k < |preds| ==> !NeedsGeoip(preds[k])
    ensures JudgeAll(preds, peer, c1, who) == JudgeAll(preds, peer, c2, who)
    ensures ConsultsAny(preds, peer, c1, who) == ConsultsAny(preds, peer, c2, who)
    decreases preds, 1
  {
    if preds != [] {
      NoGeoSame(preds[0], peer, c1, c2, who);
      NoGeoSameAll(preds[1..], peer, c1, c2, who);
    }
  }

  // -- Rules ---------------------------------------------------------------------

  datatype PolicyAction = AllowIt | DenyIt(code: nat) | RedirectIt(to: string, code: nat)

  /** No predicate is an unconditional rule. */
  datatype PolicyRule = PolicyRule(predicate_: Option<Predicate>, action: PolicyAction)

  datatype PolicyOutcome = Allow | Deny(code: nat) | Redirect(to: string, code: nat)

  function OutcomeOf(a: PolicyAction): PolicyOutcome {
    match a
    case AllowIt => Allow
    case DenyIt(code) => Deny(code)
    case RedirectIt(to, code) => Redirect(to, code)
  }

  /** A rule's verdict, or None when evaluation falls through it. */
  function RuleDecides(r: PolicyRule, peer: IpAddr, country: Option<string>, who: Principal): Option<PolicyOutcome> {
    match if r.predicate_.Some? then Judge(r.predicate_.value, peer, country, who) else Yes
    case Yes => Some(OutcomeOf(r.action))
    case Challenge(code) => Some(Deny(code))
    case No => None
  }

  /** The first verdict of a rule list, or None when no rule speaks. */
  function Decide(rules: seq<PolicyRule>, peer: IpAddr, country: Option<string>, who: Principal)
    : Option<PolicyOutcome>
  {
    if rules == [] then None
    else
      match RuleDecides(rules[0], peer, country, who)
      case Some(o) => Some(o)
      case None => Decide(rules[1..], peer, country, who)
  }

  const DEFAULT_DENY := Deny(403)

  /** The first rule that does not fall through decides; if all do, nothing is decided. */
  lemma {:induction false} FirstRuleDecides(
    rules: seq<PolicyRule>, peer: IpAddr, country: Option<string>, who: Principal, k: nat)
    requires k <= |rules| && forall j :: 0 <= j < k ==> RuleDecides(rules[j], peer, country, who).None?
    requires k < |rules| ==> RuleDecides(rules[k], peer, country, who).Some?
    ensures Decide(rules, peer, country, who) ==
      if k == |rules| then None else RuleDecides(rules[k], peer, country, who)
    decreases |rules|
  {
    hide RuleDecides;
    if k > 0 {
      FirstRuleDecides(rules[1..], peer, country, who, k - 1);
    }
  }

  function Verdict(rules: seq<PolicyRule>, peer: IpAddr, country: Option<string>, who: Principal): PolicyOutcome {
    match Decide(rules, peer, country, who)
    case Some(o) => o
    case None => DEFAULT_DENY
  }

  predicate RuleConsults(r: PolicyRule, peer: IpAddr, country: Option<string>, who: Principal) {
    r.predicate_.Some? && Consults(r.predicate_.value, peer, country, who)
  }

  predicate DecideConsults(rules: seq<PolicyRule>, peer: IpAddr, country: Option<string>, who: Principal) {
    rules != [] && (
      RuleConsults(rules[0], peer, country, who)
      || (RuleDecides(rules[0], peer, country, who).None? && DecideConsults(rules[1..], peer, country, who)))
  }

  predicate RuleNeedsAuth(r: PolicyRule) {
    r.predicate_.Some? && NeedsAuth(r.predicate_.value)
  }

  predicate RuleNeedsGeoip(r: PolicyRule) {
    r.predicate_.Some? && NeedsGeoip(r.predicate_.value)
  }

  /** The flag a policy block is built with: whether a GeoIP lookup is worth making. */
  predicate BlockNeedsGeoip(rules: seq<PolicyRule>) {
    exists k :: 0 <= k < |rules| && RuleNeedsGeoip(rules[k])
  }

  /** Concatenated rule lists: the second speaks when the first falls through. */
  lemma {:induction false} DecideConcat(
    a: seq<PolicyRule>, b: seq<PolicyRule>, peer: IpAddr, country: Option<string>, who: Principal)
    ensures Decide(a + b, peer, country, who) ==
      if Decide(a, peer, country, who).Some? then Decide(a, peer, country, who) else Decide(b, peer, country, who)
  {
    hide RuleDecides;
    if a == [] {
      assert a + b == b;
    } else {
      assert (a + b)[1..] == a[1..] + b;
      DecideConcat(a[1..], b, peer, country, who);
    }
  }

  /**
   A list without identity predicates never asks who the caller is, decides the
   same for everyone, and only ever by an action of its own or the default.
   */
  lemma {:induction false} NoAuthVerdict(
    rules: seq<PolicyRule>, peer: IpAddr, country: Option<string>, who: Principal, other: Principal)
    requires forall k :: 0 <= k < |rules| ==> !RuleNeedsAuth(rules[k])
    ensures !DecideConsults(rules, peer, country, who)
    ensures Decide(rules, peer, country, who) == Decide(rules, peer, country, other)
    ensures Decide(rules, peer, country, who).Some? ==>
      exists k :: 0 <= k < |rules| && Decide(rules, peer, country, who).value == OutcomeOf(rules[k].action)
  {
    if rules != [] {
      if rules[0].predicate_.Some? {
        assert !RuleNeedsAuth(rules[0]);
        NoAuthNoChallenge(rules[0].predicate_.value, peer, country, who, other);
      }
      hide Judge, NeedsAuth, Consults;
      NoAuthVerdict(rules[1..], peer, country, who, other);
      if RuleDecides(rules[0], peer, country, who).Some? {
        assert Decide(rules, peer, country, who).value == OutcomeOf(rules[0].action);
      } else if Decide(rules, peer, country, who).Some? {
        var k :| 0 <= k < |rules[1..]| && Decide(rules[1..], peer, country, who).value == OutcomeOf(rules[1..][k].action);
        assert rules[1..][k] == rules[k + 1];
      }
    }
  }

  /** A list flagged as not needing GeoIP decides the same for every country. */
  lemma {:induction false} NoGeoVerdict(
    rules: seq<PolicyRule>, peer: IpAddr, c1: Option<string>, c2: Option<string>, who: Principal)
    requires !BlockNeedsGeoip(rules)
    ensures Verdict(rules, peer, c1, who) == Verdict(rules, peer, c2, who)
    ensures Decide(rules, peer, c1, who) == Decide(rules, peer, c2, who)
  {
    if rules != [] {
      if rules[0].predicate_.Some? {
        assert !RuleNeedsGeoip(rules[0]);
        NoGeoSame(rules[0].predicate_.value, peer, c1, c2, who);
      }
      hide Judge, NeedsGeoip;
      assert !BlockNeedsGeoip(rules[1..]) by {
        assert forall k :: 0 <= k < |rules[1..]| ==> rules[1..][k] == rules[k + 1];
      }
      NoGeoVerdict(rules[1..], peer, c1, c2, who);
    }
  }

  // -- Evaluation ------------------------------------------------------------------

  /**
   `EvalContext`: the identity is resolved on first use and cached.  `answers(k)`
   is what the provider would return on its k-th call, which may vary.
   */
  class EvalContext {
    const peer: IpAddr
    const country: Option<string>
    const answers: nat -> Principal
    var principal: Option<Principal>
    /** Calls made to the provider so far. */
    var calls: nat

    ghost predicate Valid()
      reads this
    {
      principal == if calls == 0 then None else Some(answers(0))
    }

    /** The context of a fresh request. */
    constructor (peer: IpAddr, country: Option<string>, answers: nat -> Principal)
      ensures Valid() && calls == 0
      ensures this.peer == Normalise(peer) && this.country == country && this.answers == answers
    {
      this.peer := Normalise(peer);
      this.country := country;
      this.answers := answers;
      this.principal := None;
      this.calls := 0;
    }

    /** `resolve_principal`. */
    method ResolvePrincipal() returns (who: Principal)
      requires Valid() && calls <= 1
      modifies this`principal, this`calls
      ensures Valid() && calls == 1 && who == answers(0)
    {
      if principal.None? {
        principal := Some(answers(calls));
        calls := calls + 1;
      }
      return principal.value;
    }

    /** `eval_predicate`: agrees with `Judge` for one fixed identity. */
    method EvalPredicate(p: Predicate) returns (r: Answer)
      requires Valid() && calls <= 1
      modifies this`principal, this`calls
      ensures Valid() && r == Judge(p, peer, country, answers(0))
      ensures calls == if Consults(p, peer, country, answers(0)) then 1 else old(calls)
      decreases p
    {
      match p {
        case Address(nets) =>
          return YesIf(InAny(nets, peer));
        case Country(codes) =>
          return YesIf(country.Some? && country.value in codes);
        case IsAuthenticated =>
          var who := ResolvePrincipal();
          return if who.Anonymous? then Challenge(401) else Yes;
        case User(names) =>
          var who := ResolvePrincipal();
          return if who.Anonymous? then Challenge(401) else YesIf(who.username in names);
        case Group(names) =>
          var who := ResolvePrincipal();
          return if who.Anonymous? then Challenge(401) else YesIf(SharesGroup(who.groups, names));
        case Not(inner) =>
          var answer := EvalPredicate(inner);
          return if answer.Yes? then No else Yes;
        case And(preds) =>
          ghost var who := answers(0);
          for k := 0 to |preds|
            invariant Valid() && calls <= 1
            invariant JudgeAll(preds, peer, country, who) == JudgeAll(preds[k..], peer, country, who)
            invariant (if ConsultsAny(preds[k..], peer, country, who) then 1 else calls)
                   == (if ConsultsAny(preds, peer, country, who) then 1 else old(calls))
          {
            assert preds[k..][0] == preds[k] && preds[k..][1..] == preds[k + 1..];
            var answer := EvalPredicate(preds[k]);
            if !answer.Yes? {
              return answer;
            }
          }
          return Yes;
      }
    }

    /**
     `PolicyBlock::evaluate`: the first rule that speaks, for one fixed identity,
     asked for at most once and only if some rule reached needs it.
     */
    method Evaluate(rules: seq<PolicyRule>) returns (o: PolicyOutcome)
      requires Valid() && calls <= 1
      modifies this`principal, this`calls
      ensures Valid() && o == Verdict(rules, peer, country, answers(0))
      ensures calls == if DecideConsults(rules, peer, country, answers(0)) then 1 else old(calls)
    {
      hide Judge, Consults;
      ghost var who := answers(0);
      for i := 0 to |rules|
        invariant Valid() && calls <= 1
        invariant Decide(rules, peer, country, who) == Decide(rules[i..], peer, country, who)
        invariant (if DecideConsults(rules[i..], peer, country, who) then 1 else calls)
               == (if DecideConsults(rules, peer, country, who) then 1 else old(calls))
      {
        assert rules[i..][0] == rules[i] && rules[i..][1..] == rules[i + 1..];
        var answer := Yes;
        if rules[i].predicate_.Some? {
          answer := EvalPredicate(rules[i].predicate_.value);
        }
        match answer {
          case Yes => return OutcomeOf(rules[i].action);
          case Challenge(code) => return Deny(code);
          case No =>
        }
      }
      return DEFAULT_DENY;
    }
  }
}
