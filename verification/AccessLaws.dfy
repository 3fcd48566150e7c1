/**
 What each predicate and each action of an access policy means, stated on requests and callers:
 networks, countries, identities, negation, challenges, and when the caller is asked for.
 */
module AccessLaws {
  import opened Common
  import opened Arithmetic
  import opened Access

  // -- Networks ------------------------------------------------------------------------

  function Pow2(n: nat): nat {
    if n == 0 then 1 else 2 * Pow2(n - 1)
  }

  lemma {:induction false} ShiftDivides(bits: nat, n: nat)
    ensures Pow2(n) > 0 && ShiftRight(bits, n) == bits / Pow2(n)
    decreases n
  {
    if n > 0 {
      ShiftDivides(bits / 2, n - 1);
      DivTwice(bits, Pow2(n - 1));
    }
  }

  lemma DivTwice(x: nat, n: nat)
    requires n > 0
    ensures (x / 2) / n == x / (2 * n)
  {
    var h, q := x / 2, (x / 2) / n;
    DivMod(x, 2);
    DivMod(h, n);
    assert 2 * n * q == 2 * (n * q);
    DivIs(x, 2 * n, q);
  }

  ghost predicate SameNetwork(net: IpNet, ip: IpAddr)
    requires net.prefix <= if net.addr.V4? then 32 else 128
  {
    var host := if net.addr.V4? then 32 - net.prefix else 128 - net.prefix;
    net.addr.V4? == ip.V4? && Pow2(host) > 0 && net.addr.bits / Pow2(host) == ip.bits / Pow2(host)
  }

  lemma ContainsIff(net: IpNet, ip: IpAddr)
    requires net.prefix <= if net.addr.V4? then 32 else 128
    ensures Contains(net, ip) == SameNetwork(net, ip)
  {
    hide ShiftRight, Pow2;
    var host := if net.addr.V4? then 32 - net.prefix else 128 - net.prefix;
    ShiftDivides(net.addr.bits, host);
    ShiftDivides(ip.bits, host);
  }

  /** An address matches a network exactly when both agree above the host bits of one family. */
  lemma AddressJudged(nets: seq<IpNet>, peer: IpAddr, country: Option<string>, who: Principal)
    requires forall k :: 0 <= k < |nets| ==> nets[k].prefix <= if nets[k].addr.V4? then 32 else 128
    ensures Judge(Address(nets), peer, country, who) ==
      if exists k :: 0 <= k < |nets| && SameNetwork(nets[k], peer) then Yes else No
  {
    hide Contains, SameNetwork;
    forall k | 0 <= k < |nets| ensures Contains(nets[k], peer) == SameNetwork(nets[k], peer) {
      ContainsIff(nets[k], peer);
    }
  }

  /** A peer reported as `::ffff:x` is the IPv4 peer `x`; every other address stays what it is. */
  lemma MappedPeer(ip: IpAddr)
    ensures Normalise(ip) ==
      if ip.V6? && 0xffff_0000_0000 <= ip.bits < 0x1_0000_0000_0000 then V4(ip.bits - 0xffff_0000_0000) else ip
  {
    if ip.V6? {
      DivMod(ip.bits, BITS32);
      if 0xffff_0000_0000 <= ip.bits < 0x1_0000_0000_0000 {
        DivIs(ip.bits, BITS32, 0xffff);
      }
    }
  }

  // -- Leaves and negation ---------------------------------------------------------------

  lemma CountryJudged(codes: seq<string>, peer: IpAddr, country: Option<string>, who: Principal)
    ensures Judge(Country(codes), peer, country, who).Yes? <==>
      exists k :: 0 <= k < |codes| && country == Some(codes[k])
    ensures !Judge(Country(codes), peer, country, who).Challenge?
  {
  }

  /** An anonymous caller is challenged by every identity leaf. */
  lemma AnonymousChallenged(names: seq<string>, peer: IpAddr, country: Option<string>)
    ensures Judge(IsAuthenticated, peer, country, Anonymous) == Challenge(401)
    ensures Judge(User(names), peer, country, Anonymous) == Challenge(401)
    ensures Judge(Group(names), peer, country, Anonymous) == Challenge(401)
  {
  }

  /** An authenticated caller is answered by name and groups. */
  lemma CallerJudged(
    names: seq<string>, peer: IpAddr, country: Option<string>, username: string, groups: seq<string>)
    ensures var who := Authenticated(username, groups);
      && Judge(IsAuthenticated, peer, country, who) == Yes
      && Judge(User(names), peer, country, who)
           == (if exists k :: 0 <= k < |names| && names[k] == username then Yes else No)
      && Judge(Group(names), peer, country, who)
           == (if exists j, k :: 0 <= j < |groups| && 0 <= k < |names| && groups[j] == names[k] then Yes else No)
  {
  }

  /** Negation never challenges: it says Yes exactly when the inner predicate says anything else. */
  lemma NegationJudged(p: Predicate, peer: IpAddr, country: Option<string>, who: Principal)
    ensures !Judge(Not(p), peer, country, who).Challenge?
    ensures Judge(Not(p), peer, country, who).Yes? <==> !Judge(p, peer, country, who).Yes?
  {
  }

  // -- Challenges ----------------------------------------------------------------------------

  predicate IdentityLeaf(p: Predicate) {
    p.IsAuthenticated? || p.User? || p.Group?
  }

  /** Some identity leaf stands under no negation. */
  predicate Exposed(p: Predicate) {
    match p
    case Not(_) => false
    case And(preds) => exists k :: 0 <= k < |preds| && Exposed(preds[k])
    case _ => IdentityLeaf(p)
  }

  /** A challenge is a 401, for an anonymous caller, from an identity leaf under no negation. */
  lemma {:induction false} ChallengeOnlyExposed(p: Predicate, peer: IpAddr, country: Option<string>, who: Principal)
    requires Judge(p, peer, country, who).Challenge?
    ensures who.Anonymous? && Exposed(p) && Judge(p, peer, country, who) == Challenge(401)
    decreases p, 0
  {
    match p {
      case And(preds) => ChallengeOnlyExposedAll(preds, peer, country, who);
      case _ =>
    }
  }

  lemma {:induction false} ChallengeOnlyExposedAll(
    preds: seq<Predicate>, peer: IpAddr, country: Option<string>, who: Principal)
    requires JudgeAll(preds, peer, country, who).Challenge?
    ensures who.Anonymous? && JudgeAll(preds, peer, country, who) == Challenge(401)
    ensures exists k :: 0 <= k < |preds| && Exposed(preds[k])
    decreases preds, 1
  {
    if Judge(preds[0], peer, country, who).Yes? {
      ChallengeOnlyExposedAll(preds[1..], peer, country, who);
      var k :| 0 <= k < |preds[1..]| && Exposed(preds[1..][k]);
      assert preds[k + 1] == preds[1..][k];
    } else {
      ChallengeOnlyExposed(preds[0], peer, country, who);
    }
  }

  /** What a rule says: its action when it matches, 401 on a challenge, nothing otherwise. */
  lemma RuleSays(p: Predicate, action: PolicyAction, peer: IpAddr, country: Option<string>, who: Principal)
    ensures RuleDecides(PolicyRule(Some(p), action), peer, country, who) ==
      match Judge(p, peer, country, who) {
        case Yes => RuleDecides(PolicyRule(None, action), peer, country, who)
        case Challenge(_) => Some(Deny(401))
        case No => None
      }
  {
    if Judge(p, peer, country, who).Challenge? {
      ChallengeOnlyExposed(p, peer, country, who);
    }
  }

  /** Unconditional rules act as written, and an empty block denies with 403. */
  lemma ActionsSay(to: string, code: nat, peer: IpAddr, country: Option<string>, who: Principal)
    ensures Verdict([PolicyRule(None, AllowIt)], peer, country, who) == Allow
    ensures Verdict([PolicyRule(None, DenyIt(code))], peer, country, who) == Deny(code)
    ensures Verdict([PolicyRule(None, RedirectIt(to, code))], peer, country, who) == Redirect(to, code)
    ensures Verdict([], peer, country, who) == Deny(403)
  {
  }

  predicate RuleExposed(r: PolicyRule) {
    r.predicate_.Some? && Exposed(r.predicate_.value)
  }

  predicate RuleMatches(r: PolicyRule, peer: IpAddr, country: Option<string>, who: Principal) {
    r.predicate_.Some? ==> Judge(r.predicate_.value, peer, country, who).Yes?
  }

  /**
   Where a verdict comes from: a rule whose predicate said Yes, the 401 for an anonymous caller and
   an identity leaf under no negation, or the final 403.
   */
  lemma {:induction false} VerdictOrigin(
    rules: seq<PolicyRule>, peer: IpAddr, country: Option<string>, who: Principal)
    ensures var v := Verdict(rules, peer, country, who);
      || v == Deny(403)
      || (v == Deny(401) && who.Anonymous? && exists k :: 0 <= k < |rules| && RuleExposed(rules[k]))
      || exists k :: 0 <= k < |rules| && RuleMatches(rules[k], peer, country, who)
           && Some(v) == RuleDecides(PolicyRule(None, rules[k].action), peer, country, who)
  {
    hide Judge, Exposed;
    if rules != [] {
      var r := rules[0];
      if RuleDecides(r, peer, country, who).None? {
        VerdictOrigin(rules[1..], peer, country, who);
        assert forall k :: 0 <= k < |rules| - 1 ==> rules[1..][k] == rules[k + 1];
      } else if !RuleMatches(r, peer, country, who) {
        ChallengeOnlyExposed(r.predicate_.value, peer, country, who);
        assert RuleExposed(rules[0]);
      } else {
        assert RuleMatches(rules[0], peer, country, who);
      }
    }
  }

  /** An anonymous caller can be sent to a login page: the redirect is reached, not a 401. */
  lemma LoginRedirect(to: string, code: nat, peer: IpAddr, country: Option<string>)
    ensures Verdict([PolicyRule(Some(Not(IsAuthenticated)), RedirectIt(to, code))], peer, country, Anonymous)
         == Redirect(to, code)
  {
  }

  // -- Asking who the caller is ------------------------------------------------------------------

  /** A conjunction asks exactly when it gets as far as a part that does. */
  lemma {:induction false} ConjunctionAsks(preds: seq<Predicate>, peer: IpAddr, country: Option<string>, who: Principal)
    ensures Consults(And(preds), peer, country, who) <==>
      exists k :: 0 <= k < |preds| && Consults(preds[k], peer, country, who)
        && forall j :: 0 <= j < k ==> Judge(preds[j], peer, country, who).Yes?
    decreases |preds|
  {
    hide Judge;
    if preds != [] {
      var rest := preds[1..];
      ConjunctionAsks(rest, peer, country, who);
      if Judge(preds[0], peer, country, who).Yes? && Consults(And(rest), peer, country, who) {
        var k :| 0 <= k < |rest| && Consults(rest[k], peer, country, who)
          && forall j :: 0 <= j < k ==> Judge(rest[j], peer, country, who).Yes?;
        forall j | 0 <= j < k + 1 ensures Judge(preds[j], peer, country, who).Yes? {
          if j > 0 {
            assert preds[j] == rest[j - 1];
          }
        }
        assert preds[k + 1] == rest[k];
      }
      forall k | 0 < k < |preds| && Consults(preds[k], peer, country, who)
        && (forall j :: 0 <= j < k ==> Judge(preds[j], peer, country, who).Yes?)
        ensures ConsultsAny(preds, peer, country, who)
      {
        assert rest[k - 1] == preds[k];
        forall j | 0 <= j < k - 1 ensures Judge(rest[j], peer, country, who).Yes? {
          assert rest[j] == preds[j + 1];
        }
        assert Consults(And(rest), peer, country, who);
      }
    }
  }

  lemma LeavesAsk(names: seq<string>, nets: seq<IpNet>, p: Predicate, peer: IpAddr, country: Option<string>, who: Principal)
    ensures Consults(IsAuthenticated, peer, country, who) && Consults(User(names), peer, country, who)
    ensures Consults(Group(names), peer, country, who)
    ensures !Consults(Address(nets), peer, country, who) && !Consults(Country(names), peer, country, who)
    ensures Consults(Not(p), peer, country, who) == Consults(p, peer, country, who)
  {
  }

  /** Whoever was not asked for cannot have mattered. */
  lemma {:induction false} UnaskedIrrelevant(
    p: Predicate, peer: IpAddr, country: Option<string>, who: Principal, other: Principal)
    requires !Consults(p, peer, country, who)
    ensures Judge(p, peer, country, other) == Judge(p, peer, country, who) && !Consults(p, peer, country, other)
    decreases p, 0
  {
    match p {
      case Not(inner) => UnaskedIrrelevant(inner, peer, country, who, other);
      case And(preds) => UnaskedIrrelevantAll(preds, peer, country, who, other);
      case _ =>
    }
  }

  lemma {:induction false} UnaskedIrrelevantAll(
    preds: seq<Predicate>, peer: IpAddr, country: Option<string>, who: Principal, other: Principal)
    requires !ConsultsAny(preds, peer, country, who)
    ensures JudgeAll(preds, peer, country, other) == JudgeAll(preds, peer, country, who)
    ensures !ConsultsAny(preds, peer, country, other)
    decreases preds, 1
  {
    if preds != [] {
      UnaskedIrrelevant(preds[0], peer, country, who, other);
      if Judge(preds[0], peer, country, who).Yes? {
        UnaskedIrrelevantAll(preds[1..], peer, country, who, other);
      }
    }
  }

  /** A block asks exactly when some rule asks and all before it fall through. */
  lemma {:induction false} BlockAsks(rules: seq<PolicyRule>, peer: IpAddr, country: Option<string>, who: Principal)
    ensures DecideConsults(rules, peer, country, who) <==>
      exists k :: 0 <= k < |rules| && rules[k].predicate_.Some?
        && Consults(rules[k].predicate_.value, peer, country, who)
        && forall j :: 0 <= j < k ==> RuleDecides(rules[j], peer, country, who).None?
    decreases |rules|
  {
    hide RuleDecides, Consults;
    if rules != [] {
      var rest := rules[1..];
      BlockAsks(rest, peer, country, who);
      assert forall k :: 0 <= k < |rest| ==> rest[k] == rules[k + 1];
      if RuleDecides(rules[0], peer, country, who).None? && DecideConsults(rest, peer, country, who) {
        var k :| 0 <= k < |rest| && rest[k].predicate_.Some?
          && Consults(rest[k].predicate_.value, peer, country, who)
          && forall j :: 0 <= j < k ==> RuleDecides(rest[j], peer, country, who).None?;
        assert rules[k + 1] == rest[k];
        forall j | 0 <= j < k + 1 ensures RuleDecides(rules[j], peer, country, who).None? {
          if j > 0 {
            assert rules[j] == rest[j - 1];
          }
        }
      }
      forall k | 0 < k < |rules| && rules[k].predicate_.Some?
        && Consults(rules[k].predicate_.value, peer, country, who)
        && (forall j :: 0 <= j < k ==> RuleDecides(rules[j], peer, country, who).None?)
        ensures DecideConsults(rules, peer, country, who)
      {
        assert rest[k - 1] == rules[k];
        forall j | 0 <= j < k - 1 ensures RuleDecides(rest[j], peer, country, who).None? {
          assert rest[j] == rules[j + 1];
        }
      }
    }
  }

  // -- Flags ----------------------------------------------------------------------------------------

  /** The leaves of a predicate. */
  function Leaves(p: Predicate): seq<Predicate>
    decreases p, 0
  {
    match p
    case Not(inner) => Leaves(inner)
    case And(preds) => LeavesOf(preds)
    case _ => [p]
  }

  function LeavesOf(preds: seq<Predicate>): seq<Predicate>
    decreases preds, 1
  {
    if preds == [] then [] else Leaves(preds[0]) + LeavesOf(preds[1..])
  }

  /** The flags say exactly which leaves there are. */
  lemma {:induction false} FlagsExact(p: Predicate)
    ensures NeedsAuth(p) <==> exists k :: 0 <= k < |Leaves(p)| && IdentityLeaf(Leaves(p)[k])
    ensures NeedsGeoip(p) <==> exists k :: 0 <= k < |Leaves(p)| && Leaves(p)[k].Country?
    decreases p, 0
  {
    match p {
      case Not(inner) =>
        FlagsExact(inner);
        assert Leaves(p) == Leaves(inner);
      case And(preds) =>
        FlagsExactAll(preds);
        assert Leaves(p) == LeavesOf(preds);
      case _ => assert Leaves(p)[0] == p;
    }
  }

  lemma {:induction false} FlagsExactAll(preds: seq<Predicate>)
    ensures (exists k :: 0 <= k < |preds| && NeedsAuth(preds[k])) <==>
      exists k :: 0 <= k < |LeavesOf(preds)| && IdentityLeaf(LeavesOf(preds)[k])
    ensures (exists k :: 0 <= k < |preds| && NeedsGeoip(preds[k])) <==>
      exists k :: 0 <= k < |LeavesOf(preds)| && LeavesOf(preds)[k].Country?
    decreases preds, 1
  {
    if preds != [] {
      FlagsExact(preds[0]);
      FlagsExactAll(preds[1..]);
      hide NeedsAuth, NeedsGeoip, Leaves;
      var a, b := Leaves(preds[0]), LeavesOf(preds[1..]);
      assert LeavesOf(preds) == a + b;
      AnyConcat(a, b);
      assert forall k :: 0 <= k < |preds| - 1 ==> preds[1..][k] == preds[k + 1];
    }
  }

  lemma AnyConcat(a: seq<Predicate>, b: seq<Predicate>)
    ensures (exists k :: 0 <= k < |a + b| && IdentityLeaf((a + b)[k])) <==>
      (exists k :: 0 <= k < |a| && IdentityLeaf(a[k])) || (exists k :: 0 <= k < |b| && IdentityLeaf(b[k]))
    ensures (exists k :: 0 <= k < |a + b| && (a + b)[k].Country?) <==>
      (exists k :: 0 <= k < |a| && a[k].Country?) || (exists k :: 0 <= k < |b| && b[k].Country?)
  {
    var c := a + b;
    assert forall k :: 0 <= k < |a| ==> c[k] == a[k];
    assert forall k :: 0 <= k < |b| ==> c[|a| + k] == b[k];
  }

  /** Leaves are not negations or conjunctions. */
  lemma {:induction false} LeafKinds(p: Predicate)
    ensures forall k :: 0 <= k < |Leaves(p)| ==>
      Leaves(p)[k].Address? || Leaves(p)[k].Country? || IdentityLeaf(Leaves(p)[k])
    decreases p, 0
  {
    match p {
      case Not(inner) =>
        LeafKinds(inner);
        assert Leaves(p) == Leaves(inner);
      case And(preds) =>
        LeafKindsOf(preds);
        assert Leaves(p) == LeavesOf(preds);
      case _ =>
    }
  }

  lemma {:induction false} LeafKindsOf(preds: seq<Predicate>)
    ensures forall k :: 0 <= k < |LeavesOf(preds)| ==>
      LeavesOf(preds)[k].Address? || LeavesOf(preds)[k].Country? || IdentityLeaf(LeavesOf(preds)[k])
    decreases preds, 1
  {
    if preds != [] {
      LeafKinds(preds[0]);
      LeafKindsOf(preds[1..]);
    }
  }
}
