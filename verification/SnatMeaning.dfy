/** What the installed NAT rules mean: traffic is translated exactly when it leaves the VPC, whatever earlier runs left
    behind, and running the set-up again settles at once. */
module SnatMeaning {
  import opened Common
  import opened IpRules
  import opened Iptables

  /** A packet on its way out: its destination, whether that is an address of this host, and the rules of other
      programs that would end its walk through the table. */
  datatype Packet = Packet(dst: IP, dstLocal: bool, claimedBy: set<gostring>)

  datatype Verdict = Return | SnatTo(source: IP, flag: SnatFlag) | Claimed

  /** Walking a rule list: a jump that returns falls through to the next rule, as does the end of a chain. A jump to a
      chain that is not there, or deeper than `fuel`, returns. */
  function Walk(t: Tables, rules: seq<Spec>, p: Packet, fuel: nat): Verdict
    decreases fuel, |rules|
  {
    if rules == [] then Return
    else
      var v := match rules[0]
        case JumpFirst => Jump(t, 0, p, fuel)
        case JumpUnless(cidr, next) => if Contains(cidr, p.dst) then Return else Jump(t, next, p, fuel)
        case Snat(source, flag) => if p.dstLocal then Return else SnatTo(source, flag)
        case Foreign(text) => if text in p.claimedBy then Claimed else Return
        case _ => Return;
      if v != Return then v else Walk(t, rules[1..], p, fuel)
  }

  function Jump(t: Tables, i: nat, p: Packet, fuel: nat): Verdict
    decreases fuel, 0
  {
    if fuel == 0 || SnatChain(i) !in t then Return else Walk(t, t[SnatChain(i)], p, fuel - 1)
  }

  /** The NAT table's verdict on a packet in POSTROUTING. */
  function Outcome(t: Tables, p: Packet, fuel: nat): Verdict
    requires Postrouting in t
  {
    Walk(t, t[Postrouting], p, fuel)
  }

  /** The destination is in none of these networks. */
  predicate Outside(cidrs: seq<Cidr>, a: IP) { forall c :: c in cidrs ==> !Contains(c, a) }

  /** What POSTROUTING holds besides the jump belongs to other programs. */
  predicate OwnJumpOnly(rules: seq<Spec>) { forall r :: r in rules ==> r == JumpFirst || r.Foreign? }

  /** Another program's rule ends the walk before the jump is reached. */
  predicate ClaimedBefore(rules: seq<Spec>, p: Packet) {
    rules != [] && rules[0] != JumpFirst &&
    ((rules[0].Foreign? && rules[0].text in p.claimedBy) || ClaimedBefore(rules[1..], p))
  }

  /** Chains i to n pass the packet on until a network has it, and translate it at the end. */
  lemma {:induction false} ChainsDecide(t: Tables, c: Config, flag: SnatFlag, p: Packet, i: nat, fuel: nat)
    requires i <= |c.vpcCIDRs| && fuel > |c.vpcCIDRs| - i && !c.useExternalSNAT
    ensures Jump(Final(t, c, flag), i, p, fuel)
         == if Outside(c.vpcCIDRs[i..], p.dst) && !p.dstLocal then SnatTo(c.primaryAddr, flag) else Return
    decreases |c.vpcCIDRs| - i
  {
    var t' := Final(t, c, flag);
    assert SnatChain(i) in Keys(t, |c.vpcCIDRs| + 1);
    if i < |c.vpcCIDRs| {
      assert t'[SnatChain(i)] == [JumpUnless(c.vpcCIDRs[i], i + 1)];
      WalkOneJump(t', c.vpcCIDRs[i], i + 1, p, fuel - 1);
      ChainsDecide(t, c, flag, p, i + 1, fuel - 1);
      OutsideStep(c.vpcCIDRs, i, p.dst);
    } else {
      var last := [Snat(c.primaryAddr, flag)];
      assert t'[SnatChain(i)] == last && Walk(t', last[1..], p, fuel - 1) == Return;
      assert c.vpcCIDRs[i..] == [];
    }
  }

  lemma WalkOneJump(t: Tables, cidr: Cidr, next: nat, p: Packet, fuel: nat)
    ensures Walk(t, [JumpUnless(cidr, next)], p, fuel)
         == if Contains(cidr, p.dst) then Return else Jump(t, next, p, fuel)
  {
    var rules := [JumpUnless(cidr, next)];
    assert Walk(t, rules[1..], p, fuel) == Return;
  }

  lemma OutsideStep(cidrs: seq<Cidr>, i: nat, a: IP)
    requires i < |cidrs|
    ensures Outside(cidrs[i..], a) <==> !Contains(cidrs[i], a) && Outside(cidrs[i + 1..], a)
  {
    hide Contains;
    assert cidrs[i..] == [cidrs[i]] + cidrs[i + 1..];
    assert forall c :: c in cidrs[i..] <==> c == cidrs[i] || c in cidrs[i + 1..];
  }

  /** Walking POSTROUTING: each jump decides alike, so the first one reached decides. */
  lemma {:induction false} WalkPostrouting(t: Tables, rules: seq<Spec>, p: Packet, fuel: nat)
    requires OwnJumpOnly(rules)
    ensures var v := Jump(t, 0, p, fuel);
      var w := Walk(t, rules, p, fuel);
      if v.SnatTo? && JumpFirst in rules && !ClaimedBefore(rules, p) then w == v
      else if v.SnatTo? && JumpFirst in rules then w == Claimed
      else (v == Return || JumpFirst !in rules) ==> !w.SnatTo?
    decreases |rules|
  {
    if rules != [] {
      assert rules[0] in rules && forall r :: r in rules[1..] ==> r in rules;
      WalkPostrouting(t, rules[1..], p, fuel);
      assert JumpFirst in rules <==> rules[0] == JumpFirst || JumpFirst in rules[1..];
    }
  }

  /** The meaning of host set-up, whatever tables it starts from: a packet is translated by these rules exactly when
      SNAT is on, its destination is in no VPC network and not local, and no other program's rule took it first; it
      then leaves with the node's primary address. */
  lemma SnatExactly(t: Tables, c: Config, flag: SnatFlag, p: Packet, fuel: nat)
    requires BuiltIn(t) && OwnJumpOnly(t[Postrouting]) && fuel > |c.vpcCIDRs|
    ensures var t' := Final(t, c, flag);
      && (Outcome(t', p, fuel).SnatTo? <==>
            !c.useExternalSNAT && Outside(c.vpcCIDRs, p.dst) && !p.dstLocal && !ClaimedBefore(t'[Postrouting], p))
      && (Outcome(t', p, fuel).SnatTo? ==> Outcome(t', p, fuel) == SnatTo(c.primaryAddr, flag))
  {
    var t' := Final(t, c, flag);
    assert Postrouting in Keys(t, |c.vpcCIDRs| + 1);
    if c.useExternalSNAT {
      OffMeansOff(t, c, flag, p, fuel);
    } else {
      assert c.vpcCIDRs[0..] == c.vpcCIDRs;
      ChainsDecide(t, c, flag, p, 0, fuel);
    }
    RemoveFirstMembers(t[Postrouting], JumpFirst);
    assert OwnJumpOnly(t'[Postrouting]);
    WalkPostrouting(t', t'[Postrouting], p, fuel);
  }

  lemma OffMeansOff(t: Tables, c: Config, flag: SnatFlag, p: Packet, fuel: nat)
    requires c.useExternalSNAT
    ensures Jump(Final(t, c, flag), 0, p, fuel) == Return
  {
    assert SnatChain(0) in Keys(t, |c.vpcCIDRs| + 1);
    assert Final(t, c, flag)[SnatChain(0)] == [];
  }

  lemma {:induction false} RemoveFirstMembers(rules: seq<Spec>, spec: Spec)
    ensures forall r :: r in RemoveFirst(rules, spec) ==> r in rules
  {
    if rules != [] && rules[0] != spec {
      RemoveFirstMembers(rules[1..], spec);
      assert forall r :: r in RemoveFirst(rules, spec) ==> r == rules[0] || r in RemoveFirst(rules[1..], spec);
    }
  }

  // ---------- restarts ----------

  /** Two runs from different tables agree on a packet exactly when other programs' rules take it in both or in
      neither, or it is not to be translated at all: leftovers of an earlier run (a longer list, another address) are
      never reached. */
  lemma RestartConverges(t: Tables, u: Tables, c: Config, flag: SnatFlag, p: Packet, fuel: nat)
    requires BuiltIn(t) && OwnJumpOnly(t[Postrouting]) && BuiltIn(u) && OwnJumpOnly(u[Postrouting])
    requires fuel > |c.vpcCIDRs|
    ensures var t', u' := Final(t, c, flag), Final(u, c, flag);
      var v, w := Outcome(t', p, fuel), Outcome(u', p, fuel);
      && (v.SnatTo? && w.SnatTo? ==> v == w)
      && ((v.SnatTo? <==> w.SnatTo?) <==>
          (ClaimedBefore(t'[Postrouting], p) <==> ClaimedBefore(u'[Postrouting], p))
          || c.useExternalSNAT || !Outside(c.vpcCIDRs, p.dst) || p.dstLocal)
  {
    hide ClaimedBefore, Outcome, Final, Outside;
    SnatExactly(t, c, flag, p, fuel);
    SnatExactly(u, c, flag, p, fuel);
  }

  predicate AtMostOnce(rules: seq<Spec>, spec: Spec) { spec !in RemoveFirst(rules, spec) }

  /** Every managed rule that should not exist occurs at most once where set-up would look for it. */
  predicate NoResidue(t: Tables, c: Config)
    requires BuiltIn(t)
  {
    && (c.useExternalSNAT ==> AtMostOnce(t[Postrouting], JumpFirst))
    && (!c.nodePort ==> AtMostOnce(t[Prerouting], SetMark(c.primaryIntf, c.mainNICMark)))
    && (!c.nodePort ==> AtMostOnce(t[Prerouting], RestoreMark(c.mainNICMark)))
  }

  lemma {:induction false} RemoveFirstSize(rules: seq<Spec>, spec: Spec)
    ensures |RemoveFirst(rules, spec)| == |rules| - (if spec in rules then 1 else 0)
    ensures forall r :: r != spec ==> (r in RemoveFirst(rules, spec) <==> r in rules)
  {
    if rules != [] {
      RemoveFirstSize(rules[1..], spec);
      forall r | r != spec ensures r in RemoveFirst(rules, spec) <==> r in rules {
        assert r in rules <==> r == rules[0] || r in rules[1..];
      }
    }
  }

  /** Adjusting twice is adjusting once exactly when no unwanted copy is left. */
  lemma AdjustTwice(rules: seq<Spec>, spec: Spec, shouldExist: bool)
    ensures Adjust(Adjust(rules, spec, shouldExist), spec, shouldExist) == Adjust(rules, spec, shouldExist)
       <==> shouldExist || AtMostOnce(rules, spec)
  {
    if !shouldExist {
      var once := RemoveFirst(rules, spec);
      RemoveFirstSize(once, spec);
      if spec !in once { RemoveAbsent(once, spec); }
    }
  }

  lemma AdjustPairTwice(rules: seq<Spec>, a: Spec, b: Spec, shouldExist: bool)
    requires a != b
    ensures var once := Adjust(Adjust(rules, a, shouldExist), b, shouldExist);
      Adjust(Adjust(once, a, shouldExist), b, shouldExist) == once
      <==> shouldExist || (AtMostOnce(rules, a) && AtMostOnce(rules, b))
  {
    if !shouldExist {
      var x := RemoveFirst(rules, a);
      var y := RemoveFirst(x, b);
      var z := RemoveFirst(y, a);
      RemoveFirstSize(rules, a);
      RemoveFirstSize(x, b);
      RemoveFirstSize(y, a);
      RemoveFirstSize(z, b);
      RemoveFirstSize(rules, b);
      assert a in y <==> !AtMostOnce(rules, a);
      SecondCopy(rules, a, b);
      if a !in y { RemoveAbsent(y, a); }
      if b !in z { RemoveAbsent(z, b); }
    }
  }

  /** Removing one rule does not change whether another has a second copy. */
  lemma {:induction false} SecondCopy(rules: seq<Spec>, a: Spec, b: Spec)
    requires a != b
    ensures b in RemoveFirst(RemoveFirst(rules, a), b) <==> b in RemoveFirst(rules, b)
  {
    if rules != [] {
      RemoveFirstSize(rules[1..], a);
      if rules[0] == b {
        assert RemoveFirst(rules, a)[1..] == RemoveFirst(rules[1..], a);
      } else if rules[0] != a {
        SecondCopy(rules[1..], a, b);
        assert RemoveFirst(rules, a)[1..] == RemoveFirst(rules[1..], a);
      }
    }
  }

  /** Chain by chain: setting up again changes nothing exactly when no unwanted copy is left there. */
  lemma FinalRulesTwice(was: seq<Spec>, c: Config, flag: SnatFlag, x: Chain)
    ensures FinalRules(FinalRules(was, c, flag, x), c, flag, x) == FinalRules(was, c, flag, x) <==>
      && (x == Postrouting && c.useExternalSNAT ==> AtMostOnce(was, JumpFirst))
      && (x == Prerouting && !c.nodePort ==> AtMostOnce(was, SetMark(c.primaryIntf, c.mainNICMark)))
      && (x == Prerouting && !c.nodePort ==> AtMostOnce(was, RestoreMark(c.mainNICMark)))
  {
    hide Adjust, AtMostOnce;
    match x
    case Postrouting => AdjustTwice(was, JumpFirst, !c.useExternalSNAT);
    case Prerouting =>
      AdjustPairTwice(was, SetMark(c.primaryIntf, c.mainNICMark), RestoreMark(c.mainNICMark), c.nodePort);
    case Forward => AdjustPairTwice(was, AcceptIn, AcceptOut, true);
    case _ =>
  }

  /** It can fail: where the jump stands twice and external SNAT is turned on, the first run removes one copy and the
      second run the other. */
  lemma SecondCopyRemains(t: Tables, c: Config, flag: SnatFlag)
    requires BuiltIn(t) && t[Postrouting] == [JumpFirst, JumpFirst] && c.useExternalSNAT
    ensures Final(t, c, flag)[Postrouting] == [JumpFirst]
    ensures Final(Final(t, c, flag), c, flag)[Postrouting] == [] && !NoResidue(t, c)
  {
    var was := [JumpFirst, JumpFirst];
    assert was[1..] == [JumpFirst];
    assert RemoveFirst(was, JumpFirst) == [JumpFirst] && RemoveFirst([JumpFirst], JumpFirst) == [];
    assert Postrouting in Keys(t, |c.vpcCIDRs| + 1);
  }

  /** A second run changes nothing, exactly when the first one left no unwanted copy of a managed rule. */
  lemma SecondRun(t: Tables, c: Config, flag: SnatFlag)
    requires BuiltIn(t)
    ensures Final(Final(t, c, flag), c, flag) == Final(t, c, flag) <==> NoResidue(t, c)
  {
    hide FinalRules, AtMostOnce;
    var u := Final(t, c, flag);
    var v := Final(u, c, flag);
    assert v.Keys == u.Keys;
    FinalRulesTwice(t[Postrouting], c, flag, Postrouting);
    FinalRulesTwice(t[Prerouting], c, flag, Prerouting);
    assert Postrouting in u && Prerouting in u;
    forall x | x in u && x != Postrouting && x != Prerouting ensures v[x] == u[x] {
      FinalRulesTwice(if x in t then t[x] else [], c, flag, x);
    }
    if NoResidue(t, c) {
      assert v == u;
    }
  }
}
