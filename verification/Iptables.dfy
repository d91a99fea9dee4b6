/**
 The iptables rules of the node: what SetupHostNetwork builds from the list of VPC networks, and what the NAT table
 then does to a packet that leaves.

 A rule is the text the source passes to iptables, kept as a datatype: two rules are the same text exactly when they are
 the same value. Rules of other programs are `Foreign`.
 */
module Iptables {
  import opened Common
  import opened IpRules

  datatype SnatType = SequentialSNAT | RandomHashSNAT | RandomPRNGSNAT
  datatype SnatFlag = NoFlag | Random | RandomFully

  datatype Spec =
    | JumpFirst                                     // -j QINGCLOUD-SNAT-CHAIN-0
    | JumpUnless(cidr: Cidr, next: nat)             // ! -d cidr -j QINGCLOUD-SNAT-CHAIN-next
    | Snat(toSource: IP, flag: SnatFlag)            // ! --dst-type LOCAL -j SNAT --to-source ...
    | AcceptIn | AcceptOut                          // -i nic+ / -o nic+ -j ACCEPT
    | SetMark(intf: gostring, mark: bv32)           // -j CONNMARK --set-mark
    | RestoreMark(mark: bv32)                       // -j CONNMARK --restore-mark
    | Foreign(text: gostring)

  /** A chain in its table. */
  datatype Chain = Postrouting | SnatChain(i: nat) | Forward | Prerouting | OtherChain(table: gostring, name: gostring)

  type Tables = map<Chain, seq<Spec>>

  function RemoveFirst(rules: seq<Spec>, spec: Spec): seq<Spec> {
    if rules == [] then [] else if rules[0] == spec then rules[1..] else [rules[0]] + RemoveFirst(rules[1..], spec)
  }

  class IPTables {
    var tables: Tables
    const hasRandomFully: bool

    method Exists(chain: Chain, spec: Spec) returns (found: bool)
      ensures found <==> chain in tables && spec in tables[chain]
    {
      return chain in tables && spec in tables[chain];
    }

    method Append(chain: Chain, spec: Spec)
      requires chain in tables
      modifies this`tables
      ensures tables == old(tables)[chain := old(tables)[chain] + [spec]]
    {
      tables := tables[chain := tables[chain] + [spec]];
    }

    method Delete(chain: Chain, spec: Spec)
      requires chain in tables
      modifies this`tables
      ensures tables == old(tables)[chain := RemoveFirst(old(tables)[chain], spec)]
    {
      tables := tables[chain := RemoveFirst(tables[chain], spec)];
    }

    /** False: "Chain already exists". */
    method NewChain(chain: Chain) returns (ok: bool)
      modifies this`tables
      ensures ok <==> chain !in old(tables)
      ensures tables == if ok then old(tables)[chain := []] else old(tables)
    {
      if chain in tables { return false; }
      tables := tables[chain := []];
      return true;
    }

    method ClearChain(chain: Chain)
      modifies this`tables
      ensures tables == old(tables)[chain := []]
    {
      tables := tables[chain := []];
    }
  }

  // ---------- host set-up ----------

  datatype Config = Config(useExternalSNAT: bool, nodePort: bool, typeOfSNAT: SnatType, mainNICMark: bv32,
                           primaryIntf: gostring, primaryAddr: IP, vpcCIDRs: seq<Cidr>)

  datatype Desired = Desired(shouldExist: bool, chain: Chain, spec: Spec)

  function FlagFor(t: SnatType, hasRandomFully: bool): SnatFlag {
    match t
    case SequentialSNAT => NoFlag
    case RandomHashSNAT => Random
    case RandomPRNGSNAT => if hasRandomFully then RandomFully else Random
  }

  predicate BuiltIn(t: Tables) { Postrouting in t && Forward in t && Prerouting in t }

  /** One desired rule brought about in its chain: appended if missing, its first occurrence removed if unwanted. */
  function Adjust(rules: seq<Spec>, spec: Spec, shouldExist: bool): seq<Spec> {
    if shouldExist then (if spec in rules then rules else rules + [spec]) else RemoveFirst(rules, spec)
  }

  /** The rules of chain x after set-up, from those it held before. */
  function FinalRules(was: seq<Spec>, c: Config, flag: SnatFlag, x: Chain): seq<Spec> {
    var n := |c.vpcCIDRs|;
    match x
    case Postrouting => Adjust(was, JumpFirst, !c.useExternalSNAT)
    case Forward => Adjust(Adjust(was, AcceptIn, true), AcceptOut, true)
    case Prerouting =>
      Adjust(Adjust(was, SetMark(c.primaryIntf, c.mainNICMark), c.nodePort), RestoreMark(c.mainNICMark), c.nodePort)
    case SnatChain(i) =>
      if i > n then was
      else if c.useExternalSNAT then []
      else if i < n then [JumpUnless(c.vpcCIDRs[i], i + 1)] else [Snat(c.primaryAddr, flag)]
    case OtherChain(_, _) => was
  }

  /** The chains there, and SNAT chains 0 to n - 1. */
  function Keys(t: Tables, n: nat): set<Chain> { t.Keys + set i | 0 <= i < n :: SnatChain(i) }

  /** SNAT chains 0 to n - 1 created, or cleared if they were there. */
  function Ready(t: Tables, n: nat): Tables {
    map x | x in Keys(t, n) :: if x.SnatChain? && x.i < n then [] else t[x]
  }

  /** The tables after set-up. */
  function Final(t: Tables, c: Config, flag: SnatFlag): Tables {
    map x | x in Keys(t, |c.vpcCIDRs| + 1) :: FinalRules(if x in t then t[x] else [], c, flag, x)
  }

  // ---------- the reconcile loop ----------

  function ReconcileOne(t: Tables, d: Desired): Tables
    requires d.chain in t
  {
    t[d.chain := Adjust(t[d.chain], d.spec, d.shouldExist)]
  }

  predicate AllIn(t: Tables, ds: seq<Desired>) { forall d :: d in ds ==> d.chain in t }

  function Reconcile(t: Tables, ds: seq<Desired>): (r: Tables)
    requires AllIn(t, ds)
    ensures r.Keys == t.Keys
    decreases |ds|
  {
    if ds == [] then t else Reconcile(ReconcileOne(t, ds[0]), ds[1..])
  }

  lemma {:induction false} ReconcileConcat(t: Tables, a: seq<Desired>, b: seq<Desired>)
    requires AllIn(t, a) && AllIn(t, b)
    ensures Reconcile(t, a + b) == Reconcile(Reconcile(t, a), b)
    decreases |a|
  {
    if a == [] {
      assert a + b == b;
    } else {
      assert (a + b)[1..] == a[1..] + b;
      ReconcileConcat(ReconcileOne(t, a[0]), a[1..], b);
    }
  }

  function CidrRules(c: Config): seq<Desired> {
    seq(|c.vpcCIDRs|, i requires 0 <= i < |c.vpcCIDRs| =>
      Desired(!c.useExternalSNAT, SnatChain(i), JumpUnless(c.vpcCIDRs[i], i + 1)))
  }

  function LastRules(c: Config, flag: SnatFlag): seq<Desired> {
    [Desired(true, Forward, AcceptIn), Desired(true, Forward, AcceptOut),
     Desired(!c.useExternalSNAT, SnatChain(|c.vpcCIDRs|), Snat(c.primaryAddr, flag)),
     Desired(c.nodePort, Prerouting, SetMark(c.primaryIntf, c.mainNICMark)),
     Desired(c.nodePort, Prerouting, RestoreMark(c.mainNICMark))]
  }

  function DesiredRules(c: Config, flag: SnatFlag): seq<Desired> {
    [Desired(!c.useExternalSNAT, Postrouting, JumpFirst)] + CidrRules(c) + LastRules(c, flag)
  }

  /** The SNAT chains 0 to n are there and empty. */
  predicate ChainsReady(t: Tables, n: nat) { forall i :: 0 <= i <= n ==> SnatChain(i) in t && t[SnatChain(i)] == [] }

  lemma CidrRulesIn(t: Tables, c: Config)
    requires ChainsReady(t, |c.vpcCIDRs|)
    ensures AllIn(t, CidrRules(c))
  {
    var ds := CidrRules(c);
    forall d | d in ds ensures d.chain in t {
      var i :| 0 <= i < |ds| && ds[i] == d;
    }
  }

  /** A chain no rule of the list is for stays as it is. */
  lemma {:induction false} Untouched(t: Tables, ds: seq<Desired>, x: Chain)
    requires AllIn(t, ds) && x in t && forall d :: d in ds ==> d.chain != x
    ensures Reconcile(t, ds)[x] == t[x]
    decreases |ds|
  {
    if ds != [] { Untouched(ReconcileOne(t, ds[0]), ds[1..], x); }
  }

  /** A chain one rule of the list is for is adjusted by that rule. */
  lemma TouchedOnce(t: Tables, front: seq<Desired>, d: Desired, back: seq<Desired>)
    requires AllIn(t, front) && AllIn(t, back) && d.chain in t
    requires forall e :: e in front || e in back ==> e.chain != d.chain
    ensures AllIn(t, front + [d] + back)
    ensures Reconcile(t, front + [d] + back)[d.chain] == Adjust(t[d.chain], d.spec, d.shouldExist)
  {
    hide Adjust, Reconcile;
    ReconcileConcat(t, front, [d]);
    ReconcileConcat(t, front + [d], back);
    Untouched(t, front, d.chain);
    ReconcileSingle(Reconcile(t, front), d);
    Untouched(Reconcile(t, front + [d]), back, d.chain);
  }

  /** The effect of the CIDR rules on one chain. */
  lemma CidrRulesWhole(t: Tables, c: Config, x: Chain)
    requires AllIn(t, CidrRules(c)) && x in t && ChainsReady(t, |c.vpcCIDRs|)
    ensures Reconcile(t, CidrRules(c))[x]
         == if x.SnatChain? && x.i < |c.vpcCIDRs| && !c.useExternalSNAT
            then [JumpUnless(c.vpcCIDRs[x.i], x.i + 1)] else t[x]
  {
    hide Reconcile;
    var ds := CidrRules(c);
    assert forall i :: 0 <= i < |ds| ==> ds[i].chain == SnatChain(i);
    if x.SnatChain? && x.i < |ds| {
      var front, d, back := ds[..x.i], ds[x.i], ds[x.i + 1..];
      assert ds == front + [d] + back;
      assert forall e :: e in front || e in back ==> e in ds;
      TouchedOnce(t, front, d, back);
    } else {
      Untouched(t, ds, x);
    }
  }

  lemma ReconcileLast(t: Tables, c: Config, flag: SnatFlag)
    requires BuiltIn(t) && SnatChain(|c.vpcCIDRs|) in t
    ensures AllIn(t, LastRules(c, flag))
    ensures var r := Reconcile(t, LastRules(c, flag));
      && r[Forward] == Adjust(Adjust(t[Forward], AcceptIn, true), AcceptOut, true)
      && r[SnatChain(|c.vpcCIDRs|)] == Adjust(t[SnatChain(|c.vpcCIDRs|)], Snat(c.primaryAddr, flag), !c.useExternalSNAT)
      && r[Prerouting] == Adjust(Adjust(t[Prerouting], SetMark(c.primaryIntf, c.mainNICMark), c.nodePort),
                                 RestoreMark(c.mainNICMark), c.nodePort)
      && forall x :: x in t && x !in {Forward, SnatChain(|c.vpcCIDRs|), Prerouting} ==> r[x] == t[x]
  {
    hide Adjust;
    var ds := LastRules(c, flag);
    var t1 := ReconcileOne(t, ds[0]);
    var t2 := ReconcileOne(t1, ds[1]);
    var t3 := ReconcileOne(t2, ds[2]);
    var t4 := ReconcileOne(t3, ds[3]);
    assert ds[1..][0] == ds[1] && ds[2..][0] == ds[2] && ds[3..][0] == ds[3] && ds[4..] == [ds[4]];
    assert ds[1..][1..] == ds[2..] && ds[2..][1..] == ds[3..] && ds[3..][1..] == ds[4..];
    assert Reconcile(t4, ds[4..]) == ReconcileOne(t4, ds[4]);
    assert Reconcile(t3, ds[3..]) == ReconcileOne(t4, ds[4]);
    assert Reconcile(t2, ds[2..]) == ReconcileOne(t4, ds[4]);
    assert Reconcile(t1, ds[1..]) == ReconcileOne(t4, ds[4]);
  }

  /** The three stages of reconciling freshly cleared chains. */
  lemma ReconcileStages(t: Tables, c: Config, flag: SnatFlag) returns (t1: Tables, t2: Tables)
    requires BuiltIn(t) && ChainsReady(t, |c.vpcCIDRs|)
    ensures t1 == ReconcileOne(t, Desired(!c.useExternalSNAT, Postrouting, JumpFirst))
    ensures AllIn(t1, CidrRules(c)) && t2 == Reconcile(t1, CidrRules(c))
    ensures AllIn(t2, LastRules(c, flag)) && AllIn(t, DesiredRules(c, flag))
    ensures Reconcile(t, DesiredRules(c, flag)) == Reconcile(t2, LastRules(c, flag))
  {
    hide Adjust, LastRules, CidrRules, Reconcile;
    var d := Desired(!c.useExternalSNAT, Postrouting, JumpFirst);
    CidrRulesIn(t, c);
    ReconcileLast(t, c, flag);
    ReconcileSingle(t, d);
    t1 := ReconcileOne(t, d);
    t2 := Reconcile(t1, CidrRules(c));
    ReconcileConcat(t, [d], CidrRules(c));
    ReconcileConcat(t, [d] + CidrRules(c), LastRules(c, flag));
  }

  /** Reconciling freshly cleared chains gives the final tables. */
  lemma ReconcileIsFinal(t: Tables, c: Config, flag: SnatFlag)
    requires BuiltIn(t)
    ensures var ready := Ready(t, |c.vpcCIDRs| + 1);
      AllIn(ready, DesiredRules(c, flag)) && Reconcile(ready, DesiredRules(c, flag)) == Final(t, c, flag)
  {
    hide Adjust, LastRules, CidrRules, Reconcile, ReconcileOne, DesiredRules, FinalRules;
    var t0 := Ready(t, |c.vpcCIDRs| + 1);
    var t1, t2 := ReconcileStages(t0, c, flag);
    var t3, end := Reconcile(t2, LastRules(c, flag)), Final(t, c, flag);
    forall x ensures (x in t3 <==> x in end) && (x in t3 ==> t3[x] == end[x]) {
      StagesAt(t, t0, t1, t2, c, flag, x);
    }
    assert t3 == end;
  }

  lemma StagesAt(t: Tables, t0: Tables, t1: Tables, t2: Tables, c: Config, flag: SnatFlag, x: Chain)
    requires BuiltIn(t) && t0 == Ready(t, |c.vpcCIDRs| + 1)
    requires t1 == ReconcileOne(t0, Desired(!c.useExternalSNAT, Postrouting, JumpFirst))
    requires AllIn(t1, CidrRules(c)) && t2 == Reconcile(t1, CidrRules(c)) && AllIn(t2, LastRules(c, flag))
    ensures var t3 := Reconcile(t2, LastRules(c, flag));
      && t3.Keys == Keys(t, |c.vpcCIDRs| + 1)
      && (x in t3 ==> t3[x] == FinalRules(if x in t then t[x] else [], c, flag, x))
  {
    hide LastRules, CidrRules, Reconcile;
    assert t0.Keys == Keys(t, |c.vpcCIDRs| + 1) && t1.Keys == t0.Keys;
    if x in t1 { CidrRulesWhole(t1, c, x); }
    ReconcileLast(t2, c, flag);
  }

  lemma ReconcileSingle(t: Tables, d: Desired)
    requires d.chain in t
    ensures Reconcile(t, [d]) == ReconcileOne(t, d)
  {}

  /** The chains of the node after set-up, rule by rule. With external SNAT off: the jump stands in POSTROUTING, chain
      i passes on what is outside network i, and the last chain translates to the primary address, with no flag if
      ports are to be sequential, with --random-fully if that is asked for and supported, and with --random otherwise.
      With external SNAT on the chains are empty. Pod traffic is accepted both ways, and marks are set and restored if
      node ports are supported. */
  lemma ChainByChain(t: Tables, c: Config, hasRandomFully: bool)
    requires BuiltIn(t)
    ensures var t', n := Final(t, c, FlagFor(c.typeOfSNAT, hasRandomFully)), |c.vpcCIDRs|;
      && (forall i: nat :: i <= n ==> SnatChain(i) in t') && BuiltIn(t')
      && (c.useExternalSNAT ==> forall i: nat :: i <= n ==> t'[SnatChain(i)] == [])
      && (!c.useExternalSNAT ==>
            && JumpFirst in t'[Postrouting]
            && (forall i: nat :: i < n ==> t'[SnatChain(i)] == [JumpUnless(c.vpcCIDRs[i], i + 1)])
            && |t'[SnatChain(n)]| == 1 && t'[SnatChain(n)][0].Snat? && t'[SnatChain(n)][0].toSource == c.primaryAddr
            && (t'[SnatChain(n)][0].flag == NoFlag <==> c.typeOfSNAT == SequentialSNAT)
            && (t'[SnatChain(n)][0].flag == RandomFully <==> c.typeOfSNAT == RandomPRNGSNAT && hasRandomFully))
      && AcceptIn in t'[Forward] && AcceptOut in t'[Forward]
      && (c.nodePort ==> SetMark(c.primaryIntf, c.mainNICMark) in t'[Prerouting])
      && (c.nodePort ==> RestoreMark(c.mainNICMark) in t'[Prerouting])
  {
    var n := |c.vpcCIDRs|;
    forall i: nat | i <= n ensures SnatChain(i) in Keys(t, n + 1) {}
    hide Keys;
    AdjustedIn(t[Postrouting], JumpFirst, JumpFirst);
    AdjustedIn(t[Forward], AcceptIn, AcceptOut);
    AdjustedIn(t[Prerouting], SetMark(c.primaryIntf, c.mainNICMark), RestoreMark(c.mainNICMark));
  }

  lemma AdjustedIn(rules: seq<Spec>, a: Spec, b: Spec)
    ensures a in Adjust(rules, a, true)
    ensures a in Adjust(Adjust(rules, a, true), b, true) && b in Adjust(Adjust(rules, a, true), b, true)
  {}

  /** The unwanted jump and marks are gone, if they were there at most once. */
  lemma UnwantedGone(t: Tables, c: Config, flag: SnatFlag)
    requires BuiltIn(t)
    ensures var t' := Final(t, c, flag); BuiltIn(t')
    ensures var t' := Final(t, c, flag);
      c.useExternalSNAT && multiset(t[Postrouting])[JumpFirst] <= 1 ==> JumpFirst !in t'[Postrouting]
    ensures var t', set_ := Final(t, c, flag), SetMark(c.primaryIntf, c.mainNICMark);
      var restore := RestoreMark(c.mainNICMark);
      !c.nodePort && multiset(t[Prerouting])[set_] <= 1 && multiset(t[Prerouting])[restore] <= 1 ==>
        set_ !in t'[Prerouting] && restore !in t'[Prerouting]
  {
    GoneOnce(t[Postrouting], JumpFirst, JumpFirst);
    GoneOnce(t[Prerouting], SetMark(c.primaryIntf, c.mainNICMark), RestoreMark(c.mainNICMark));
    hide RemoveFirst;
  }

  /** Two rules removed, or one that stands for both. */
  lemma GoneOnce(rules: seq<Spec>, a: Spec, b: Spec)
    ensures multiset(rules)[a] <= 1 ==> a !in RemoveFirst(rules, a)
    ensures multiset(rules)[a] <= 1 && multiset(rules)[b] <= 1 ==>
      a !in RemoveFirst(RemoveFirst(rules, a), b) && b !in RemoveFirst(RemoveFirst(rules, a), b)
  {
    OneLess(rules, a);
    OneLess(RemoveFirst(rules, a), b);
    forall x ensures x in RemoveFirst(rules, a) <==> multiset(RemoveFirst(rules, a))[x] > 0 {}
    var rest := RemoveFirst(RemoveFirst(rules, a), b);
    forall x ensures x in rest <==> multiset(rest)[x] > 0 {}
  }

  lemma {:induction false} OneLess(rules: seq<Spec>, spec: Spec)
    ensures multiset(RemoveFirst(rules, spec)) == multiset(rules) - multiset{spec}
  {
    if rules != [] {
      assert rules == [rules[0]] + rules[1..];
      if rules[0] != spec { OneLess(rules[1..], spec); }
    }
  }

  /** The iptables part of SetupHostNetwork. */
  method SetupHostNetwork(ipt: IPTables, c: Config)
    requires BuiltIn(ipt.tables)
    modifies ipt`tables
    ensures ipt.tables == Final(old(ipt.tables), c, FlagFor(c.typeOfSNAT, ipt.hasRandomFully))
    ensures var last := SnatChain(|c.vpcCIDRs|);
      var flag := if c.typeOfSNAT == SequentialSNAT then NoFlag
                  else if c.typeOfSNAT == RandomPRNGSNAT && ipt.hasRandomFully then RandomFully else Random;
      !c.useExternalSNAT ==> last in ipt.tables && ipt.tables[last] == [Snat(c.primaryAddr, flag)]
  {
    ChainByChain(ipt.tables, c, ipt.hasRandomFully);
    ghost var t := ipt.tables;
    PrepareChains(ipt, |c.vpcCIDRs|);
    var rules := BuildRules(c, ipt.hasRandomFully);
    ReconcileIsFinal(t, c, FlagFor(c.typeOfSNAT, ipt.hasRandomFully));
    ReconcileRules(ipt, rules);
  }

  /** Creates chains 0 to n, clearing those that are there already. */
  method PrepareChains(ipt: IPTables, n: nat)
    modifies ipt`tables
    ensures ipt.tables == Ready(old(ipt.tables), n + 1)
  {
    var i := 0;
    while i <= n
      invariant i <= n + 1 && ipt.tables == Ready(old(ipt.tables), i)
    {
      var chain := SnatChain(i);
      var ok := ipt.NewChain(chain);
      if !ok {
        ipt.ClearChain(chain);
      }
      i := i + 1;
      assert Keys(old(ipt.tables), i) == Keys(old(ipt.tables), i - 1) + {chain};
    }
  }

  method BuildRules(c: Config, hasRandomFully: bool) returns (rules: seq<Desired>)
    ensures rules == DesiredRules(c, FlagFor(c.typeOfSNAT, hasRandomFully))
  {
    rules := [Desired(!c.useExternalSNAT, Postrouting, JumpFirst)];
    for i := 0 to |c.vpcCIDRs|
      invariant rules == [Desired(!c.useExternalSNAT, Postrouting, JumpFirst)] + CidrRules(c)[..i]
    {
      rules := rules + [Desired(!c.useExternalSNAT, SnatChain(i), JumpUnless(c.vpcCIDRs[i], i + 1))];
    }
    var flag := NoFlag;
    if c.typeOfSNAT == RandomHashSNAT { flag := Random; }
    if c.typeOfSNAT == RandomPRNGSNAT {
      if hasRandomFully { flag := RandomFully; } else { flag := Random; }
    }
    rules := rules + [Desired(true, Forward, AcceptIn)];
    rules := rules + [Desired(true, Forward, AcceptOut)];
    rules := rules + [Desired(!c.useExternalSNAT, SnatChain(|c.vpcCIDRs|), Snat(c.primaryAddr, flag))];
    rules := rules + [Desired(c.nodePort, Prerouting, SetMark(c.primaryIntf, c.mainNICMark))];
    rules := rules + [Desired(c.nodePort, Prerouting, RestoreMark(c.mainNICMark))];
  }

  method ReconcileRules(ipt: IPTables, rules: seq<Desired>)
    requires AllIn(ipt.tables, rules)
    modifies ipt`tables
    ensures ipt.tables == Reconcile(old(ipt.tables), rules)
  {
    var i := 0;
    while i < |rules|
      invariant i <= |rules| && AllIn(ipt.tables, rules[i..])
      invariant Reconcile(ipt.tables, rules[i..]) == Reconcile(old(ipt.tables), rules)
    {
      var rule := rules[i];
      assert rules[i..][0] == rule && rules[i..][1..] == rules[i + 1..];
      ghost var t := ipt.tables;
      var exists_ := ipt.Exists(rule.chain, rule.spec);
      if !exists_ && rule.shouldExist {
        ipt.Append(rule.chain, rule.spec);
      } else if exists_ && !rule.shouldExist {
        ipt.Delete(rule.chain, rule.spec);
      } else if !exists_ {
        RemoveAbsent(ipt.tables[rule.chain], rule.spec);
      }
      assert ipt.tables == ReconcileOne(t, rule);
      i := i + 1;
    }
  }

  lemma {:induction false} RemoveAbsent(rules: seq<Spec>, spec: Spec)
    requires spec !in rules
    ensures RemoveFirst(rules, spec) == rules
  {
    if rules != [] { RemoveAbsent(rules[1..], spec); }
  }
}
