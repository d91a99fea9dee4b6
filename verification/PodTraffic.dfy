/** Routing and translation together: what happens to a pod's traffic on a node. */
module PodTraffic {
  import opened Common
  import opened IpRules
  import opened Driver
  import opened PolicyRouting
  import opened NodeRuns
  import opened KernelRouting
  import Iptables
  import SnatMeaning

  /** The node: policy rules after any run, NAT tables after host set-up with any settings. */
  ghost predicate OnNode(base: seq<Rule>, t: Iptables.Tables) {
    && PlainBase(base)
    && Iptables.BuiltIn(t) && SnatMeaning.OwnJumpOnly(t[Iptables.Postrouting])
  }

  /** The packet is from a pod whose from-pod rules are those of a route for these VPC networks, to somebody who is not
      a pod here, the main table and the pod's have a route for it, and no rule of others comes first. */
  ghost predicate Leaving(base: seq<Rule>, n: Plan, p: Packet, table: int, cidrs: seq<Cidr>) {
    && ExactlyRoute(FromOf(n, p.src), p.src, Route(table, Some(Destinations(cidrs, p.src)))) && p.dst !in n.reach
    && MAIN_TABLE !in p.misses && table !in p.misses
    && (First(base, p).Some? ==> First(base, p).value.priority > FROM_POD)
  }

  /** Where a packet that leaves goes, and under which address: marked traffic by the main table; into the VPC by the
      pod's own NIC, untranslated; elsewhere by the node's other rules with the node's address. The VPN gateway, if it
      is outside the VPC networks, is reached by the pod's NIC and yet under the node's address. */
  lemma PodToElsewhere(base: seq<Rule>, ops: seq<NodeOp>, t: Iptables.Tables, c: Iptables.Config,
                       flag: Iptables.SnatFlag, p: Packet, table: int, out: SnatMeaning.Packet, fuel: nat)
    requires OnNode(base, t) && fuel > |c.vpcCIDRs| && out.dst == p.dst && !out.dstLocal
    requires Leaving(base, After(base, ops).plan, p, table, c.vpcCIDRs)
    requires !SnatMeaning.ClaimedBefore(Iptables.Final(t, c, flag)[Iptables.Postrouting], out)
    ensures var n := After(base, ops).plan;
      Lookup(After(base, ops).rules, p) ==
        if Marked(p, n.marks) then Some(MAIN_TABLE)
        else if Within(p.dst, c.vpcCIDRs) || p.dst == VPNNet(p.src).base then Some(table)
        else Lookup(base, p)
    ensures var verdict := SnatMeaning.Outcome(Iptables.Final(t, c, flag), out, fuel);
      if Within(p.dst, c.vpcCIDRs) || c.useExternalSNAT then !verdict.SnatTo?
      else verdict == SnatMeaning.SnatTo(c.primaryAddr, flag)
  {
    hide PlainBase, Marked, After, First, ExactlyRoute, Covers;
    AlwaysClassified(base, ops, p);
    PlannedRoute(base, ops, p, Route(table, Some(Destinations(c.vpcCIDRs, p.src))));
    CoversNetworks(table, Destinations(c.vpcCIDRs, p.src), p.dst);
    SnatMeaning.SnatExactly(t, c, flag, out, fuel);
    InsideOrOut(c.vpcCIDRs, p.dst);
    ThroughOwnNIC(c.vpcCIDRs, p.src, p.dst);
  }

  /** The run that sets up one pod, from a node without rules. */
  function OneSetup(a: IP, table: int, vpc: Cidr): seq<NodeOp> { [PodSetup(a, table, [vpc], false, Some(VPNNet(a)))] }

  /** NAT tables without rules, and a node in one VPC network. */
  const EMPTY: Iptables.Tables := map[Iptables.Postrouting := [], Iptables.Forward := [], Iptables.Prerouting := []]
  function OneNetwork(vpc: Cidr, primary: IP): Iptables.Config {
    Iptables.Config(false, false, Iptables.SequentialSNAT, 0, [], primary, [vpc])
  }

  /** One pod whose VPN gateway is outside the VPC network: to the gateway by the pod's NIC, with the node's address. */
  lemma VpnOfOnePod(a: IP, table: int, vpc: Cidr, primary: IP)
    requires table > 0 && !Contains(vpc, VPNNet(a).base) && a != VPNNet(a).base
    ensures var gateway := VPNNet(a).base;
      && Lookup(After([], OneSetup(a, table, vpc)).rules, Packet(a, gateway, 0, {})) == Some(table)
      && SnatMeaning.Outcome(Iptables.Final(EMPTY, OneNetwork(vpc, primary), Iptables.NoFlag),
                             SnatMeaning.Packet(gateway, false, {}), 2) == SnatMeaning.SnatTo(primary, Iptables.NoFlag)
  {
    var c, gateway := OneNetwork(vpc, primary), VPNNet(a).base;
    var p, out := Packet(a, gateway, 0, {}), SnatMeaning.Packet(gateway, false, {});
    assert !Marked(p, {});
    assert !Within(gateway, [vpc]);
    hide PlainBase, After, Marked, Lookup, Contains, VPNNet, OneSetup, SnatMeaning.Outcome, Iptables.Final,
      SnatMeaning.ClaimedBefore;
    OnePod(a, table, vpc);
    NoneClaimed(EMPTY, c, out);
    PodToElsewhere([], OneSetup(a, table, vpc), EMPTY, c, Iptables.NoFlag, p, table, out, 2);
  }

  lemma OnePod(a: IP, table: int, vpc: Cidr)
    requires table > 0
    ensures var n := After([], OneSetup(a, table, vpc)).plan;
      && PlainBase([]) && n.reach == {a} && n.marks == {}
      && ExactlyRoute(FromOf(n, a), a, Route(table, Some(Destinations([vpc], a))))
  {
    hide ApplyRules, FromPodRules, ExactlyRoute;
    var ops := OneSetup(a, table, vpc);
    assert ops[..|ops| - 1] == [] && After([], []).plan == NOTHING;
    assert WithTunnel([vpc], Some(VPNNet(a))) == Destinations([vpc], a);
    RouteRulesExactly([], a, Route(table, Some(Destinations([vpc], a))));
  }

  /** At 10.1.0.5 on table 2 with the VPC network 10.2.0.0/16: the gateway 10.1.255.254 is such a case. */
  lemma VpnIsTranslated(primary: IP)
    ensures var vpc, gateway: IP := Cidr(0x0A02_0000, 16), 0x0A01_FFFE;
      && VPNNet(0x0A01_0005) == Host(gateway) && !Contains(vpc, gateway)
      && Lookup(After([], OneSetup(0x0A01_0005, 2, vpc)).rules, Packet(0x0A01_0005, gateway, 0, {})) == Some(2)
      && SnatMeaning.Outcome(Iptables.Final(EMPTY, OneNetwork(vpc, primary), Iptables.NoFlag),
                             SnatMeaning.Packet(gateway, false, {}), 2) == SnatMeaning.SnatTo(primary, Iptables.NoFlag)
  {
    hide After, Lookup, OneSetup, SnatMeaning.Outcome, Iptables.Final;
    OutsideVpc(0x0A01_FFFE, Cidr(0x0A02_0000, 16));
    VpnOfOnePod(0x0A01_0005, 2, Cidr(0x0A02_0000, 16), primary);
  }

  lemma OutsideVpc(a: IP, vpc: Cidr)
    requires a == 0x0A01_FFFE && vpc == Cidr(0x0A02_0000, 16)
    ensures !Contains(vpc, a) && !Within(a, [vpc])
  {
    assert Pow2(16) == 0x1_0000 by {
      assert Pow2(4) == 16 && Pow2(8) == 16 * Pow2(4) && Pow2(12) == 16 * Pow2(8) && Pow2(16) == 16 * Pow2(12);
    }
  }

  lemma NoneClaimed(t: Iptables.Tables, c: Iptables.Config, out: SnatMeaning.Packet)
    requires Iptables.BuiltIn(t) && t[Iptables.Postrouting] == [] && !c.useExternalSNAT
    ensures !SnatMeaning.ClaimedBefore(Iptables.Final(t, c, Iptables.NoFlag)[Iptables.Postrouting], out)
  {
    assert Iptables.Final(t, c, Iptables.NoFlag)[Iptables.Postrouting] == [Iptables.JumpFirst];
  }

  /** On a node with the kernel's own rules nothing has to be asked of the others: though the main table has a route
      for all that a pod sends, its traffic into the VPC, and to the VPN gateway, leaves by its own table, and the rest
      by the main table with the node's address. */
  lemma PodOnKernel(ops: seq<NodeOp>, t: Iptables.Tables, c: Iptables.Config, flag: Iptables.SnatFlag, p: Packet,
                    table: int, out: SnatMeaning.Packet, fuel: nat)
    requires Iptables.BuiltIn(t) && SnatMeaning.OwnJumpOnly(t[Iptables.Postrouting])
    requires fuel > |c.vpcCIDRs| && out.dst == p.dst && !out.dstLocal
    requires var n := After(KERNEL, ops).plan;
      ExactlyRoute(FromOf(n, p.src), p.src, Route(table, Some(Destinations(c.vpcCIDRs, p.src)))) && p.dst !in n.reach
    requires 255 in p.misses && 254 !in p.misses && table !in p.misses
    requires !SnatMeaning.ClaimedBefore(Iptables.Final(t, c, flag)[Iptables.Postrouting], out)
    ensures Lookup(After(KERNEL, ops).rules, p) ==
      if !Marked(p, After(KERNEL, ops).plan.marks) && (Within(p.dst, c.vpcCIDRs) || p.dst == VPNNet(p.src).base)
      then Some(table) else Some(254)
    ensures var verdict := SnatMeaning.Outcome(Iptables.Final(t, c, flag), out, fuel);
      if Within(p.dst, c.vpcCIDRs) || c.useExternalSNAT then !verdict.SnatTo?
      else verdict == SnatMeaning.SnatTo(c.primaryAddr, flag)
  {
    hide PlainBase, Marked, After, First, ExactlyRoute, Within, VPNNet, Iptables.Final, SnatMeaning.ClaimedBefore,
      SnatMeaning.Outcome, SnatMeaning.OwnJumpOnly;
    KernelIsPlain();
    KernelFirst(p);
    PodToElsewhere(KERNEL, ops, t, c, flag, p, table, out, fuel);
  }

  lemma CoversNetworks(table: int, cidrs: seq<Cidr>, a: IP)
    ensures Covers(Route(table, Some(cidrs)), a) <==> Within(a, cidrs)
  {}

  lemma InsideOrOut(cidrs: seq<Cidr>, a: IP)
    ensures Within(a, cidrs) <==> !SnatMeaning.Outside(cidrs, a)
  {
    hide Contains;
  }

  lemma ThroughOwnNIC(cidrs: seq<Cidr>, src: IP, dst: IP)
    ensures Within(dst, Destinations(cidrs, src)) <==> Within(dst, cidrs) || dst == VPNNet(src).base
  {
    var vpn := VPNNet(src);
    HostContains(vpn.base, dst);
    assert vpn in Destinations(cidrs, src);
    assert forall c :: c in Destinations(cidrs, src) <==> c in cidrs || c == vpn;
    hide Contains;
    if Within(dst, cidrs) {
      var c :| c in cidrs && Contains(c, dst);
      assert c in Destinations(cidrs, src);
    }
  }
}
