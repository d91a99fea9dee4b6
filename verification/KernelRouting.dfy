/**
 Routing on a real node: the kernel's own three rules stand in the list from the start, the local table at priority 0,
 the main table at 32766 and the default table at 32767. All priorities and tables are spelled out.
 */
module KernelRouting {
  import opened Common
  import opened IpRules
  import opened Driver
  import opened PolicyRouting
  import opened NodeRuns

  const KERNEL: seq<Rule> := 
    [Rule(0, None, None, None, 255), Rule(32766, None, None, None, 254), Rule(32767, None, None, None, 253)]

  lemma KernelIsPlain()
    ensures PlainBase(KERNEL)
  {
    assert KERNEL[1..] == [KERNEL[1], KERNEL[2]] && KERNEL[1..][1..] == [KERNEL[2]] && KERNEL[1..][1..][1..] == [];
    assert Ordered([KERNEL[2]]) && Ordered(KERNEL[1..]);
  }

  lemma KernelFirst(p: Packet)
    ensures First(KERNEL, p) ==
      if 255 !in p.misses then Some(KERNEL[0]) else if 254 !in p.misses then Some(KERNEL[1])
      else if 253 !in p.misses then Some(KERNEL[2]) else None
  {
    var last, rest := [KERNEL[2]], [KERNEL[1], KERNEL[2]];
    assert KERNEL[1..] == rest && rest[1..] == last && last[1..] == [];
    assert First(last, p) == if 253 !in p.misses then Some(KERNEL[2]) else None;
    assert First(rest, p) == if 254 !in p.misses then Some(KERNEL[1]) else First(last, p);
  }

  /** What the kernel does by itself with traffic that is not for the node. */
  function ByKernel(p: Packet): Option<int> {
    if 254 !in p.misses then Some(254) else if 253 !in p.misses then Some(253) else None
  }

  /** Every packet, after any run: local traffic by the local table; to a pod, or marked, by the main table; a pod's
      own traffic by the first of its from-pod rules that selects it, although the main table has a route; all else as
      the kernel does by itself. */
  lemma KernelClassified(ops: seq<NodeOp>, p: Packet)
    ensures var n := After(KERNEL, ops).plan;
      var from := First(FromOf(n, p.src), p);
      Lookup(After(KERNEL, ops).rules, p) ==
        if 255 !in p.misses then Some(255)
        else if p.dst in n.reach && 254 !in p.misses then Some(254)
        else if (exists m :: m in n.marks && p.mark & m == m) && 254 !in p.misses then Some(254)
        else if from.Some? then Some(from.value.table)
        else ByKernel(p)
  {
    var n := After(KERNEL, ops).plan;
    assert Marked(p, n.marks) <==> exists m :: m in n.marks && p.mark & m == m;
    hide After, FromOf, PlainBase, First, Marked;
    KernelIsPlain();
    AlwaysClassified(KERNEL, ops, p);
    KernelFirst(p);
  }

  /** After any run, a pod whose from-pod rules are those of one route sends its unmarked traffic to the route's
      destinations by its own table and everything else as the kernel does by itself, though the main table has a route
      for all. */
  lemma PodLeavesByOwnTable(ops: seq<NodeOp>, p: Packet, table: int, to: Option<seq<Cidr>>)
    requires ExactlyRoute(FromOf(After(KERNEL, ops).plan, p.src), p.src, Route(table, to))
    requires p.dst !in After(KERNEL, ops).plan.reach && !Marked(p, After(KERNEL, ops).plan.marks)
    requires 255 in p.misses && table !in p.misses
    ensures Lookup(After(KERNEL, ops).rules, p) ==
      if to.None? || Within(p.dst, to.value) then Some(table) else ByKernel(p)
  {
    hide After, FromOf, PlainBase, ExactlyRoute, First, Within;
    KernelIsPlain();
    KernelClassified(ops, p);
    PlannedRoute(KERNEL, ops, p, Route(table, to));
  }

  /** A pod set up last, on a NIC table, its address without from-pod rules before: its unmarked traffic to the VPC
      networks and the tunnel, or with external SNAT anywhere, leaves by that table, and what is for it comes by the
      main table. */
  lemma FreshPodRouted(ops: seq<NodeOp>, a: IP, table: int, cidrs: seq<Cidr>, external: bool, tunnel: Option<Cidr>,
                       p: Packet)
    requires table > 0 && FromOf(After(KERNEL, ops).plan, a) == [] && 255 in p.misses
    ensures var n := After(KERNEL, ops + [PodSetup(a, table, cidrs, external, tunnel)]);
      && (p.dst == a && 254 !in p.misses ==> Lookup(n.rules, p) == Some(254))
      && (p.src == a && p.dst !in n.plan.reach && !Marked(p, n.plan.marks) && table !in p.misses ==>
            Lookup(n.rules, p) ==
              if external || Within(p.dst, cidrs) || (tunnel.Some? && Contains(tunnel.value, p.dst)) then Some(table)
              else ByKernel(p))
  {
    var op := PodSetup(a, table, cidrs, external, tunnel);
    var n := After(KERNEL, ops + [op]);
    OneMoreOp(KERNEL, ops, op);
    FreshPlan(After(KERNEL, ops).plan, a, table, cidrs, external, tunnel);
    hide After, FromOf, ExactlyRoute, First, Within, Contains, ApplyPlan, FreshRoute;
    if p.dst == a { KernelClassified(ops + [op], p); }
    if p.src == a && p.dst !in n.plan.reach && !Marked(p, n.plan.marks) && table !in p.misses {
      var route := FreshRoute(table, cidrs, external, tunnel);
      FreshDestinations(table, cidrs, external, tunnel, p.dst);
      PodLeavesByOwnTable(ops + [op], p, table, route.to);
    }
  }

  lemma OneMoreOp(base: seq<Rule>, ops: seq<NodeOp>, op: NodeOp)
    ensures After(base, ops + [op]).plan == ApplyPlan(After(base, ops).plan, op)
  {
    assert (ops + [op])[..|ops + [op]| - 1] == ops;
  }

  lemma FreshPlan(n: Plan, a: IP, table: int, cidrs: seq<Cidr>, external: bool, tunnel: Option<Cidr>)
    requires table > 0 && FromOf(n, a) == []
    ensures var n' := ApplyPlan(n, PodSetup(a, table, cidrs, external, tunnel));
      a in n'.reach && ExactlyRoute(FromOf(n', a), a, FreshRoute(table, cidrs, external, tunnel))
  {
    hide ExactlyRoute, FromPodRules;
    RouteRulesExactly([], a, FreshRoute(table, cidrs, external, tunnel));
  }

  lemma FreshDestinations(table: int, cidrs: seq<Cidr>, external: bool, tunnel: Option<Cidr>, dst: IP)
    ensures var route := FreshRoute(table, cidrs, external, tunnel);
      && route.table == table
      && (route.to.None? || Within(dst, route.to.value) <==>
            external || Within(dst, cidrs) || (tunnel.Some? && Contains(tunnel.value, dst)))
  {
    hide Contains;
    if !external {
      var all := WithTunnel(cidrs, tunnel);
      assert forall c :: c in all <==> c in cidrs || (tunnel.Some? && c == tunnel.value) by {
        if tunnel.Some? { assert all[|cidrs|] == tunnel.value; }
      }
      if c :| c in cidrs && Contains(c, dst) { assert c in all; }
    }
  }

  // ---------- the places that are left to others ----------

  /** A rule of others that selects everything. */
  function Other(priority: int, table: int): Rule { Rule(priority, None, None, None, table) }

  /** Where rules of others stand, with the source's own numbers: up to 511 before all, from 513 to 1023 after the
      rules to pods, from 1025 to 1535 after marked traffic too, and from 1537 on after all. */
  lemma PlacesOfOthers(ops: seq<NodeOp>, q: int, table: int, p: Packet)
    requires q !in {512, 1024, 1536} && table !in p.misses && 254 !in p.misses
    ensures var base := [Other(q, table)];
      var n := After(base, ops).plan;
      var from := First(FromOf(n, p.src), p);
      Lookup(After(base, ops).rules, p) ==
        if q < 512 then Some(table)
        else if p.dst in n.reach then Some(254)
        else if q < 1024 then Some(table)
        else if Marked(p, n.marks) then Some(254)
        else if q < 1536 then Some(table)
        else if from.Some? then Some(from.value.table) else Some(table)
  {
    var base := [Other(q, table)];
    assert base[1..] == [];
    assert Ordered([]) && Ordered(base) && PlainBase(base);
    hide After, FromOf, Marked, PlainBase;
    AlwaysClassified(base, ops, p);
    assert First(base, p) == Some(Other(q, table));
  }
}
