/** Whole runs of a node: host set-ups and restarts, pods set up, torn down and recovered, with any network lists, in
    any order. In every state the rule list holds exactly what these operations stand for, so every packet is routed as
    intended. */
module NodeRuns {
  import opened Common
  import opened IpRules
  import opened Driver
  import opened PolicyRouting
  import opened RuleUpdate

  // ---------- operations ----------

  /** A host set-up, at a start or a restart, with the connection mark of the moment; a pod set up or torn down; a pod's
      rules rebuilt at a restart. Each has its own VPC networks and external SNAT setting. */
  datatype NodeOp =
    | HostSetup(mark: bv32, nodePort: bool)
    | PodSetup(a: IP, table: int, cidrs: seq<Cidr>, external: bool, tunnel: Option<Cidr>)
    | PodTeardown(a: IP, table: int)
    | Recover(a: IP, table: int, cidrs: seq<Cidr>, external: bool)

  /** The kernel's rules, and what they stand for. */
  datatype Node = Node(rules: seq<Rule>, plan: Plan)

  /** Host set-up keeps the new mark or takes it back; set-up and tear-down of a pod touch its from-pod rules on a NIC
      table only; recovery puts the updated route in their place. */
  function ApplyPlan(n: Plan, op: NodeOp): Plan {
    match op
    case HostSetup(mark, nodePort) => n.(marks := if nodePort then n.marks + {mark} else n.marks - {mark})
    case PodSetup(a, table, cidrs, external, tunnel) =>
      var from := SetupFrom(FromOf(n, a), a, table, cidrs, external, tunnel).rules;
      n.(reach := n.reach + {a}, from := if table > 0 then n.from[a := from] else n.from)
    case PodTeardown(a, table) => n.(reach := n.reach - {a}, from := if table > 0 then n.from[a := []] else n.from)
    case Recover(a, table, cidrs, external) =>
      var route := UpdatedRoute(FromOf(n, a), Destinations(cidrs, a), !external, table);
      n.(from := n.from[a := RouteRules([], a, route)])
  }

  function ApplyRules(rules: seq<Rule>, op: NodeOp): seq<Rule> {
    match op
    case HostSetup(mark, nodePort) => HostRules(rules, mark, nodePort)
    case PodSetup(a, table, cidrs, external, tunnel) => SetupRules(rules, a, table, cidrs, external, tunnel).rules
    case PodTeardown(a, table) => TeardownRules(rules, a, table)
    case Recover(a, table, cidrs, external) =>
      UpdateRules(rules, BySrc(rules, a), a, Destinations(cidrs, a), !external, table).rules
  }

  const NOTHING := Plan({}, map[], {})

  /** The node after these operations. */
  function After(base: seq<Rule>, ops: seq<NodeOp>): Node {
    if ops == [] then Node(base, NOTHING)
    else
      var n := After(base, ops[..|ops| - 1]);
      Node(ApplyRules(n.rules, ops[|ops| - 1]), ApplyPlan(n.plan, ops[|ops| - 1]))
  }

  /** Rules the node had before, at any priority but the managed ones, none by source. */
  ghost predicate PlainBase(base: seq<Rule>) {
    Ordered(base) && NoSource(base) && forall r :: r in base ==> !Managed(r)
  }

  predicate NoSource(base: seq<Rule>) { forall r :: r in base ==> r.src.None? }

  // ---------- managed rules come and go ----------

  lemma CoreInsert(rules: seq<Rule>, base: seq<Rule>, r: Rule)
    requires Core(rules, base) && Managed(r) && r !in rules
    ensures Core(Insert(rules, r), base)
  {
    InsertOrdered(rules, r);
    FilterInsert(rules, r, (x: Rule) => !Managed(x));
  }

  lemma CoreDelete(rules: seq<Rule>, base: seq<Rule>, template: Rule)
    requires Core(rules, base) && forall x :: Matches(template, x) ==> Managed(x)
    ensures Core(Deleted(rules, template), base)
  {
    DeletedKeeps(rules, template);
    FilterDeleted(rules, template, (x: Rule) => !Managed(x));
  }

  /** In an ordered list a new rule takes the place in a part of the list that it takes in the whole. */
  lemma {:induction false} FilterInsertIn(rules: seq<Rule>, r: Rule, keep: Rule -> bool)
    requires Ordered(rules) && keep(r)
    ensures Filter(Insert(rules, r), keep) == Insert(Filter(rules, keep), r)
  {
    if rules == [] {
    } else if rules[0].priority > r.priority {
      assert ([r] + rules)[1..] == rules;
      FilterKeeps(rules, keep);
      var part := Filter(rules, keep);
      if part != [] {
        assert part[0] in part && part[0] in rules;
        assert part[0] == rules[0] || part[0] in rules[1..];
      }
    } else {
      FilterInsertIn(rules[1..], r, keep);
      assert Insert(rules, r)[1..] == Insert(rules[1..], r);
    }
  }

  /** A rule that is from no pod taken out, by a template that matches no other such rule of the plan. */
  lemma Without(rules: seq<Rule>, base: seq<Rule>, n: Plan, template: Rule, r: Rule, n': Plan)
    requires NodeRules(rules, base, n) && Managed(r) && r.src.None? && r.priority in {TO_POD, HOST}
    requires Matches(template, r) && template.priority == r.priority
    requires forall x :: Wanted(x, n) && Matches(template, x) ==> x == r
    requires n'.from == n.from && forall x :: Managed(x) && x.src.None? ==> (Wanted(x, n') <==> Wanted(x, n) && x != r)
    ensures NodeRules(Deleted(rules, template), base, n')
  {
    hide Wanted;
    forall x | x in rules && Matches(template, x) ensures x == r {
      if x.src.Some? { FromPriority(rules, n, x); }
    }
    CoreDelete(rules, base, template);
    DeletedKeeps(rules, template);
    DeletedGone(rules, template, r);
    forall b ensures FromList(Deleted(rules, template), b) == FromList(rules, b) {
      FilterDeleted(rules, template, (x: Rule) => OfSource(b, x));
    }
    SameSources(rules, Deleted(rules, template), base, n, n');
  }

  /** The from-pod rules are the same, the others those of the new plan. */
  lemma SameSources(rules: seq<Rule>, rules': seq<Rule>, base: seq<Rule>, n: Plan, n': Plan)
    requires FromRules(rules, n) && Core(rules', base) && PlainRules(rules', n') && n'.from == n.from
    requires forall b :: FromList(rules', b) == FromList(rules, b)
    ensures NodeRules(rules', base, n')
  {
    hide FromList, Core, PlainRules;
    assert forall b :: FromOf(n', b) == FromOf(n, b);
  }

  /** A managed rule with a source is a from-pod rule. */
  lemma FromPriority(rules: seq<Rule>, n: Plan, x: Rule)
    requires FromRules(rules, n) && x in rules && Managed(x) && x.src.Some?
    ensures x.priority == FROM_POD
  {
    var a := x.src.value.base;
    FilterMember(rules, (r: Rule) => OfSource(a, r), x);
    assert x in FromOf(n, a);
  }

  /** A rule that is from no pod put in. */
  lemma With(rules: seq<Rule>, base: seq<Rule>, n: Plan, r: Rule, n': Plan)
    requires NodeRules(rules, base, n) && Managed(r) && r.src.None?
    requires n'.from == n.from && forall x :: Managed(x) && x.src.None? ==> (Wanted(x, n') <==> Wanted(x, n) || x == r)
    ensures NodeRules(Added(rules, r), base, n')
  {
    hide Wanted;
    if r !in rules {
      CoreInsert(rules, base, r);
      forall x ensures x in Insert(rules, r) <==> x == r || x in rules { InsertMember(rules, r, x); }
      forall b ensures FromList(Insert(rules, r), b) == FromList(rules, b) {
        FilterInsert(rules, r, (x: Rule) => OfSource(b, x));
      }
    }
    SameSources(rules, Added(rules, r), base, n, n');
  }

  // ---------- from-pod rules ----------

  /** The plan with other from-pod rules for one address. */
  function Sending(n: Plan, a: IP, list: seq<Rule>): Plan { n.(from := n.from[a := list]) }

  /** The list changed in the rules from one address, and the rest of it is the same. */
  ghost predicate OnlyFrom(rules: seq<Rule>, rules': seq<Rule>, a: IP) {
    && (forall x :: Managed(x) && x.src.None? ==> (x in rules' <==> x in rules))
    && (forall b :: b != a ==> FromList(rules', b) == FromList(rules, b))
  }

  lemma NewList(rules: seq<Rule>, rules': seq<Rule>, base: seq<Rule>, n: Plan, a: IP)
    requires NodeRules(rules, base, n) && Core(rules', base) && OnlyFrom(rules, rules', a)
    requires forall r :: r in FromList(rules', a) ==> IsFromPod(a, r)
    ensures NodeRules(rules', base, Sending(n, a, FromList(rules', a)))
  {
    hide FromList, Ordered, Managed, Core;
    var n' := Sending(n, a, FromList(rules', a));
    forall x | Managed(x) && x.src.None? ensures x in rules' <==> Wanted(x, n') {
      assert Wanted(x, n') <==> Wanted(x, n);
    }
  }

  lemma AddFrom(rules: seq<Rule>, base: seq<Rule>, n: Plan, a: IP, r: Rule)
    requires NodeRules(rules, base, n) && IsFromPod(a, r)
    ensures NodeRules(Added(rules, r), base, Sending(n, a, Added(FromOf(n, a), r)))
    ensures r in rules <==> r in FromOf(n, a)
  {
    hide Wanted, Ordered;
    assert FromList(rules, a) == FromOf(n, a);
    FilterMember(rules, (x: Rule) => OfSource(a, x), r);
    if r in rules {
      SameFrom(rules, base, n, a);
    } else {
      InsertFrom(rules, base, a, r);
      NewListOf(rules, Insert(rules, r), base, n, a, Insert(FromOf(n, a), r));
    }
  }

  lemma SameFrom(rules: seq<Rule>, base: seq<Rule>, n: Plan, a: IP)
    requires NodeRules(rules, base, n)
    ensures NodeRules(rules, base, Sending(n, a, FromOf(n, a)))
  {
    assert FromList(rules, a) == FromOf(n, a);
    NewList(rules, rules, base, n, a);
  }

  lemma InsertFrom(rules: seq<Rule>, base: seq<Rule>, a: IP, r: Rule)
    requires Core(rules, base) && IsFromPod(a, r) && r !in rules
    ensures Core(Insert(rules, r), base) && OnlyFrom(rules, Insert(rules, r), a)
    ensures FromList(Insert(rules, r), a) == Insert(FromList(rules, a), r)
    ensures forall x :: x in Insert(rules, r) <==> x == r || x in rules
  {
    CoreInsert(rules, base, r);
    forall x ensures x in Insert(rules, r) <==> x == r || x in rules { InsertMember(rules, r, x); }
    FilterInsertIn(rules, r, (x: Rule) => OfSource(a, x));
    forall b | b != a ensures FromList(Insert(rules, r), b) == FromList(rules, b) {
      FilterInsert(rules, r, (x: Rule) => OfSource(b, x));
    }
  }

  /** The new list is known and made of the old one and at most one new from-pod rule. */
  lemma NewListOf(rules: seq<Rule>, rules': seq<Rule>, base: seq<Rule>, n: Plan, a: IP, list: seq<Rule>)
    requires NodeRules(rules, base, n) && Core(rules', base) && OnlyFrom(rules, rules', a)
    requires FromList(rules', a) == list
    requires forall r :: r in rules' && FromIP(a, r) && r !in rules ==> IsFromPod(a, r)
    ensures NodeRules(rules', base, Sending(n, a, list))
  {
    hide Ordered, Wanted;
    forall r | r in list ensures IsFromPod(a, r) {
      FilterMember(rules', (x: Rule) => OfSource(a, x), r);
      FilterMember(rules, (x: Rule) => OfSource(a, x), r);
      assert FromList(rules, a) == FromOf(n, a);
    }
    NewList(rules, rules', base, n, a);
  }

  lemma DeleteFrom(rules: seq<Rule>, base: seq<Rule>, n: Plan, a: IP, template: Rule)
    requires NodeRules(rules, base, n) && IsFromPod(a, template)
    ensures NodeRules(Deleted(rules, template), base, Sending(n, a, Deleted(FromOf(n, a), template)))
  {
    hide Ordered, Wanted;
    var rest := Deleted(rules, template);
    assert FromList(rules, a) == FromOf(n, a);
    CoreDelete(rules, base, template);
    DeletedKeeps(rules, template);
    FilterDeletedIn(rules, template, (x: Rule) => OfSource(a, x));
    forall b | b != a ensures FromList(rest, b) == FromList(rules, b) {
      FilterDeleted(rules, template, (x: Rule) => OfSource(b, x));
    }
    NewListOf(rules, rest, base, n, a, Deleted(FromOf(n, a), template));
  }

  lemma {:induction false} AddFromPod(rules: seq<Rule>, base: seq<Rule>, n: Plan, a: IP, table: int, cidrs: seq<Cidr>)
    requires NodeRules(rules, base, n)
    ensures NodeRules(FromPodRules(rules, a, table, cidrs), base,
                      Sending(n, a, FromPodRules(FromOf(n, a), a, table, cidrs)))
    decreases |cidrs|
  {
    hide NodeRules;
    if cidrs == [] {
      SameFrom(rules, base, n, a);
    } else {
      var r := FromPodToRule(a, table, cidrs[0]);
      var m := Sending(n, a, Added(FromOf(n, a), r));
      AddFrom(rules, base, n, a, r);
      AddFromPod(Added(rules, r), base, m, a, table, cidrs[1..]);
      SendingTwice(n, a, m.from[a], FromPodRules(m.from[a], a, table, cidrs[1..]));
    }
  }

  lemma SendingTwice(n: Plan, a: IP, list: seq<Rule>, list': seq<Rule>)
    ensures Sending(Sending(n, a, list), a, list') == Sending(n, a, list')
  {}

  // ---------- host set-up ----------

  lemma HostKeeps(rules: seq<Rule>, base: seq<Rule>, n: Plan, mark: bv32, nodePort: bool)
    requires NodeRules(rules, base, n)
    ensures NodeRules(HostRules(rules, mark, nodePort), base, ApplyPlan(n, HostSetup(mark, nodePort)))
  {
    hide NodeRules;
    var main, less := MainNICRule(mark), n.(marks := n.marks - {mark});
    Without(rules, base, n, main, main, less);
    if nodePort { With(Deleted(rules, main), base, less, main, n.(marks := n.marks + {mark})); }
  }

  /** A restart leaves the rules of the new setting alone exactly when no other mark was used before: the rule of
      another mark is never removed. */
  lemma HostKeepsExactly(rules: seq<Rule>, base: seq<Rule>, n: Plan, mark: bv32, nodePort: bool)
    requires NodeRules(rules, base, n)
    ensures NodeRules(HostRules(rules, mark, nodePort), base, n.(marks := if nodePort then {mark} else {}))
       <==> forall m :: m in n.marks ==> m == mark
  {
    HostKeeps(rules, base, n, mark, nodePort);
    hide Core, FromOf, FromList;
    var after, only := ApplyPlan(n, HostSetup(mark, nodePort)), n.(marks := if nodePort then {mark} else {});
    if m :| m in n.marks && m != mark {
      var stale := MainNICRule(m);
      assert Managed(stale) && stale.src.None? && Wanted(stale, after) && !Wanted(stale, only);
    } else {
      forall r ensures Wanted(r, after) <==> Wanted(r, only) {}
      assert after.from == only.from;
      SamePlan(HostRules(rules, mark, nodePort), base, after, only);
    }
  }

  lemma SamePlan(rules: seq<Rule>, base: seq<Rule>, n: Plan, n': Plan)
    requires NodeRules(rules, base, n) && n'.from == n.from && forall r :: Wanted(r, n) <==> Wanted(r, n')
    ensures NodeRules(rules, base, n')
  {
    hide Wanted, Core, FromList;
    assert forall a :: FromOf(n', a) == FromOf(n, a);
  }

  /** It happens: after a start with mark 0x80 and a restart with mark 0x100 the rule of the first mark is still
      there. */
  lemma StaleMarkStays()
    ensures var n := After([], [HostSetup(0x80, true), HostSetup(0x100, true)]);
      MainNICRule(0x80) in n.rules && MainNICRule(0x100) in n.rules
  {
    var ops := [HostSetup(0x80, true), HostSetup(0x100, true)];
    assert ops[..1] == [ops[0]] && ops[..1][..0] == [];
    var first, second := MainNICRule(0x80), MainNICRule(0x100);
    assert first != second && !Matches(second, first);
    assert After([], ops[..1]).rules == [first];
    assert Deleted([first], second) == [first] && Insert([first], second) == [first, second];
  }

  // ---------- pods ----------

  /** A set-up of a pod over whatever rules there are; it ends in an error exactly if its external from-pod rule is
      still there after one deletion. */
  lemma SetupKeeps(rules: seq<Rule>, base: seq<Rule>, n: Plan, a: IP, table: int, cidrs: seq<Cidr>, external: bool,
                   tunnel: Option<Cidr>)
    requires NodeRules(rules, base, n)
    ensures NodeRules(SetupRules(rules, a, table, cidrs, external, tunnel).rules, base,
                      ApplyPlan(n, PodSetup(a, table, cidrs, external, tunnel)))
    ensures SetupRules(rules, a, table, cidrs, external, tunnel).ok <==>
      table <= 0 || SetupFrom(FromOf(n, a), a, table, cidrs, external, tunnel).ok
  {
    hide NodeRules, SetupFrom;
    ToPodKeeps(rules, base, n, a);
    if table > 0 {
      var to := ContainerRule(rules, ToPodRule(a)).rules;
      SetupFromKeeps(to, base, n.(reach := n.reach + {a}), a, table, cidrs, external, tunnel);
    }
  }

  /** The to-pod rule replaced or added. */
  lemma ToPodKeeps(rules: seq<Rule>, base: seq<Rule>, n: Plan, a: IP)
    requires NodeRules(rules, base, n)
    ensures var s := ContainerRule(rules, ToPodRule(a)); s.ok && NodeRules(s.rules, base, n.(reach := n.reach + {a}))
  {
    var to, less, more := ToPodRule(a), n.(reach := n.reach - {a}), n.(reach := n.reach + {a});
    Without(rules, base, n, to, to, less);
    assert !Wanted(to, less) && Managed(to);
    hide NodeRules;
    With(Deleted(rules, to), base, less, to, more);
    NotPlanned(Deleted(rules, to), base, less, to);
  }

  lemma NotPlanned(rules: seq<Rule>, base: seq<Rule>, n: Plan, r: Rule)
    requires NodeRules(rules, base, n) && Managed(r) && r.src.None? && !Wanted(r, n)
    ensures r !in rules
  {}

  lemma SetupFromKeeps(rules: seq<Rule>, base: seq<Rule>, n: Plan, a: IP, table: int, cidrs: seq<Cidr>, external: bool,
                       tunnel: Option<Cidr>)
    requires NodeRules(rules, base, n)
    ensures var s, list := SetupFrom(rules, a, table, cidrs, external, tunnel),
                           SetupFrom(FromOf(n, a), a, table, cidrs, external, tunnel);
      s.ok == list.ok && NodeRules(s.rules, base, Sending(n, a, list.rules))
  {
    hide NodeRules;
    if external {
      var from := FromPodRule(a, table);
      var less := Sending(n, a, Deleted(FromOf(n, a), from));
      DeleteFrom(rules, base, n, a, from);
      AddFrom(Deleted(rules, from), base, less, a, from);
      SendingTwice(n, a, less.from[a], Added(less.from[a], from));
    } else {
      AddFromPod(rules, base, n, a, table, WithTunnel(cidrs, tunnel));
    }
  }

  /** A set-up on table u over the rules of an earlier one on table t that was never torn down: the old rule stays
      first, and the pod's traffic to the network leaves by the old table. */
  lemma LeftoverDecides(a: IP, t: int, u: int, c: Cidr, dst: IP)
    requires t > 0 && u > 0 && Contains(c, dst) && dst != a
    ensures var ops := [PodSetup(a, t, [c], false, None), PodSetup(a, u, [c], false, None)];
      Lookup(After([], ops).rules, Packet(a, dst, 0, {})) == Some(t)
  {
    var ops := [PodSetup(a, t, [c], false, None), PodSetup(a, u, [c], false, None)];
    var p := Packet(a, dst, 0, {});
    hide ApplyRules, ApplyPlan, Intended, Lookup, Contains;
    AlwaysClassified([], ops, p);
    TwoSetups(a, t, u, c);
    TwoOperations(ops[0], ops[1]);
    OldFirst(After([], ops).plan, a, t, u, c, p);
  }

  lemma TwoOperations(first: NodeOp, second: NodeOp)
    ensures After([], [first, second]).plan == ApplyPlan(ApplyPlan(NOTHING, first), second)
  {
    hide ApplyRules, ApplyPlan;
    var ops := [first, second];
    assert ops[..|ops| - 1] == [first] && [first][..|[first]| - 1] == [];
    assert After([], []).plan == NOTHING;
    assert After([], [first]).plan == ApplyPlan(NOTHING, first);
  }

  lemma TwoSetups(a: IP, t: int, u: int, c: Cidr)
    requires t > 0 && u > 0
    ensures var n := ApplyPlan(ApplyPlan(NOTHING, PodSetup(a, t, [c], false, None)), PodSetup(a, u, [c], false, None));
      n.reach == {a} && n.marks == {} && FromOf(n, a) != [] && FromOf(n, a)[0] == FromPodToRule(a, t, c)
  {
    var old_, new_ := FromPodToRule(a, t, c), FromPodToRule(a, u, c);
    assert [c][1..] == [];
    assert FromPodRules([], a, t, [c]) == FromPodRules(Added([], old_), a, t, []) == [old_];
    assert FromPodRules([old_], a, u, [c]) == FromPodRules(Added([old_], new_), a, u, []) == Added([old_], new_);
    assert [old_][1..] == [];
  }

  lemma OldFirst(n: Plan, a: IP, t: int, u: int, c: Cidr, p: Packet)
    requires n.reach == {a} && n.marks == {} && FromOf(n, a) != [] && FromOf(n, a)[0] == FromPodToRule(a, t, c)
    requires p == Packet(a, p.dst, 0, {}) && p.dst != a && Contains(c, p.dst)
    ensures Intended(p, [], n) == Some(t)
  {
    HostContains(a, p.src);
    assert !Marked(p, n.marks);
  }

  lemma TeardownKeeps(rules: seq<Rule>, base: seq<Rule>, n: Plan, a: IP, table: int)
    requires NodeRules(rules, base, n) && NoSource(base)
    ensures NodeRules(TeardownRules(rules, a, table), base, ApplyPlan(n, PodTeardown(a, table)))
  {
    var to, less := ToPodRule(a), n.(reach := n.reach - {a});
    Without(rules, base, n, ToPodTemplate(a), to, less);
    hide NodeRules;
    if table > 0 { DropFrom(Deleted(rules, ToPodTemplate(a)), base, less, a); }
  }

  /** Without the rules from an address. */
  lemma DropFrom(rules: seq<Rule>, base: seq<Rule>, n: Plan, a: IP)
    requires NodeRules(rules, base, n) && NoSource(base)
    ensures NodeRules(NotBySrc(rules, a), base, Sending(n, a, []))
  {
    hide Wanted;
    var keep, unmanaged := (r: Rule) => !FromIP(a, r), (r: Rule) => !Managed(r);
    var rest := NotBySrc(rules, a);
    FilterKeeps(rules, keep);
    FilterSwap(rules, keep, unmanaged);
    FilterAll(base, keep);
    forall b ensures FromList(rest, b) == if b == a then [] else FromList(rules, b) { DroppedList(rules, a, b); }
    NewListOf(rules, rest, base, n, a, []);
  }

  lemma {:induction false} DroppedList(rules: seq<Rule>, a: IP, b: IP)
    ensures FromList(NotBySrc(rules, a), b) == if b == a then [] else FromList(rules, b)
  {
    if rules != [] { DroppedList(rules[1..], a, b); }
  }

  lemma {:induction false} FilterSwap(rules: seq<Rule>, p: Rule -> bool, q: Rule -> bool)
    ensures Filter(Filter(rules, p), q) == Filter(Filter(rules, q), p)
  {
    if rules != [] { FilterSwap(rules[1..], p, q); }
  }

  // ---------- recovery ----------

  /** Where the other rules have no source, the rules from an address are its from-pod rules. */
  lemma SourceList(rules: seq<Rule>, base: seq<Rule>, n: Plan, a: IP)
    requires NodeRules(rules, base, n) && NoSource(base)
    ensures BySrc(rules, a) == FromOf(n, a)
  {
    assert FromList(rules, a) == FromOf(n, a);
    forall r | r in rules && !Managed(r) ensures !FromIP(a, r) { FilterMember(rules, (x: Rule) => !Managed(x), r); }
    AllManaged(rules, a);
  }

  lemma {:induction false} AllManaged(rules: seq<Rule>, a: IP)
    requires forall r :: r in rules && !Managed(r) ==> !FromIP(a, r)
    ensures BySrc(rules, a) == FromList(rules, a)
  {
    if rules != [] {
      assert rules[0] in rules && forall r :: r in rules[1..] ==> r in rules;
      AllManaged(rules[1..], a);
    }
  }

  /** Recovery replaces a pod's from-pod rules by those of the updated route; it ends in an error exactly if the pod had
      rules, external SNAT is off and a destination repeats. */
  lemma RecoverKeeps(rules: seq<Rule>, base: seq<Rule>, n: Plan, a: IP, table: int, cidrs: seq<Cidr>, external: bool)
    requires NodeRules(rules, base, n) && NoSource(base)
    ensures NodeRules(ApplyRules(rules, Recover(a, table, cidrs, external)), base,
                      ApplyPlan(n, Recover(a, table, cidrs, external)))
    ensures UpdateRules(rules, BySrc(rules, a), a, Destinations(cidrs, a), !external, table).ok <==>
      FromOf(n, a) == [] || external || Distinct(Destinations(cidrs, a))
  {
    hide UpdateRules, NodeRules, RouteRules, UntilRepeat, Distinct, Destinations, BySrc, NotBySrc, UpdatedRoute;
    var all := Destinations(cidrs, a);
    SourceList(rules, base, n, a);
    UpdateIsRoute(rules, a, all, !external, table);
    UntilRepeatDistinct(all);
    var route := UpdatedRoute(FromOf(n, a), all, !external, table);
    DropFrom(rules, base, n, a);
    AddRoute(NotBySrc(rules, a), base, Sending(n, a, []), a, route);
    SendingTwice(n, a, [], RouteRules([], a, route));
  }

  lemma AddRoute(rules: seq<Rule>, base: seq<Rule>, n: Plan, a: IP, route: Route)
    requires NodeRules(rules, base, n)
    ensures NodeRules(RouteRules(rules, a, route), base, Sending(n, a, RouteRules(FromOf(n, a), a, route)))
  {
    hide NodeRules;
    match route.to
    case None => AddFrom(rules, base, n, a, FromPodRule(a, route.table));
    case Some(cidrs) => AddFromPod(rules, base, n, a, route.table, cidrs);
  }

  // ---------- runs ----------

  /** Every run keeps the rules exactly those of its plan, and the rules of others as they were. */
  lemma {:induction false} RunKeepsRules(base: seq<Rule>, ops: seq<NodeOp>)
    requires PlainBase(base)
    ensures NodeRules(After(base, ops).rules, base, After(base, ops).plan)
  {
    hide NodeRules, SetupRules, TeardownRules, HostRules, UpdateRules, SetupFrom, RouteRules, UpdatedRoute;
    if ops == [] {
      BareNode(base);
    } else {
      var n, op := After(base, ops[..|ops| - 1]), ops[|ops| - 1];
      RunKeepsRules(base, ops[..|ops| - 1]);
      match op
      case HostSetup(mark, nodePort) => HostKeeps(n.rules, base, n.plan, mark, nodePort);
      case PodSetup(a, table, cidrs, external, tunnel) =>
        SetupKeeps(n.rules, base, n.plan, a, table, cidrs, external, tunnel);
      case PodTeardown(a, table) => TeardownKeeps(n.rules, base, n.plan, a, table);
      case Recover(a, table, cidrs, external) => RecoverKeeps(n.rules, base, n.plan, a, table, cidrs, external);
    }
  }

  lemma BareNode(base: seq<Rule>)
    requires PlainBase(base)
    ensures NodeRules(base, base, NOTHING)
  {
    FilterAll(base, (r: Rule) => !Managed(r));
    forall a ensures FromList(base, a) == [] { NoneManaged(base, a); }
  }

  lemma {:induction false} NoneManaged(rules: seq<Rule>, a: IP)
    requires forall r :: r in rules ==> !Managed(r)
    ensures FromList(rules, a) == []
  {
    if rules != [] { NoneManaged(rules[1..], a); }
  }

  /** In every state of every run every packet is routed as its plan intends. */
  lemma AlwaysClassified(base: seq<Rule>, ops: seq<NodeOp>, p: Packet)
    requires PlainBase(base)
    ensures Lookup(After(base, ops).rules, p) == Intended(p, base, After(base, ops).plan)
  {
    hide NodeRules, Lookup, Intended;
    RunKeepsRules(base, ops);
    Classified(After(base, ops).rules, base, After(base, ops).plan, p);
  }

  /** What the from-pod rules of a pod with one route decide, in any state of any run. */
  lemma PlannedRoute(base: seq<Rule>, ops: seq<NodeOp>, p: Packet, route: Route)
    requires PlainBase(base) && ExactlyRoute(FromOf(After(base, ops).plan, p.src), p.src, route)
    ensures var f := First(FromOf(After(base, ops).plan, p.src), p);
      && (f.Some? <==> Covers(route, p.dst) && route.table !in p.misses)
      && (f.Some? ==> f.value.table == route.table)
  {
    hide After, First, Core, FromList, ExactlyRoute;
    var n := After(base, ops);
    RunKeepsRules(base, ops);
    assert FromList(n.rules, p.src) == FromOf(n.plan, p.src);
    RouteDecides(FromOf(n.plan, p.src), p.src, route, p);
  }
}
