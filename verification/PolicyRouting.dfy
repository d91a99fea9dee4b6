/** What the policy rules do to packets: a rule list that holds exactly the rules wanted for a node sends every packet
    where it should go, whatever rules of other programs stand before, between and after. */
module PolicyRouting {
  import opened Common
  import opened IpRules
  import opened Driver

  /** A packet, and the tables that have no route to its destination: the kernel then goes on with the next rule. */
  datatype Packet = Packet(src: IP, dst: IP, mark: bv32, misses: set<int>)

  /** The rule decides about the packet: its selectors match and its table has a route. */
  predicate Selects(r: Rule, p: Packet) {
    && (r.src.None? || Contains(r.src.value, p.src))
    && (r.dst.None? || Contains(r.dst.value, p.dst))
    && (r.mark.None? || p.mark & r.mark.value.mask == r.mark.value.value & r.mark.value.mask)
    && r.table !in p.misses
  }

  /** The first rule that selects the packet, and the table it sends it to. */
  function First(rules: seq<Rule>, p: Packet): Option<Rule> {
    if rules == [] then None else if Selects(rules[0], p) then Some(rules[0]) else First(rules[1..], p)
  }

  function Lookup(rules: seq<Rule>, p: Packet): Option<int> {
    var r := First(rules, p);
    if r.None? then None else Some(r.value.table)
  }

  // ---------- host set-up ----------

  /** The rule that keeps marked traffic on the main NIC: value and mask are the same number. */
  function MainNICRule(mark: bv32): Rule { Rule(HOST, None, None, Some(Mark(mark, mark)), MAIN_TABLE) }

  function HostRules(rules: seq<Rule>, mark: bv32, nodePort: bool): seq<Rule> {
    var rest := Deleted(rules, MainNICRule(mark));
    if nodePort then Added(rest, MainNICRule(mark)) else rest
  }

  /** The policy-rule part of SetupHostNetwork. */
  method SetupHostRules(netLink: NetLink, mark: bv32, nodePortSupportEnabled: bool) returns (ok: bool)
    modifies netLink`rules
    ensures netLink.rules == HostRules(old(netLink.rules), mark, nodePortSupportEnabled)
    ensures ok <==> !(nodePortSupportEnabled && MainNICRule(mark) in Deleted(old(netLink.rules), MainNICRule(mark)))
  {
    var mainNICRule := Rule(HOST, None, None, Some(Mark(mark, mark)), MAIN_TABLE);
    var err := netLink.RuleDel(mainNICRule);
    if err.Some? && err != Some(ENOENT) { return false; }
    if nodePortSupportEnabled {
      err := netLink.RuleAdd(mainNICRule);
      if err.Some? { return false; }
    }
    return true;
  }

  // ---------- the rules of a node ----------

  predicate Managed(r: Rule) { r.priority in {TO_POD, HOST, FROM_POD} }

  function Unmanaged(rules: seq<Rule>): seq<Rule> { Filter(rules, (r: Rule) => !Managed(r)) }

  /** What the daemon and the plugin have set up: pods that are reached through the main table, the from-pod rules of
      each address in lookup order, and the connection marks kept on the main NIC. */
  datatype Plan = Plan(reach: set<IP>, from: map<IP, seq<Rule>>, marks: set<bv32>)

  /** r is one of the rules of the plan that are not from a pod. */
  predicate Wanted(r: Rule, n: Plan) {
    || (r.mark.Some? && r.mark.value.value in n.marks && r == MainNICRule(r.mark.value.value))
    || (r.dst.Some? && r.dst.value.base in n.reach && r == ToPodRule(r.dst.value.base))
  }

  function FromOf(n: Plan, a: IP): seq<Rule> { if a in n.from then n.from[a] else [] }

  predicate IsFromPod(a: IP, r: Rule) { r.priority == FROM_POD && r.src == Some(Host(a)) }

  /** The managed rules from an address, in lookup order. */
  predicate OfSource(a: IP, r: Rule) { Managed(r) && FromIP(a, r) }
  function FromList(rules: seq<Rule>, a: IP): seq<Rule> { Filter(rules, (r: Rule) => OfSource(a, r)) }

  /** By priority, and no managed rule twice. */
  ghost predicate Ordered(rules: seq<Rule>) {
    rules == [] ||
    (Ordered(rules[1..]) &&
     forall x :: x in rules[1..] ==> rules[0].priority <= x.priority && (Managed(x) ==> x != rules[0]))
  }

  /** The node's rule list: in order, without repetition, the managed rules are exactly those of the plan, the from-pod
      rules of each address in its order, and the others are those of the base list. */
  ghost predicate NodeRules(rules: seq<Rule>, base: seq<Rule>, n: Plan) {
    Core(rules, base) && PlainRules(rules, n) && FromRules(rules, n)
  }

  ghost predicate Core(rules: seq<Rule>, base: seq<Rule>) { Ordered(rules) && Unmanaged(rules) == base }

  ghost predicate PlainRules(rules: seq<Rule>, n: Plan) {
    forall r :: Managed(r) && r.src.None? ==> (r in rules <==> Wanted(r, n))
  }

  ghost predicate FromRules(rules: seq<Rule>, n: Plan) {
    forall a :: FromList(rules, a) == FromOf(n, a) && forall r :: r in FromOf(n, a) ==> IsFromPod(a, r)
  }

  // ---------- list facts ----------

  lemma {:induction false} InsertOrdered(rules: seq<Rule>, r: Rule)
    requires Ordered(rules) && (Managed(r) ==> r !in rules)
    ensures Ordered(Insert(rules, r))
  {
    if rules == [] {
    } else if rules[0].priority > r.priority {
      assert Insert(rules, r)[1..] == rules;
      assert forall x :: x in rules ==> x == rules[0] || x in rules[1..];
    } else {
      InsertOrdered(rules[1..], r);
      assert Insert(rules, r)[1..] == Insert(rules[1..], r);
      forall x | x in Insert(rules[1..], r) ensures rules[0].priority <= x.priority && (Managed(x) ==> x != rules[0]) {
        InsertMember(rules[1..], r, x);
      }
    }
  }

  /** Deleting keeps the order and drops one rule that matches. */
  lemma {:induction false} DeletedKeeps(rules: seq<Rule>, template: Rule)
    requires Ordered(rules)
    ensures Ordered(Deleted(rules, template))
    ensures forall x :: x in Deleted(rules, template) ==> x in rules
    ensures forall x :: x in rules && x !in Deleted(rules, template) ==> Matches(template, x)
  {
    if rules != [] && !Matches(template, rules[0]) {
      DeletedKeeps(rules[1..], template);
      assert Deleted(rules, template)[1..] == Deleted(rules[1..], template);
      assert forall x :: x in rules <==> x == rules[0] || x in rules[1..];
    }
  }

  /** A managed rule that nothing else looks like is gone once it is deleted. */
  lemma {:induction false} DeletedGone(rules: seq<Rule>, template: Rule, r: Rule)
    requires Ordered(rules) && Managed(r) && forall x :: x in rules && Matches(template, x) ==> x == r
    requires Matches(template, r)
    ensures r !in Deleted(rules, template)
  {
    if rules != [] && !Matches(template, rules[0]) {
      DeletedGone(rules[1..], template, r);
    }
  }

  lemma {:induction false} FilterKeeps(rules: seq<Rule>, keep: Rule -> bool)
    requires Ordered(rules)
    ensures Ordered(Filter(rules, keep))
    ensures forall x :: x in Filter(rules, keep) <==> x in rules && keep(x)
  {
    if rules != [] {
      FilterKeeps(rules[1..], keep);
      if keep(rules[0]) { assert Filter(rules, keep)[1..] == Filter(rules[1..], keep); }
    }
  }

  // ---------- classification ----------

  /** In an ordered list the first rule that selects a packet is of the least priority among those that do. */
  lemma {:induction false} FirstIsLeast(rules: seq<Rule>, p: Packet)
    requires Ordered(rules)
    ensures var f := First(rules, p);
      if f.None? then forall r :: r in rules ==> !Selects(r, p)
      else f.value in rules && Selects(f.value, p)
           && forall r :: r in rules && Selects(r, p) ==> f.value.priority <= r.priority
  {
    hide Selects;
    if rules != [] {
      FirstIsLeast(rules[1..], p);
      assert forall x :: x in rules <==> x == rules[0] || x in rules[1..];
    }
  }

  /** The first rule that selects a packet is also first in every part of the list that has it. */
  lemma {:induction false} FirstFiltered(rules: seq<Rule>, p: Packet, keep: Rule -> bool)
    ensures First(rules, p).Some? && keep(First(rules, p).value) ==> First(Filter(rules, keep), p) == First(rules, p)
  {
    hide Selects;
    if rules != [] && !Selects(rules[0], p) { FirstFiltered(rules[1..], p, keep); }
  }

  predicate Within(a: IP, cidrs: seq<Cidr>) { exists c :: c in cidrs && Contains(c, a) }

  /** The packet carries one of the connection marks. */
  predicate Marked(p: Packet, marks: set<bv32>) { exists m :: m in marks && p.mark & m == m }

  /** A table and the priority it is chosen with. */
  datatype Choice = Choice(priority: int, table: int)

  /** What the plan intends for a packet: to a pod by the main table, marked traffic by the main table, a pod's own
      traffic by the first of its from-pod rules that selects it, as far as those tables have a route. */
  function Own(p: Packet, n: Plan): Option<Choice> {
    var from := First(FromOf(n, p.src), p);
    if p.dst in n.reach && MAIN_TABLE !in p.misses then Some(Choice(TO_POD, MAIN_TABLE))
    else if Marked(p, n.marks) && MAIN_TABLE !in p.misses then Some(Choice(HOST, MAIN_TABLE))
    else if from.Some? then Some(Choice(FROM_POD, from.value.table))
    else None
  }

  /** The intended decision: the plan's, unless a rule of others with an earlier priority takes the packet. */
  function Intended(p: Packet, base: seq<Rule>, n: Plan): Option<int> {
    var own, other := Own(p, n), First(base, p);
    if own.Some? && (other.None? || own.value.priority < other.value.priority) then Some(own.value.table)
    else Lookup(base, p)
  }

  /** A rule of the plan that selects the packet: the plan intends that, or something earlier. */
  lemma WantedSelects(r: Rule, p: Packet, n: Plan)
    requires Wanted(r, n) && Selects(r, p)
    ensures Own(p, n).Some? && Own(p, n).value.priority <= r.priority
    ensures Own(p, n).value.priority == r.priority ==> Own(p, n).value.table == r.table
  {
    hide First;
    if r.mark.Some? && r.mark.value.value in n.marks && r == MainNICRule(r.mark.value.value) {
      var m := r.mark.value.value;
      assert m & m == m;
      assert Marked(p, n.marks);
    } else {
      HostContains(r.dst.value.base, p.dst);
    }
  }

  /** A from-pod rule that decides: the plan intends that table, or something earlier. */
  lemma FromDecides(rules: seq<Rule>, p: Packet, n: Plan, r: Rule)
    requires FromRules(rules, n) && First(rules, p) == Some(r) && r in rules && Selects(r, p)
    requires Managed(r) && r.src.Some?
    ensures r.priority == FROM_POD && Own(p, n).Some? && Own(p, n).value.priority <= FROM_POD
    ensures Own(p, n).value.priority == FROM_POD ==> Own(p, n).value.table == r.table
  {
    hide Selects, First, Managed, Marked;
    var a := r.src.value.base;
    var ofA := (x: Rule) => OfSource(a, x);
    FilterMember(rules, ofA, r);
    assert r in FromOf(n, a);
    SourceSelects(a, r, p);
    FirstFiltered(rules, p, ofA);
    assert First(FromOf(n, p.src), p) == Some(r);
  }

  lemma SourceSelects(a: IP, r: Rule, p: Packet)
    requires IsFromPod(a, r) && Selects(r, p)
    ensures p.src == a
  {
    HostContains(a, p.src);
  }

  /** What the plan intends, a rule of the list does. */
  lemma OwnSelects(rules: seq<Rule>, p: Packet, n: Plan) returns (r: Rule)
    requires PlainRules(rules, n) && FromRules(rules, n) && Own(p, n).Some?
    ensures r in rules && Selects(r, p) && r.priority == Own(p, n).value.priority && r.table == Own(p, n).value.table
  {
    hide Wanted, Selects, Marked, First;
    if p.dst in n.reach && MAIN_TABLE !in p.misses {
      r := ToPodRule(p.dst);
      ToPodSelects(p, n);
    } else if Marked(p, n.marks) && MAIN_TABLE !in p.misses {
      r := MarkSelects(p, n);
    } else {
      r := First(FromOf(n, p.src), p).value;
      FirstMember(FromOf(n, p.src), p);
      FilterMember(rules, (x: Rule) => OfSource(p.src, x), r);
      assert FromList(rules, p.src) == FromOf(n, p.src);
    }
  }

  lemma {:induction false} FirstMember(rules: seq<Rule>, p: Packet)
    ensures var f := First(rules, p);
      if f.Some? then f.value in rules && Selects(f.value, p) else forall r :: r in rules ==> !Selects(r, p)
  {
    hide Selects;
    if rules != [] { FirstMember(rules[1..], p); }
  }

  lemma ToPodSelects(p: Packet, n: Plan)
    requires p.dst in n.reach && MAIN_TABLE !in p.misses
    ensures Managed(ToPodRule(p.dst)) && Wanted(ToPodRule(p.dst), n) && Selects(ToPodRule(p.dst), p)
  {
    HostContains(p.dst, p.dst);
  }

  lemma MarkSelects(p: Packet, n: Plan) returns (r: Rule)
    requires Marked(p, n.marks) && MAIN_TABLE !in p.misses
    ensures r.priority == HOST && r.table == MAIN_TABLE && r.src.None? && Wanted(r, n) && Selects(r, p)
  {
    var m :| m in n.marks && p.mark & m == m;
    assert m & m == m;
    r := MainNICRule(m);
  }

  /** Every packet goes where it should, whatever rules others have. */
  lemma Classified(rules: seq<Rule>, base: seq<Rule>, n: Plan, p: Packet)
    requires NodeRules(rules, base, n)
    ensures Lookup(rules, p) == Intended(p, base, n)
  {
    hide Wanted, Selects, Own, First, Ordered, FromRules;
    FirstIsLeast(rules, p);
    FirstFiltered(rules, p, (r: Rule) => !Managed(r));
    BaseRules(rules, base, p);
    var f := First(rules, p);
    if Own(p, n).Some? { var r := OwnSelects(rules, p, n); }
    if f.Some? && Managed(f.value) {
      if f.value.src.None? { WantedSelects(f.value, p, n); } else { FromDecides(rules, p, n, f.value); }
    }
  }

  /** The rules of others are in the list and of other priorities. */
  lemma BaseRules(rules: seq<Rule>, base: seq<Rule>, p: Packet)
    requires Core(rules, base)
    ensures var b := First(base, p); b.Some? ==> b.value in rules && Selects(b.value, p) && !Managed(b.value)
  {
    hide Selects;
    FilterKeeps(rules, (r: Rule) => !Managed(r));
    FirstMember(base, p);
  }

  predicate Covers(route: Route, a: IP) { route.to.None? || Within(a, route.to.value) }

  /** The from-pod rules of one route, in any order: they take the pod's traffic to the route's destinations, by its
      table. */
  lemma RouteDecides(list: seq<Rule>, a: IP, route: Route, p: Packet)
    requires (forall r :: r in list ==> IsFromPod(a, r)) && ExactlyRoute(list, a, route) && p.src == a
    ensures var f := First(list, p);
      && (f.Some? <==> Covers(route, p.dst) && route.table !in p.misses)
      && (f.Some? ==> f.value.table == route.table)
  {
    hide First, Contains;
    FirstMember(list, p);
    assert Contains(Host(a), p.src) by { HostContains(a, p.src); }
    if Covers(route, p.dst) && route.table !in p.misses {
      var r := CoveringRule(a, route, p);
      assert FromIP(a, r) && r in list;
    }
    if First(list, p).Some? { assert FromIP(a, First(list, p).value); }
  }

  lemma CoveringRule(a: IP, route: Route, p: Packet) returns (r: Rule)
    requires Covers(route, p.dst) && route.table !in p.misses && Contains(Host(a), p.src)
    ensures InRoute(a, route, r) && Selects(r, p) && FromIP(a, r)
  {
    hide Contains;
    match route.to
    case None => r := FromPodRule(a, route.table);
    case Some(cidrs) =>
      var c :| c in cidrs && Contains(c, p.dst);
      r := FromPodToRule(a, route.table, c);
  }

  /** Traffic for the node itself: the kernel's rule for the local table, before all others, takes it, whatever the
      plan. */
  lemma LocalFirst(rules: seq<Rule>, base: seq<Rule>, n: Plan, p: Packet)
    requires NodeRules(rules, base, n)
    requires base != [] && base[0] == Rule(0, None, None, None, LOCAL_TABLE)
    ensures LOCAL_TABLE !in p.misses ==> Lookup(rules, p) == Some(LOCAL_TABLE)
    ensures LOCAL_TABLE in p.misses ==> Lookup(rules, p) == Intended(p, base[1..], n)
  {
    Classified(rules, base, n, p);
    assert First(base, p) == if LOCAL_TABLE !in p.misses then Some(base[0]) else First(base[1..], p);
  }
}
