/** Host side of a pod's network: the routes and policy rules that setupNS adds and tearDownNS removes. */
module Driver {
  import opened Common
  import opened IpRules

  // ---------- the rules of a pod ----------

  function ToPodRule(a: IP): Rule { Rule(TO_POD, None, Some(Host(a)), None, MAIN_TABLE) }
  function FromPodRule(a: IP, table: int): Rule { Rule(FROM_POD, Some(Host(a)), None, None, table) }
  function FromPodToRule(a: IP, table: int, c: Cidr): Rule { Rule(FROM_POD, Some(Host(a)), Some(c), None, table) }

  /** The template tearDownNS deletes the to-pod rule with: no table given. */
  function ToPodTemplate(a: IP): Rule { Rule(TO_POD, None, Some(Host(a)), None, ANY_TABLE) }

  datatype Outcome = Outcome(rules: seq<Rule>, ok: bool)

  /** How a pod's own traffic leaves: by which table, and for which destinations (None: for all). */
  datatype Route = Route(table: int, to: Option<seq<Cidr>>)

  /** x is one of the from-pod rules of this route. */
  predicate InRoute(a: IP, route: Route, x: Rule) {
    match route.to
    case None => x == FromPodRule(a, route.table)
    case Some(cidrs) => x.dst.Some? && x.dst.value in cidrs && x == FromPodToRule(a, route.table, x.dst.value)
  }

  /** The rules from an address are exactly those of a route. */
  ghost predicate ExactlyRoute(rules: seq<Rule>, a: IP, route: Route) {
    forall x :: FromIP(a, x) ==> (x in rules <==> InRoute(a, route, x))
  }

  /** Delete the rule if something like it is there, then add it. */
  function ContainerRule(rules: seq<Rule>, r: Rule): Outcome {
    var rest := Deleted(rules, r);
    if r in rest then Outcome(rest, false) else Outcome(Insert(rest, r), true)
  }

  /** One from-pod rule for each CIDR; a rule that is already there is no error. */
  function FromPodRules(rules: seq<Rule>, a: IP, table: int, cidrs: seq<Cidr>): seq<Rule>
    decreases |cidrs|
  {
    if cidrs == [] then rules else FromPodRules(Added(rules, FromPodToRule(a, table, cidrs[0])), a, table, cidrs[1..])
  }

  function WithTunnel(cidrs: seq<Cidr>, tunnel: Option<Cidr>): seq<Cidr> {
    if tunnel.Some? then cidrs + [tunnel.value] else cidrs
  }

  /** The rules of a route added to a list. */
  function RouteRules(rules: seq<Rule>, a: IP, route: Route): seq<Rule> {
    match route.to
    case None => Added(rules, FromPodRule(a, route.table))
    case Some(cidrs) => FromPodRules(rules, a, route.table, cidrs)
  }

  /** The route that set-up gives a pod. */
  function FreshRoute(table: int, cidrs: seq<Cidr>, external: bool, tunnel: Option<Cidr>): Route {
    Route(table, if external then None else Some(WithTunnel(cidrs, tunnel)))
  }

  function SetupRules(rules: seq<Rule>, a: IP, table: int, cidrs: seq<Cidr>, external: bool,
                      tunnel: Option<Cidr>): Outcome {
    var to := ContainerRule(rules, ToPodRule(a));
    if !to.ok || table <= 0 then to else SetupFrom(to.rules, a, table, cidrs, external, tunnel)
  }

  /** The from-pod part of a set-up. */
  function SetupFrom(rules: seq<Rule>, a: IP, table: int, cidrs: seq<Cidr>, external: bool,
                     tunnel: Option<Cidr>): Outcome {
    if external then ContainerRule(rules, FromPodRule(a, table))
    else Outcome(FromPodRules(rules, a, table, WithTunnel(cidrs, tunnel)), true)
  }

  function TeardownRules(rules: seq<Rule>, a: IP, table: int): seq<Rule> {
    var rest := Deleted(rules, ToPodTemplate(a));
    if table > 0 then NotBySrc(rest, a) else rest
  }

  // ---------- the methods ----------

  method AddContainerRule(netLink: NetLink, isToContainer: bool, a: IP, priority: int, table: int) returns (ok: bool)
    modifies netLink`rules
    ensures var r := if isToContainer then Rule(priority, None, Some(Host(a)), None, table)
                     else Rule(priority, Some(Host(a)), None, None, table);
      Outcome(netLink.rules, ok) == ContainerRule(old(netLink.rules), r)
  {
    var containerRule := Rule(priority, None, None, None, table);
    if isToContainer {
      containerRule := containerRule.(dst := Some(Host(a)));
    } else {
      containerRule := containerRule.(src := Some(Host(a)));
    }
    var err := netLink.RuleDel(containerRule);
    if err.Some? && err != Some(ENOENT) { return false; }
    err := netLink.RuleAdd(containerRule);
    return err.None?;
  }

  /** From the host route on; hostVeth is the index of the link made before. */
  method SetupNS(netLink: NetLink, hostVeth: int, a: IP, table: int, vpcCIDRs: seq<Cidr>, tunnelNet: Option<Cidr>,
                 useExternalSNAT: bool)
    returns (ok: bool)
    modifies netLink
    ensures netLink.routes == old(netLink.routes)[Host(a) := hostVeth]
    ensures Outcome(netLink.rules, ok) == SetupRules(old(netLink.rules), a, table, vpcCIDRs, useExternalSNAT, tunnelNet)
  {
    netLink.RouteReplace(Host(a), hostVeth);
    ok := AddContainerRule(netLink, true, a, TO_POD, MAIN_TABLE);
    if !ok { return false; }
    if table > 0 {
      if useExternalSNAT {
        ok := AddContainerRule(netLink, false, a, FROM_POD, table);
        return ok;
      }
      var cidrs := vpcCIDRs;
      if tunnelNet.Some? {
        cidrs := cidrs + [tunnelNet.value];
      }
      AddFromPodRules(netLink, a, table, cidrs);
    }
  }

  method AddFromPodRules(netLink: NetLink, a: IP, table: int, cidrs: seq<Cidr>)
    modifies netLink`rules
    ensures netLink.rules == FromPodRules(old(netLink.rules), a, table, cidrs)
  {
    var i := 0;
    while i < |cidrs|
      invariant i <= |cidrs|
      invariant FromPodRules(netLink.rules, a, table, cidrs[i..]) == FromPodRules(old(netLink.rules), a, table, cidrs)
    {
      assert cidrs[i..][1..] == cidrs[i + 1..];
      var err := netLink.RuleAdd(FromPodToRule(a, table, cidrs[i]));
      i := i + 1;
    }
  }

  method TearDownNS(netLink: NetLink, a: IP, table: int)
    modifies netLink
    ensures netLink.routes == old(netLink.routes) - {Host(a)}
    ensures netLink.rules == TeardownRules(old(netLink.rules), a, table)
  {
    var err := netLink.RuleDel(ToPodTemplate(a));
    if table > 0 {
      DeleteRuleListBySrc(netLink, a);
    }
    err := netLink.RouteDel(Host(a));
  }

  lemma {:induction false} FromPodRulesMember(rules: seq<Rule>, a: IP, table: int, cidrs: seq<Cidr>, x: Rule)
    ensures x in FromPodRules(rules, a, table, cidrs) <==>
      x in rules || (x.dst.Some? && x.dst.value in cidrs && x == FromPodToRule(a, table, x.dst.value))
    decreases |cidrs|
  {
    if cidrs != [] {
      var r := FromPodToRule(a, table, cidrs[0]);
      InsertMember(rules, r, x);
      FromPodRulesMember(Added(rules, r), a, table, cidrs[1..], x);
      assert forall c :: c in cidrs <==> c == cidrs[0] || c in cidrs[1..];
    }
  }

  lemma RouteRulesMember(rules: seq<Rule>, a: IP, route: Route, x: Rule)
    ensures x in RouteRules(rules, a, route) <==> x in rules || InRoute(a, route, x)
  {
    match route.to
    case None => InsertMember(rules, FromPodRule(a, route.table), x);
    case Some(cidrs) => FromPodRulesMember(rules, a, route.table, cidrs, x);
  }

  /** Where nothing from an address is, adding a route leaves exactly that route. */
  lemma RouteRulesExactly(rules: seq<Rule>, a: IP, route: Route)
    requires forall x :: x in rules ==> !FromIP(a, x)
    ensures ExactlyRoute(RouteRules(rules, a, route), a, route)
  {
    forall x | FromIP(a, x) ensures x in RouteRules(rules, a, route) <==> InRoute(a, route, x) {
      RouteRulesMember(rules, a, route, x);
    }
  }

  // ---------- set-up, then tear-down ----------

  /** A rule that belongs to the pod with address a. */
  predicate OfPod(a: IP, r: Rule) { FromIP(a, r) || Matches(ToPodTemplate(a), r) }

  function Others(rules: seq<Rule>, a: IP): seq<Rule> { Filter(rules, (r: Rule) => !OfPod(a, r)) }

  lemma {:induction false} FromPodRulesOthers(rules: seq<Rule>, a: IP, table: int, cidrs: seq<Cidr>)
    ensures Others(FromPodRules(rules, a, table, cidrs), a) == Others(rules, a)
    decreases |cidrs|
  {
    if cidrs != [] {
      var r := FromPodToRule(a, table, cidrs[0]);
      FilterInsert(rules, r, (x: Rule) => !OfPod(a, x));
      FromPodRulesOthers(Added(rules, r), a, table, cidrs[1..]);
    }
  }

  lemma ContainerRuleOthers(rules: seq<Rule>, a: IP, r: Rule)
    requires r.table > 0 && (r == ToPodRule(a) || (r.src == Some(Host(a)) && r.dst.None?))
    ensures Others(ContainerRule(rules, r).rules, a) == Others(rules, a)
  {
    var other := (x: Rule) => !OfPod(a, x);
    forall x | Matches(r, x) ensures OfPod(a, x) {}
    FilterDeleted(rules, r, other);
    FilterInsert(Deleted(rules, r), r, other);
  }

  /** Set-up leaves every other rule where it was, in any rule list. */
  lemma SetupOthers(rules: seq<Rule>, a: IP, table: int, cidrs: seq<Cidr>, external: bool, tunnel: Option<Cidr>)
    ensures Others(SetupRules(rules, a, table, cidrs, external, tunnel).rules, a) == Others(rules, a)
  {
    ContainerRuleOthers(rules, a, ToPodRule(a));
    var to := ContainerRule(rules, ToPodRule(a)).rules;
    if table > 0 {
      ContainerRuleOthers(to, a, FromPodRule(a, table));
      FromPodRulesOthers(to, a, table, WithTunnel(cidrs, tunnel));
    }
  }

  lemma {:induction false} FilterTwice(rules: seq<Rule>, p: Rule -> bool, q: Rule -> bool)
    requires forall r :: q(r) ==> p(r)
    ensures Filter(Filter(rules, p), q) == Filter(rules, q)
  {
    if rules != [] { FilterTwice(rules[1..], p, q); }
  }

  /** Tear-down leaves every other rule where it was, in any rule list. */
  lemma TeardownOthers(rules: seq<Rule>, a: IP, table: int)
    ensures Others(TeardownRules(rules, a, table), a) == Others(rules, a)
  {
    var other := (x: Rule) => !OfPod(a, x);
    FilterDeleted(rules, ToPodTemplate(a), other);
    FilterTwice(Deleted(rules, ToPodTemplate(a)), (x: Rule) => !FromIP(a, x), other);
  }

  /** No rule of the pod is there, so the others are all. */
  predicate NoneOf(rules: seq<Rule>, a: IP) { forall r :: r in rules ==> !OfPod(a, r) }

  /** No rule of the list matches the template. */
  predicate NoMatch(rules: seq<Rule>, template: Rule) { forall r :: r in rules ==> !Matches(template, r) }

  /** At most one rule matches before, and the new one does not match on top of it: one deletion still clears it. */
  lemma {:induction false} OneMatchInserted(rules: seq<Rule>, r: Rule, template: Rule)
    requires NoMatch(Deleted(rules, template), template)
    requires Matches(template, r) ==> NoMatch(rules, template)
    ensures NoMatch(Deleted(Insert(rules, r), template), template)
  {
    if rules == [] || rules[0].priority > r.priority {
      assert ([r] + rules)[1..] == rules;
    } else {
      assert Insert(rules, r)[1..] == Insert(rules[1..], r);
      if Matches(template, rules[0]) {
        forall x | x in Insert(rules[1..], r) ensures !Matches(template, x) {
          InsertMember(rules[1..], r, x);
        }
      } else {
        assert Deleted(rules, template)[1..] == Deleted(rules[1..], template);
        OneMatchInserted(rules[1..], r, template);
      }
    }
  }

  lemma {:induction false} OneMatchFromPod(rules: seq<Rule>, a: IP, table: int, cidrs: seq<Cidr>)
    requires NoMatch(Deleted(rules, ToPodTemplate(a)), ToPodTemplate(a))
    ensures NoMatch(Deleted(FromPodRules(rules, a, table, cidrs), ToPodTemplate(a)), ToPodTemplate(a))
    decreases |cidrs|
  {
    if cidrs != [] {
      OneMatchInserted(rules, FromPodToRule(a, table, cidrs[0]), ToPodTemplate(a));
      OneMatchFromPod(Added(rules, FromPodToRule(a, table, cidrs[0])), a, table, cidrs[1..]);
    }
  }

  /** From a list without rules of this pod, set-up succeeds and leaves one to-pod rule. */
  lemma SetupOneToPod(rules: seq<Rule>, a: IP, table: int, cidrs: seq<Cidr>, external: bool, tunnel: Option<Cidr>)
    requires NoneOf(rules, a) && table > 0
    ensures var s := SetupRules(rules, a, table, cidrs, external, tunnel);
      s.ok && NoMatch(Deleted(s.rules, ToPodTemplate(a)), ToPodTemplate(a))
  {
    var to, t := ToPodRule(a), ToPodTemplate(a);
    forall r | r in rules ensures !Matches(to, r) && !Matches(FromPodRule(a, table), r) {
      assert !OfPod(a, r);
    }
    assert to !in rules by { assert OfPod(a, to); }
    DeletedAbsent(rules, to);
    DeletedAbsent(rules, t);
    OneMatchInserted(rules, to, t);
    var rules1 := Insert(rules, to);
    if external {
      var from := FromPodRule(a, table);
      forall r | r in rules1 ensures !Matches(from, r) { InsertMember(rules, to, r); }
      assert from !in rules1 by { assert Matches(from, from); }
      DeletedAbsent(rules1, from);
      OneMatchInserted(rules1, from, t);
    } else {
      OneMatchFromPod(rules1, a, table, WithTunnel(cidrs, tunnel));
    }
  }

  /** Set-up then tear-down of a pod on a NIC table is the identity on the rule list, order included, and on the routes,
      when the pod had no rules and no route before. */
  lemma SetupThenTeardown(rules: seq<Rule>, routes: map<Cidr, int>, a: IP, link: int, table: int, cidrs: seq<Cidr>,
                          external: bool, tunnel: Option<Cidr>)
    requires NoneOf(rules, a) && Host(a) !in routes && table > 0
    ensures routes[Host(a) := link] - {Host(a)} == routes
    ensures var s := SetupRules(rules, a, table, cidrs, external, tunnel);
      s.ok && TeardownRules(s.rules, a, table) == rules
  {
    hide OfPod, Deleted;
    var other := (x: Rule) => !OfPod(a, x);
    var s := SetupRules(rules, a, table, cidrs, external, tunnel);
    SetupOneToPod(rules, a, table, cidrs, external, tunnel);
    var t := TeardownRules(s.rules, a, table);
    forall r | r in t ensures other(r) {
      FilterMember(Deleted(s.rules, ToPodTemplate(a)), (x: Rule) => !FromIP(a, x), r);
      NotOfPod(a, r);
    }
    FilterAll(t, other);
    FilterAll(rules, other);
    SetupOthers(rules, a, table, cidrs, external, tunnel);
    TeardownOthers(s.rules, a, table);
  }

  lemma NotOfPod(a: IP, r: Rule)
    ensures !FromIP(a, r) && !Matches(ToPodTemplate(a), r) ==> !OfPod(a, r)
  {}

  // ---------- from-pod rules are for NIC tables ----------

  /** A set-up or tear-down on the main table, given as 0 or less, leaves a pod's from-pod rules; a tear-down on a NIC
      table takes them all. Both leave no to-pod rule behind a tear-down, if there was at most one. */
  lemma MainTableKeeps(rules: seq<Rule>, a: IP, table: int, cidrs: seq<Cidr>, external: bool, tunnel: Option<Cidr>)
    requires forall x :: x in rules && FromIP(a, x) ==> x.priority != TO_POD
    ensures table <= 0 ==> BySrc(SetupRules(rules, a, table, cidrs, external, tunnel).rules, a) == BySrc(rules, a)
    ensures BySrc(TeardownRules(rules, a, table), a) == if table <= 0 then BySrc(rules, a) else []
    ensures NoMatch(Deleted(rules, ToPodTemplate(a)), ToPodTemplate(a)) ==>
      forall x :: x in TeardownRules(rules, a, table) ==> x.priority != 512 || x.dst != Some(Cidr(a, 32))
  {
    var to, ofA := ToPodRule(a), (x: Rule) => FromIP(a, x);
    var rest := Deleted(rules, ToPodTemplate(a));
    FilterDeleted(rules, to, ofA);
    FilterInsert(Deleted(rules, to), to, ofA);
    FilterDeleted(rules, ToPodTemplate(a), ofA);
    NoneLeft(rest, a);
    forall x | x in TeardownRules(rules, a, table) ensures x in rest {
      FilterMember(rest, (r: Rule) => !FromIP(a, r), x);
    }
  }

  lemma {:induction false} NoneLeft(rules: seq<Rule>, a: IP)
    ensures BySrc(NotBySrc(rules, a), a) == []
  {
    if rules != [] { NoneLeft(rules[1..], a); }
  }

  // ---------- set-up over what is left ----------

  /** A successful set-up on a NIC table over any rules, none from the pod at the to-pod priority, leaves exactly the
      pod's fresh route if and only if every rule from the pod that was there belongs to it; with external SNAT on, if
      and only if there was none, but for one that the set-up replaces. */
  lemma SetupAgrees(rules: seq<Rule>, a: IP, table: int, cidrs: seq<Cidr>, external: bool, tunnel: Option<Cidr>)
    requires table > 0 && SetupRules(rules, a, table, cidrs, external, tunnel).ok
    requires forall x :: x in rules && FromIP(a, x) ==> x.priority != TO_POD
    ensures var route := FreshRoute(table, cidrs, external, tunnel);
      ExactlyRoute(SetupRules(rules, a, table, cidrs, external, tunnel).rules, a, route) <==>
        if external then Deleted(BySrc(rules, a), FromPodRule(a, table)) == []
        else forall x :: x in rules && FromIP(a, x) ==> InRoute(a, route, x)
  {
    var to, ofA := ToPodRule(a), (x: Rule) => FromIP(a, x);
    var reached, route := ContainerRule(rules, to).rules, FreshRoute(table, cidrs, external, tunnel);
    var done := SetupRules(rules, a, table, cidrs, external, tunnel).rules;
    FilterDeleted(rules, to, ofA);
    FilterInsert(Deleted(rules, to), to, ofA);
    assert BySrc(reached, a) == BySrc(rules, a);
    forall x | FromIP(a, x) ensures x in reached <==> x in rules {
      FilterMember(reached, ofA, x);
      FilterMember(rules, ofA, x);
    }
    if external {
      ExternalAgrees(reached, a, table);
    } else {
      forall x | FromIP(a, x) ensures x in done <==> x in rules || InRoute(a, route, x) {
        RouteRulesMember(reached, a, route, x);
      }
      assert forall x :: InRoute(a, route, x) ==> FromIP(a, x);
    }
  }

  lemma ExternalAgrees(rules: seq<Rule>, a: IP, table: int)
    requires ContainerRule(rules, FromPodRule(a, table)).ok
    ensures ExactlyRoute(ContainerRule(rules, FromPodRule(a, table)).rules, a, Route(table, None)) <==>
      Deleted(BySrc(rules, a), FromPodRule(a, table)) == []
  {
    var from, ofA := FromPodRule(a, table), (x: Rule) => FromIP(a, x);
    var rest := Deleted(rules, from);
    FilterDeletedIn(rules, from, ofA);
    assert BySrc(rest, a) == Deleted(BySrc(rules, a), from);
    forall x ensures (x in Insert(rest, from) <==> x == from || x in rest) &&
                     (x in BySrc(rest, a) <==> x in rest && FromIP(a, x)) {
      InsertMember(rest, from, x);
      FilterMember(rest, ofA, x);
    }
    if BySrc(rest, a) != [] {
      var x := BySrc(rest, a)[0];
      assert x in BySrc(rest, a) && FromIP(a, x) && x != from;
    }
  }
}
