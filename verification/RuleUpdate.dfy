/** Rebuilding a pod's from-pod rules at start-up. */
module RuleUpdate {
  import opened Common
  import opened IpRules
  import opened Driver

  /** One rule a CIDR; here a rule that is already there is an error that ends the work. */
  function AddStrict(rules: seq<Rule>, a: IP, table: int, cidrs: seq<Cidr>): Outcome
    decreases |cidrs|
  {
    if cidrs == [] then Outcome(rules, true)
    else
      var r := FromPodToRule(a, table, cidrs[0]);
      if r in rules then Outcome(rules, false) else AddStrict(Insert(rules, r), a, table, cidrs[1..])
  }

  /** What an update does, given the rules from the pod in the snapshot: delete those, then add the rules for the CIDRs.
      If there were rules, the new ones keep the table of the last. */
  function UpdateRules(rules: seq<Rule>, list: seq<Rule>, a: IP, cidrs: seq<Cidr>, toFlag: bool, table: int): Outcome {
    var rest := DeleteEach(rules, list);
    if list == [] then Outcome(FromPodRules(rest, a, table, cidrs), true)
    else
      var t := list[|list| - 1].table;
      if toFlag then AddStrict(rest, a, t, cidrs)
      else if FromPodRule(a, t) in rest then Outcome(rest, false) else Outcome(Insert(rest, FromPodRule(a, t)), true)
  }

  method UpdateRuleListBySrc(netLink: NetLink, ruleList: seq<Rule>, src: IP, toCIDRs: seq<Cidr>, toFlag: bool,
                             table: int)
    returns (ok: bool)
    modifies netLink`rules
    ensures Outcome(netLink.rules, ok)
         == UpdateRules(old(netLink.rules), BySrc(ruleList, src), src, toCIDRs, toFlag, table)
  {
    var srcRuleList := GetRuleListBySrc(ruleList, src);
    var srcRuleTable := 0;
    var i := 0;
    while i < |srcRuleList|
      invariant i <= |srcRuleList|
      invariant DeleteEach(netLink.rules, srcRuleList[i..]) == DeleteEach(old(netLink.rules), srcRuleList)
      invariant i > 0 ==> srcRuleTable == srcRuleList[i - 1].table
    {
      assert srcRuleList[i..][1..] == srcRuleList[i + 1..];
      srcRuleTable := srcRuleList[i].table;
      var err := netLink.RuleDel(srcRuleList[i]);
      if err.Some? && err != Some(ENOENT) { return false; }
      i := i + 1;
    }
    if |srcRuleList| == 0 {
      AddFromPodRules(netLink, src, table, toCIDRs);
      return true;
    }
    if toFlag {
      i := 0;
      ghost var rest := netLink.rules;
      while i < |toCIDRs|
        invariant i <= |toCIDRs|
        invariant AddStrict(netLink.rules, src, srcRuleTable, toCIDRs[i..])
            == AddStrict(rest, src, srcRuleTable, toCIDRs)
      {
        assert toCIDRs[i..][1..] == toCIDRs[i + 1..];
        var err := netLink.RuleAdd(FromPodToRule(src, srcRuleTable, toCIDRs[i]));
        if err.Some? { return false; }
        i := i + 1;
      }
    } else {
      var err := netLink.RuleAdd(FromPodRule(src, srcRuleTable));
      if err.Some? { return false; }
    }
    return true;
  }

  // ---------- what an update leaves ----------

  lemma {:induction false} BySrcOfRest(rules: seq<Rule>, a: IP, b: IP)
    ensures BySrc(NotBySrc(rules, a), b) == if a == b then [] else BySrc(rules, b)
  {
    if rules != [] { BySrcOfRest(rules[1..], a, b); }
  }

  lemma {:induction false} InsertOther(rules: seq<Rule>, r: Rule, b: IP)
    requires !FromIP(b, r)
    ensures BySrc(Insert(rules, r), b) == BySrc(rules, b)
  {
    FilterInsert(rules, r, (x: Rule) => FromIP(b, x));
  }

  lemma {:induction false} FromPodRulesOtherSrc(rules: seq<Rule>, a: IP, table: int, cidrs: seq<Cidr>, b: IP)
    requires a != b
    ensures BySrc(FromPodRules(rules, a, table, cidrs), b) == BySrc(rules, b)
    decreases |cidrs|
  {
    if cidrs != [] {
      var r := FromPodToRule(a, table, cidrs[0]);
      InsertOther(rules, r, b);
      FromPodRulesOtherSrc(Added(rules, r), a, table, cidrs[1..], b);
    }
  }

  lemma {:induction false} AddStrictOtherSrc(rules: seq<Rule>, a: IP, table: int, cidrs: seq<Cidr>, b: IP)
    requires a != b
    ensures BySrc(AddStrict(rules, a, table, cidrs).rules, b) == BySrc(rules, b)
    decreases |cidrs|
  {
    if cidrs != [] {
      var r := FromPodToRule(a, table, cidrs[0]);
      InsertOther(rules, r, b);
      if r !in rules { AddStrictOtherSrc(Insert(rules, r), a, table, cidrs[1..], b); }
    }
  }

  /** An update touches no rule from another address. */
  lemma UpdateOtherSrc(rules: seq<Rule>, a: IP, cidrs: seq<Cidr>, toFlag: bool, table: int, b: IP)
    requires a != b
    ensures BySrc(UpdateRules(rules, BySrc(rules, a), a, cidrs, toFlag, table).rules, b) == BySrc(rules, b)
  {
    var list := BySrc(rules, a);
    var rest := DeleteEach(rules, list);
    DeleteEachOfSrc(rules, a);
    BySrcOfRest(rules, a, b);
    if list == [] {
      FromPodRulesOtherSrc(rest, a, table, cidrs, b);
    } else {
      AddStrictOtherSrc(rest, a, list[|list| - 1].table, cidrs, b);
      InsertOther(rest, FromPodRule(a, list[|list| - 1].table), b);
    }
  }

  /** How many CIDRs come before the first one that repeats an earlier one. */
  function UntilRepeat(cidrs: seq<Cidr>): (n: nat)
    ensures n <= |cidrs|
  {
    if cidrs == [] then 0
    else
      var k := UntilRepeat(cidrs[..|cidrs| - 1]);
      if k < |cidrs| - 1 || cidrs[|cidrs| - 1] in cidrs[..|cidrs| - 1] then k else |cidrs|
  }

  predicate Distinct(cidrs: seq<Cidr>) { forall i, j :: 0 <= i < j < |cidrs| ==> cidrs[i] != cidrs[j] }

  lemma {:induction false} UntilRepeatDistinct(cidrs: seq<Cidr>)
    ensures UntilRepeat(cidrs) == |cidrs| <==> Distinct(cidrs)
  {
    if cidrs != [] {
      var init, last := cidrs[..|cidrs| - 1], cidrs[|cidrs| - 1];
      UntilRepeatDistinct(init);
      if Distinct(cidrs) {
        assert Distinct(init);
        assert last !in init;
      }
      if Distinct(init) && last !in init {
        forall i, j | 0 <= i < j < |cidrs| ensures cidrs[i] != cidrs[j] {
          if j < |cidrs| - 1 { assert init[i] != init[j]; } else { assert init[i] in init; }
        }
      }
    }
  }

  /** Strict adding is adding up to the first repeated CIDR, from a state in which the CIDRs before `done` are in. */
  lemma {:induction false} AddStrictIsPrefix(rules: seq<Rule>, a: IP, table: int, cidrs: seq<Cidr>, done: nat)
    requires done <= |cidrs| && Distinct(cidrs[..done])
    requires forall c :: FromPodToRule(a, table, c) in rules <==> c in cidrs[..done]
    ensures done <= UntilRepeat(cidrs)
    ensures AddStrict(rules, a, table, cidrs[done..])
         == Outcome(FromPodRules(rules, a, table, cidrs[done..UntilRepeat(cidrs)]), UntilRepeat(cidrs) == |cidrs|)
    decreases |cidrs| - done
  {
    var n := UntilRepeat(cidrs);
    if done == |cidrs| {
      assert cidrs[..done] == cidrs;
      UntilRepeatDistinct(cidrs);
    } else {
      var c, r := cidrs[done], FromPodToRule(a, table, cidrs[done]);
      assert cidrs[done..][0] == c && cidrs[done..][1..] == cidrs[done + 1..];
      if r in rules {
        StopsAt(cidrs, done);
      } else {
        assert cidrs[..done + 1] == cidrs[..done] + [c];
        forall d ensures FromPodToRule(a, table, d) in Insert(rules, r) <==> d in cidrs[..done + 1] {
          InsertMember(rules, r, FromPodToRule(a, table, d));
        }
        AddStrictIsPrefix(Insert(rules, r), a, table, cidrs, done + 1);
        assert cidrs[done..n][0] == c && cidrs[done..n][1..] == cidrs[done + 1..n];
      }
    }
  }

  lemma {:induction false} StopsAt(cidrs: seq<Cidr>, k: nat)
    requires k < |cidrs| && Distinct(cidrs[..k]) && cidrs[k] in cidrs[..k]
    ensures UntilRepeat(cidrs) == k
    decreases |cidrs|
  {
    var init := cidrs[..|cidrs| - 1];
    if k == |cidrs| - 1 {
      UntilRepeatDistinct(init);
    } else {
      assert init[..k] == cidrs[..k];
      StopsAt(init, k);
    }
  }

  /** The table an update uses: that of the last rule there was, else the one given. */
  function KeptTable(list: seq<Rule>, table: int): int { if list == [] then table else list[|list| - 1].table }

  /** The route an update leaves, given the rules the pod had: for all CIDRs if it had none, else for those before the
      first repeated one, or for all destinations if no CIDRs are wanted. */
  function UpdatedRoute(list: seq<Rule>, cidrs: seq<Cidr>, toFlag: bool, table: int): Route {
    Route(KeptTable(list, table),
          if list == [] then Some(cidrs) else if toFlag then Some(cidrs[..UntilRepeat(cidrs)]) else None)
  }

  lemma NoneFrom(rules: seq<Rule>, a: IP)
    ensures forall x :: x in NotBySrc(rules, a) ==> !FromIP(a, x)
  {
    forall x | x in NotBySrc(rules, a) ensures !FromIP(a, x) {
      FilterMember(rules, (r: Rule) => !FromIP(a, r), x);
    }
  }

  /** An update takes out the rules from the pod and puts in those of the updated route; it ends in an error exactly
      when the pod had rules and a CIDR repeats. */
  lemma UpdateIsRoute(rules: seq<Rule>, a: IP, cidrs: seq<Cidr>, toFlag: bool, table: int)
    ensures var list := BySrc(rules, a);
      UpdateRules(rules, list, a, cidrs, toFlag, table)
      == Outcome(RouteRules(NotBySrc(rules, a), a, UpdatedRoute(list, cidrs, toFlag, table)),
                 list == [] || !toFlag || UntilRepeat(cidrs) == |cidrs|)
  {
    var list, rest := BySrc(rules, a), NotBySrc(rules, a);
    DeleteEachOfSrc(rules, a);
    NoneFrom(rules, a);
    if list != [] && toFlag {
      assert cidrs[..0] == [] && cidrs[0..] == cidrs && cidrs[0..UntilRepeat(cidrs)] == cidrs[..UntilRepeat(cidrs)];
      AddStrictIsPrefix(rest, a, list[|list| - 1].table, cidrs, 0);
    }
  }

  /** What an update leaves of the pod's own rules, in each of its branches. */
  lemma UpdateExactly(rules: seq<Rule>, a: IP, cidrs: seq<Cidr>, toFlag: bool, table: int)
    ensures ExactlyRoute(UpdateRules(rules, BySrc(rules, a), a, cidrs, toFlag, table).rules, a,
                         UpdatedRoute(BySrc(rules, a), cidrs, toFlag, table))
  {
    hide UpdateRules, RouteRules, UpdatedRoute, ExactlyRoute;
    UpdateIsRoute(rules, a, cidrs, toFlag, table);
    NoneFrom(rules, a);
    RouteRulesExactly(NotBySrc(rules, a), a, UpdatedRoute(BySrc(rules, a), cidrs, toFlag, table));
  }

  lemma {:induction false} FirstNeverRepeats(cidrs: seq<Cidr>)
    requires cidrs != []
    ensures UntilRepeat(cidrs) > 0
  {
    if |cidrs| > 1 { FirstNeverRepeats(cidrs[..|cidrs| - 1]); }
  }

  /** When an updated route is the one a fresh set-up on table t gives: the pod had no rules and gets t, or its rules
      were on t, the CIDRs are wanted, and none is new after the first repeated one. */
  predicate UpdateIsFresh(list: seq<Rule>, cidrs: seq<Cidr>, toFlag: bool, table: int, t: int) {
    if list == [] then table == t
    else toFlag && KeptTable(list, table) == t && forall c :: c in cidrs ==> c in cidrs[..UntilRepeat(cidrs)]
  }

  /** An update gives a pod the rules of a fresh set-up on table t exactly under that condition. */
  lemma UpdateAgrees(rules: seq<Rule>, a: IP, cidrs: seq<Cidr>, toFlag: bool, table: int, t: int)
    requires cidrs != []
    ensures ExactlyRoute(UpdateRules(rules, BySrc(rules, a), a, cidrs, toFlag, table).rules, a, Route(t, Some(cidrs)))
       <==> UpdateIsFresh(BySrc(rules, a), cidrs, toFlag, table, t)
  {
    UpdateExactly(rules, a, cidrs, toFlag, table);
    FirstNeverRepeats(cidrs);
    var s := UpdateRules(rules, BySrc(rules, a), a, cidrs, toFlag, table);
    RoutesAgree(s.rules, a, BySrc(rules, a), cidrs, toFlag, table, t);
  }

  lemma RoutesAgree(rules: seq<Rule>, a: IP, list: seq<Rule>, cidrs: seq<Cidr>, toFlag: bool, table: int, t: int)
    requires cidrs != [] && UntilRepeat(cidrs) > 0
    requires ExactlyRoute(rules, a, UpdatedRoute(list, cidrs, toFlag, table))
    ensures ExactlyRoute(rules, a, Route(t, Some(cidrs))) <==> UpdateIsFresh(list, cidrs, toFlag, table, t)
  {
    hide UntilRepeat;
    var route := UpdatedRoute(list, cidrs, toFlag, table);
    if ExactlyRoute(rules, a, Route(t, Some(cidrs))) {
      forall c | c in cidrs ensures InRoute(a, route, FromPodToRule(a, t, c)) {
        assert FromIP(a, FromPodToRule(a, t, c)) && InRoute(a, Route(t, Some(cidrs)), FromPodToRule(a, t, c));
      }
      assert InRoute(a, route, FromPodToRule(a, t, cidrs[0]));
    }
    if UpdateIsFresh(list, cidrs, toFlag, table, t) {
      forall x | FromIP(a, x) ensures InRoute(a, route, x) <==> InRoute(a, Route(t, Some(cidrs)), x) {}
    }
  }

  /** It can fail: with a repeated CIDR the update of a pod that had rules stops early, and the pod loses its route to
      the CIDR after it. */
  lemma RepeatLosesRoute(a: IP, table: int, c: Cidr, d: Cidr)
    requires c != d
    ensures var rules := [FromPodToRule(a, table, c)];
      var s := UpdateRules(rules, BySrc(rules, a), a, [c, c, d], true, table);
      !s.ok && FromPodToRule(a, table, d) !in s.rules
  {
    var rules, cidrs := [FromPodToRule(a, table, c)], [c, c, d];
    FilterAll(rules, (r: Rule) => FromIP(a, r));
    assert BySrc(rules, a) == rules;
    assert cidrs[..1] == [c];
    StopsAt(cidrs, 1);
    UpdateIsRoute(rules, a, cidrs, true, table);
    UpdateExactly(rules, a, cidrs, true, table);
    assert FromIP(a, FromPodToRule(a, table, d));
  }

  /** The table kept is that of the last rule, in the order of the list. */
  lemma LastTableKept(a: IP, t: int, u: int, c: Cidr, d: Cidr, e: Cidr, given: int)
    ensures var s := UpdateRules([FromPodToRule(a, t, c), FromPodToRule(a, u, d)],
                                 BySrc([FromPodToRule(a, t, c), FromPodToRule(a, u, d)], a), a, [e], true, given);
      FromPodToRule(a, u, e) in s.rules && forall x :: x in s.rules && FromIP(a, x) ==> x == FromPodToRule(a, u, e)
  {
    var rules := [FromPodToRule(a, t, c), FromPodToRule(a, u, d)];
    FilterAll(rules, (r: Rule) => FromIP(a, r));
    assert BySrc(rules, a) == rules && UntilRepeat([e]) == 1 by {
      assert [e][..0] == [];
    }
    UpdateExactly(rules, a, [e], true, given);
    assert [e][..1] == [e];
    assert FromIP(a, FromPodToRule(a, u, e));
  }

  /** It can fail with external SNAT on, too: a pod with a rule for each network is left with one for all. */
  lemma ExternalReplaces(a: IP, table: int, c: Cidr)
    ensures var rules := [FromPodToRule(a, table, c)];
      var s := UpdateRules(rules, BySrc(rules, a), a, [c], false, table);
      s.ok && FromPodRule(a, table) in s.rules && FromPodToRule(a, table, c) !in s.rules
  {
    var rules := [FromPodToRule(a, table, c)];
    FilterAll(rules, (r: Rule) => FromIP(a, r));
    assert BySrc(rules, a) == rules;
    UpdateIsRoute(rules, a, [c], false, table);
    UpdateExactly(rules, a, [c], false, table);
    assert FromIP(a, FromPodRule(a, table)) && FromIP(a, FromPodToRule(a, table, c));
  }
}
