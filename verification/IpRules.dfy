/**
 The kernel's policy routing rules as the daemon sees them through netlink, and the functions of networkutil.go that
 edit them by source address.

 The rule list is kept in lookup order: by priority, a new rule after the others of its priority. Adding a rule that is
 already there fails; deleting takes a template whose unset parts match anything and removes the first match.
 */
module IpRules {
  import opened Common

  /** An IPv4 address as a number. */
  type IP = x: int | 0 <= x < 0x1_0000_0000

  /** The addresses that agree with base on the first len bits. */
  datatype Cidr = Cidr(base: IP, len: nat)

  predicate Contains(c: Cidr, a: IP) {
    c.len <= 32 && a / Pow2(32 - c.len) == c.base / Pow2(32 - c.len)
  }

  /** The /32 of one address. */
  function Host(a: IP): Cidr { Cidr(a, 32) }

  lemma HostContains(a: IP, b: IP)
    ensures Contains(Host(a), b) <==> a == b
  {
    assert Pow2(0) == 1;
  }

  /** The tunnel address of the VPN in an address's own /16: x.y.255.254. */
  function VPNNet(a: IP): Cidr { Host(a / 0x1_0000 * 0x1_0000 + 0xFFFE) }

  /** The destinations that a pod reaches through its own NIC. */
  function Destinations(cidrs: seq<Cidr>, a: IP): seq<Cidr> { cidrs + [VPNNet(a)] }

  /** The gateway keeps the first two bytes of the address; the others are 255 and 254. */
  lemma VPNBytes(b0: byte, b1: byte, b2: byte, b3: byte)
    ensures var a := ((b0 * 0x100 + b1) * 0x100 + b2) * 0x100 + b3;
      VPNNet(a) == Cidr(((b0 * 0x100 + b1) * 0x100 + 255) * 0x100 + 254, 32)
  {}

  /** A network holds the addresses that agree with its base on as many bits as it is long: none need agree for length
      0, the first byte, two or three for 8, 16 or 24, all for 32; no address for more. */
  lemma ContainsBytes(base: IP, a: IP)
    ensures Contains(Cidr(base, 0), a)
    ensures Contains(Cidr(base, 8), a) <==> a / 0x100_0000 == base / 0x100_0000
    ensures Contains(Cidr(base, 16), a) <==> a / 0x1_0000 == base / 0x1_0000
    ensures Contains(Cidr(base, 24), a) <==> a / 0x100 == base / 0x100
    ensures Contains(Cidr(base, 32), a) <==> a == base
    ensures forall len :: len > 32 ==> !Contains(Cidr(base, len), a)
  {
    assert Pow2(0) == 1 && Pow2(4) == 16;
    assert Pow2(8) == 16 * Pow2(4) && Pow2(12) == 16 * Pow2(8) && Pow2(16) == 16 * Pow2(12);
    assert Pow2(20) == 16 * Pow2(16) && Pow2(24) == 16 * Pow2(20);
    assert Pow2(28) == 16 * Pow2(24) && Pow2(32) == 16 * Pow2(28);
  }

  datatype Mark = Mark(value: bv32, mask: bv32)

  const ANY_PRIORITY := -1
  const ANY_TABLE := 0

  datatype Rule = Rule(priority: int, src: Option<Cidr>, dst: Option<Cidr>, mark: Option<Mark>, table: int)

  const MAIN_TABLE := 254
  const LOCAL_TABLE := 255
  const TO_POD := 512
  const HOST := 1024
  const FROM_POD := 1536

  // ---------- the kernel's list ----------

  predicate Matches(template: Rule, r: Rule) {
    && (template.priority == ANY_PRIORITY || template.priority == r.priority)
    && (template.src.None? || template.src == r.src)
    && (template.dst.None? || template.dst == r.dst)
    && (template.mark.None? || template.mark == r.mark)
    && (template.table == ANY_TABLE || template.table == r.table)
  }

  function Insert(rules: seq<Rule>, r: Rule): seq<Rule> {
    if rules == [] || rules[0].priority > r.priority then [r] + rules else [rules[0]] + Insert(rules[1..], r)
  }

  function Added(rules: seq<Rule>, r: Rule): seq<Rule> { if r in rules then rules else Insert(rules, r) }

  predicate Present(rules: seq<Rule>, template: Rule) { exists r :: r in rules && Matches(template, r) }

  function Deleted(rules: seq<Rule>, template: Rule): seq<Rule> {
    if rules == [] then []
    else if Matches(template, rules[0]) then rules[1..]
    else [rules[0]] + Deleted(rules[1..], template)
  }

  function Filter(rules: seq<Rule>, keep: Rule -> bool): seq<Rule> {
    if rules == [] then []
    else if keep(rules[0]) then [rules[0]] + Filter(rules[1..], keep) else Filter(rules[1..], keep)
  }

  datatype Errno = ENOENT | EEXIST | ESRCH

  /** The netlink handle: rules, and the link-scope routes of the main table by destination. */
  class NetLink {
    var rules: seq<Rule>
    var routes: map<Cidr, int>

    method RuleAdd(r: Rule) returns (err: Option<Errno>)
      modifies this`rules
      ensures rules == Added(old(rules), r)
      ensures err == if r in old(rules) then Some(EEXIST) else None
    {
      if r in rules { return Some(EEXIST); }
      rules := Insert(rules, r);
      return None;
    }

    method RuleDel(template: Rule) returns (err: Option<Errno>)
      modifies this`rules
      ensures rules == Deleted(old(rules), template)
      ensures err == if Present(old(rules), template) then None else Some(ENOENT)
    {
      var i := 0;
      while i < |rules|
        invariant i <= |rules| && rules == old(rules)
        invariant Deleted(rules, template) == rules[..i] + Deleted(rules[i..], template)
        invariant forall j :: 0 <= j < i ==> !Matches(template, rules[j])
      {
        if Matches(template, rules[i]) {
          assert rules[i] in rules;
          assert rules[i..][1..] == rules[i + 1..];
          rules := rules[..i] + rules[i + 1..];
          return None;
        }
        assert rules[i..][1..] == rules[i + 1..];
        i := i + 1;
      }
      return Some(ENOENT);
    }

    method RouteReplace(dst: Cidr, link: int)
      modifies this`routes
      ensures routes == old(routes)[dst := link]
    {
      routes := routes[dst := link];
    }

    method RouteDel(dst: Cidr) returns (err: Option<Errno>)
      modifies this`routes
      ensures routes == old(routes) - {dst} && err == if dst in old(routes) then None else Some(ESRCH)
    {
      if dst !in routes { return Some(ESRCH); }
      routes := routes - {dst};
      return None;
    }
  }

  // ---------- filtering ----------

  lemma {:induction false} FilterInsert(rules: seq<Rule>, r: Rule, keep: Rule -> bool)
    requires !keep(r)
    ensures Filter(Insert(rules, r), keep) == Filter(rules, keep)
  {
    if rules == [] || rules[0].priority > r.priority {
      assert ([r] + rules)[1..] == rules;
    } else {
      FilterInsert(rules[1..], r, keep);
      assert Insert(rules, r)[1..] == Insert(rules[1..], r);
    }
  }

  lemma {:induction false} FilterDeleted(rules: seq<Rule>, template: Rule, keep: Rule -> bool)
    requires forall r :: r in rules && Matches(template, r) ==> !keep(r)
    ensures Filter(Deleted(rules, template), keep) == Filter(rules, keep)
  {
    if rules != [] && !Matches(template, rules[0]) {
      FilterDeleted(rules[1..], template, keep);
      assert Deleted(rules, template)[1..] == Deleted(rules[1..], template);
    }
  }

  lemma {:induction false} FilterDeletedIn(rules: seq<Rule>, template: Rule, keep: Rule -> bool)
    requires forall x :: Matches(template, x) ==> keep(x)
    ensures Filter(Deleted(rules, template), keep) == Deleted(Filter(rules, keep), template)
  {
    if rules != [] && !Matches(template, rules[0]) {
      FilterDeletedIn(rules[1..], template, keep);
      assert Deleted(rules, template)[1..] == Deleted(rules[1..], template);
    }
  }

  lemma {:induction false} FilterAll(rules: seq<Rule>, keep: Rule -> bool)
    requires forall r :: r in rules ==> keep(r)
    ensures Filter(rules, keep) == rules
  {
    if rules != [] { FilterAll(rules[1..], keep); }
  }

  lemma {:induction false} FilterMember(rules: seq<Rule>, keep: Rule -> bool, r: Rule)
    ensures r in Filter(rules, keep) <==> r in rules && keep(r)
  {
    if rules != [] { FilterMember(rules[1..], keep, r); }
  }

  lemma {:induction false} InsertMember(rules: seq<Rule>, r: Rule, x: Rule)
    ensures x in Insert(rules, r) <==> x == r || x in rules
  {
    if rules != [] && rules[0].priority <= r.priority { InsertMember(rules[1..], r, x); }
  }

  lemma {:induction false} DeletedAbsent(rules: seq<Rule>, template: Rule)
    requires forall r :: r in rules ==> !Matches(template, r)
    ensures Deleted(rules, template) == rules
  {
    if rules != [] { DeletedAbsent(rules[1..], template); }
  }

  // ---------- rules by source address ----------

  /** The rule comes from this address, whatever its mask. */
  predicate FromIP(src: IP, r: Rule) { r.src.Some? && r.src.value.base == src }

  function BySrc(rules: seq<Rule>, src: IP): seq<Rule> { Filter(rules, (r: Rule) => FromIP(src, r)) }
  function NotBySrc(rules: seq<Rule>, src: IP): seq<Rule> { Filter(rules, (r: Rule) => !FromIP(src, r)) }

  /** Deleting the rules of a list one by one, each with itself as the template; a missing one is no error. */
  function DeleteEach(rules: seq<Rule>, list: seq<Rule>): seq<Rule>
    decreases |list|
  {
    if list == [] then rules else DeleteEach(Deleted(rules, list[0]), list[1..])
  }

  /** The first rule from this address goes: the list's head matches no rule before itself, although a rule without a
      destination is a template that matches any destination. */
  lemma {:induction false} DeleteFirstOfSrc(rules: seq<Rule>, src: IP)
    requires BySrc(rules, src) != []
    ensures var first := BySrc(rules, src)[0];
      && BySrc(Deleted(rules, first), src) == BySrc(rules, src)[1..]
      && NotBySrc(Deleted(rules, first), src) == NotBySrc(rules, src)
  {
    var first := BySrc(rules, src)[0];
    FilterMember(rules, (r: Rule) => FromIP(src, r), first);
    if FromIP(src, rules[0]) {
      assert first == rules[0] && Matches(first, first);
    } else {
      assert !Matches(first, rules[0]);
      DeleteFirstOfSrc(rules[1..], src);
      assert Deleted(rules, first)[1..] == Deleted(rules[1..], first);
    }
  }

  lemma {:induction false} DeleteEachOfSrc(rules: seq<Rule>, src: IP)
    ensures DeleteEach(rules, BySrc(rules, src)) == NotBySrc(rules, src)
    decreases |BySrc(rules, src)|
  {
    var list := BySrc(rules, src);
    if list == [] {
      forall r | r in rules ensures !FromIP(src, r) {
        FilterMember(rules, (x: Rule) => FromIP(src, x), r);
      }
      FilterAll(rules, (r: Rule) => !FromIP(src, r));
    } else {
      DeleteFirstOfSrc(rules, src);
      DeleteEachOfSrc(Deleted(rules, list[0]), src);
    }
  }

  method GetRuleListBySrc(ruleList: seq<Rule>, src: IP) returns (srcRuleList: seq<Rule>)
    ensures srcRuleList == BySrc(ruleList, src)
  {
    srcRuleList := [];
    var i := 0;
    while i < |ruleList|
      invariant i <= |ruleList| && BySrc(ruleList, src) == srcRuleList + BySrc(ruleList[i..], src)
    {
      var rule := ruleList[i];
      assert ruleList[i..][1..] == ruleList[i + 1..];
      if rule.src.Some? && rule.src.value.base == src {
        srcRuleList := srcRuleList + [rule];
      }
      i := i + 1;
    }
  }

  /** Deletes exactly the rules from this address and leaves all others in their order. */
  method DeleteRuleListBySrc(netLink: NetLink, src: IP)
    modifies netLink`rules
    ensures netLink.rules == NotBySrc(old(netLink.rules), src)
  {
    var ruleList := netLink.rules;
    var srcRuleList := GetRuleListBySrc(ruleList, src);
    var i := 0;
    while i < |srcRuleList|
      invariant i <= |srcRuleList|
      invariant DeleteEach(netLink.rules, srcRuleList[i..]) == DeleteEach(ruleList, srcRuleList)
    {
      assert srcRuleList[i..][1..] == srcRuleList[i + 1..];
      var err := netLink.RuleDel(srcRuleList[i]);
      i := i + 1;
    }
    DeleteEachOfSrc(ruleList, src);
  }
}
