/** Start-up recovery: after a restart the running pods get their addresses back, and the from-pod rules that a fresh
    set-up would install. */
module Recovery {
  import opened Common
  import opened Store
  import opened StoreInvariants
  import opened StoreRuns
  import opened IpRules
  import opened Driver
  import opened RuleUpdate
  import opened PolicyRouting
  import opened NodeRuns

  /** A local pod: its key, its address as text (empty if it has none yet) and as a number. */
  datatype LocalPod = LocalPod(key: PodKey, ip: gostring, addr: IP)

  /** The device number of a NIC with this address, or -1. */
  ghost predicate IsIndex(s: State, ip: gostring, dev: int) {
    if exists n :: Has(s, n, ip) then exists n :: Has(s, n, ip) && dev == Device(s, n) else dev == -1
  }

  /** The store's side of recovery, pod by pod. */
  ghost predicate RecoveryRun(states: seq<State>, pods: seq<LocalPod>, now: int) {
    && |states| == |pods| + 1
    && forall i :: 0 <= i < |pods| ==> RecoveryStep(states[i], pods[i], now, states[i + 1])
  }

  ghost predicate RecoveryStep(s: State, pod: LocalPod, now: int, s': State) {
    if pod.ip == [] then s' == s else exists r :: Assign(s, now, pod.key, pod.ip, s', r)
  }

  /** The kernel's side: every update works from the rule list read before the loop. */
  function RecoverRules(rules: seq<Rule>, pods: seq<LocalPod>, tables: seq<int>, cidrs: seq<Cidr>,
                        external: bool): seq<Rule>
    requires |tables| == |pods|
    decreases |pods|
  {
    var k := |pods| - 1;
    if k < 0 then rules
    else
      var before := RecoverRules(rules, pods[..k], tables[..k], cidrs, external);
      RecoverOne(before, rules, pods[k], tables[k], cidrs, external)
  }

  function RecoverOne(rules: seq<Rule>, snapshot: seq<Rule>, pod: LocalPod, table: int, cidrs: seq<Cidr>,
                      external: bool): seq<Rule> {
    if pod.ip == [] || table == -1 then rules
    else UpdateRules(rules, BySrc(snapshot, pod.addr), pod.addr, Destinations(cidrs, pod.addr), !external, table).rules
  }

  lemma NothingRecovered(s: State, rules: seq<Rule>, now: int, cidrs: seq<Cidr>, external: bool)
    ensures RecoveryRun([s], [], now) && RecoverRules(rules, [], [], cidrs, external) == rules
  {}

  lemma RunSnoc(states: seq<State>, pods: seq<LocalPod>, i: nat, now: int, s: State)
    requires i < |pods| && RecoveryRun(states, pods[..i], now) && RecoveryStep(states[i], pods[i], now, s)
    ensures RecoveryRun(states + [s], pods[..i + 1], now)
  {
    hide RecoveryStep;
    var next := states + [s];
    forall j | 0 <= j < i + 1 ensures RecoveryStep(next[j], pods[..i + 1][j], now, next[j + 1]) {
      if j < i { assert pods[..i][j] == pods[j]; }
    }
  }

  lemma RulesSnoc(rules: seq<Rule>, pods: seq<LocalPod>, i: nat, tables: seq<int>, table: int, cidrs: seq<Cidr>,
                  external: bool)
    requires i < |pods| && |tables| == i
    ensures RecoverRules(rules, pods[..i + 1], tables + [table], cidrs, external)
         == RecoverOne(RecoverRules(rules, pods[..i], tables, cidrs, external), rules, pods[i], table, cidrs, external)
  {
    assert pods[..i + 1][..i] == pods[..i] && (tables + [table])[..i] == tables;
  }

  // ---------- the store ----------

  /** Pods with an address have their own key and address. */
  predicate DistinctPods(pods: seq<LocalPod>) {
    forall i, j :: 0 <= i < j < |pods| && pods[i].ip != [] && pods[j].ip != [] ==>
      pods[i].key != pods[j].key && pods[i].ip != pods[j].ip && pods[i].addr != pods[j].addr
  }

  /** Every pod of the state is one of these, with its address. */
  ghost predicate Among(s: State, pods: seq<LocalPod>) {
    forall key :: key in s.pods ==>
      exists i :: 0 <= i < |pods| && pods[i].ip != [] && pods[i].key == key && pods[i].ip == s.pods[key].ip
  }

  /** Recovery of pods with distinct addresses, before any request is served, ends in exclusive assignment, and every
      pod whose address is in the pool has it. */
  lemma {:induction false} RecoveryExclusive(states: seq<State>, pods: seq<LocalPod>, now: int)
    requires RecoveryRun(states, pods, now) && DistinctPods(pods)
    requires Counted(states[0]) && Exclusive(states[0]) && states[0].pods == map[]
    ensures Counted(states[|pods|]) && Exclusive(states[|pods|]) && Among(states[|pods|], pods)
    ensures SamePool(states[0], states[|pods|])
    ensures forall i :: 0 <= i < |pods| ==> GotBack(states[|pods|], pods[i])
    decreases |pods|
  {
    hide Counted, Exclusive, RecoveryStep, Among, SamePool, GotBack, DistinctPods;
    if pods == [] {
      NoPodsYet(states[0], pods);
    } else {
      var k := |pods| - 1;
      FewerPods(pods, k);
      RecoveryExclusive(states[..k + 1], pods[..k], now);
      RecoverPod(states[k], pods, k, now, states[k + 1]);
      SamePoolTrans(states[0], states[k], states[k + 1]);
      forall i | 0 <= i < |pods| ensures GotBack(states[|pods|], pods[i]) {
        if i < k {
          assert pods[..k][i] == pods[i];
          StillThere(states[k], states[k + 1], pods[i]);
        }
      }
    }
  }

  /** The same addresses on the same NICs. */
  ghost predicate SamePool(s: State, s': State) { forall n, ip :: Has(s', n, ip) <==> Has(s, n, ip) }

  lemma SamePoolTrans(s: State, t: State, u: State)
    requires SamePool(s, t) && SamePool(t, u)
    ensures SamePool(s, u)
  {
    hide Has;
  }

  /** A pod whose address is in the pool holds it. */
  ghost predicate GotBack(s: State, pod: LocalPod) {
    pod.ip != [] && (exists n :: Has(s, n, pod.ip)) ==> pod.key in s.pods && s.pods[pod.key].ip == pod.ip
  }

  /** The pods of s keep what they hold. */
  ghost predicate Extends(s: State, s': State) {
    forall key :: key in s.pods ==> key in s'.pods && s'.pods[key] == s.pods[key]
  }

  lemma StillThere(s: State, s': State, pod: LocalPod)
    requires SamePool(s, s') && Extends(s, s') && GotBack(s, pod)
    ensures GotBack(s', pod)
  {
    hide Has;
  }

  lemma NoPodsYet(s: State, pods: seq<LocalPod>)
    requires s.pods == map[]
    ensures Among(s, pods) && SamePool(s, s)
  {}

  lemma FewerPods(pods: seq<LocalPod>, k: nat)
    requires DistinctPods(pods) && k <= |pods|
    ensures DistinctPods(pods[..k])
  {}

  lemma RecoverPod(s: State, pods: seq<LocalPod>, k: nat, now: int, s': State)
    requires k == |pods| - 1 && DistinctPods(pods) && Among(s, pods[..k]) && Counted(s) && Exclusive(s)
    requires RecoveryStep(s, pods[k], now, s')
    ensures Counted(s') && Exclusive(s') && Among(s', pods)
    ensures SamePool(s, s') && Extends(s, s') && GotBack(s', pods[k])
  {
    hide Counted, Exclusive, Among, AssignUnsafe, DistinctPods, IsAssigned, Has;
    var pod := pods[k];
    if pod.ip == [] {
      AmongMore(s, s, pods, k);
    } else {
      var r :| Assign(s, now, pod.key, pod.ip, s', r);
      KeyIsNew(s, pods, k);
      AssignCounted(s, now, pod.key, pod.ip, s', r);
      AssignExclusive(s, now, pod.key, pod.ip, s', r);
      RecoverComplete(s, now, pod.key, pod.ip, s', r);
      AssignSameAddresses(s, now, pod.key, pod.ip, s', r);
      AmongMore(s, s', pods, k);
    }
  }

  lemma KeyIsNew(s: State, pods: seq<LocalPod>, k: nat)
    requires k == |pods| - 1 && DistinctPods(pods) && Among(s, pods[..k]) && pods[k].ip != []
    ensures pods[k].key !in s.pods && forall key :: key in s.pods ==> s.pods[key].ip != pods[k].ip
  {
    forall key | key in s.pods ensures key != pods[k].key && s.pods[key].ip != pods[k].ip {
      var i :| 0 <= i < k && pods[..k][i].ip != [] && pods[..k][i].key == key && pods[..k][i].ip == s.pods[key].ip;
      assert pods[..k][i] == pods[i];
    }
  }

  lemma AmongMore(s: State, s': State, pods: seq<LocalPod>, k: nat)
    requires k == |pods| - 1 && Among(s, pods[..k])
    requires s'.pods == s.pods ||
      (pods[k].ip != [] && exists dev :: s'.pods == s.pods[pods[k].key := PodIPInfo(pods[k].ip, dev)])
    ensures Among(s', pods)
  {
    forall key | key in s'.pods
      ensures exists i :: 0 <= i < |pods| && pods[i].ip != [] && pods[i].key == key && pods[i].ip == s'.pods[key].ip
    {
      if s'.pods != s.pods && key == pods[k].key {
        assert pods[k].ip == s'.pods[key].ip;
      } else {
        var i :| 0 <= i < k && pods[..k][i].ip != [] && pods[..k][i].key == key && pods[..k][i].ip == s.pods[key].ip;
        assert pods[..k][i] == pods[i];
      }
    }
  }

  lemma AssignSameAddresses(s: State, now: int, key: PodKey, want: gostring, s': State, r: Reply)
    requires Assign(s, now, key, want, s', r)
    ensures SamePool(s, s')
    ensures key !in s.pods ==> r.Ok? || s' == s
  {
    if n, ip :| Candidate(s, now, want, n, ip) && s' == HandOut(s, key, n, ip) {
      HandOutChange(s, key, n, ip);
    }
  }

  // ---------- the rules ----------

  /** The one snapshot stays exact: when a pod's turn comes, its rules are still those read before the loop, and a pod
      without a NIC keeps them. */
  lemma {:induction false} SnapshotExact(rules: seq<Rule>, pods: seq<LocalPod>, tables: seq<int>, cidrs: seq<Cidr>,
                                         external: bool, b: IP)
    requires |tables| == |pods| && DistinctPods(pods)
    requires forall i :: 0 <= i < |pods| && pods[i].ip != [] && tables[i] != -1 ==> pods[i].addr != b
    ensures BySrc(RecoverRules(rules, pods, tables, cidrs, external), b) == BySrc(rules, b)
    decreases |pods|
  {
    if pods != [] {
      var k := |pods| - 1;
      SnapshotExact(rules, pods[..k], tables[..k], cidrs, external, b);
      if pods[k].ip != [] && tables[k] != -1 {
        var before := RecoverRules(rules, pods[..k], tables[..k], cidrs, external);
        SnapshotExact(rules, pods[..k], tables[..k], cidrs, external, pods[k].addr);
        UpdateOtherSrc(before, pods[k].addr, Destinations(cidrs, pods[k].addr), !external, tables[k], b);
      }
    }
  }

  lemma SameRoute(rules: seq<Rule>, rules': seq<Rule>, a: IP, route: Route)
    requires BySrc(rules, a) == BySrc(rules', a)
    ensures ExactlyRoute(rules, a, route) <==> ExactlyRoute(rules', a, route)
  {
    forall x | FromIP(a, x) ensures x in rules <==> x in rules' {
      FilterMember(rules, (r: Rule) => FromIP(a, r), x);
      FilterMember(rules', (r: Rule) => FromIP(a, r), x);
    }
  }

  /** What recovery leaves of a pod's rules is what one update of the rules read before the loop would leave: the other
      pods' turns do not matter. */
  lemma {:induction false} RecoveryIsOneUpdate(rules: seq<Rule>, pods: seq<LocalPod>, tables: seq<int>,
                                               cidrs: seq<Cidr>, external: bool, i: nat)
    requires |tables| == |pods| && DistinctPods(pods) && i < |pods| && pods[i].ip != [] && tables[i] != -1
    ensures var a := pods[i].addr;
      ExactlyRoute(RecoverRules(rules, pods, tables, cidrs, external), a,
                   UpdatedRoute(BySrc(rules, a), Destinations(cidrs, a), !external, tables[i]))
    decreases |pods|
  {
    hide UpdateRules, ExactlyRoute, UpdatedRoute, Destinations, BySrc;
    var k := |pods| - 1;
    var before := RecoverRules(rules, pods[..k], tables[..k], cidrs, external);
    var a := pods[i].addr;
    if i == k {
      SnapshotExact(rules, pods[..k], tables[..k], cidrs, external, a);
      UpdateExactly(before, a, Destinations(cidrs, a), !external, tables[k]);
    } else {
      RecoveryIsOneUpdate(rules, pods[..k], tables[..k], cidrs, external, i);
      if pods[k].ip != [] && tables[k] != -1 {
        var b := pods[k].addr;
        SnapshotExact(rules, pods[..k], tables[..k], cidrs, external, b);
        UpdateOtherSrc(before, b, Destinations(cidrs, b), !external, tables[k], a);
        SameRoute(before, RecoverRules(rules, pods, tables, cidrs, external), a,
                  UpdatedRoute(BySrc(rules, a), Destinations(cidrs, a), !external, tables[i]));
      }
    }
  }

  // ---------- store and rules together ----------

  /** What the loop finds for each pod with an address: the device number of a NIC that has it. */
  ghost predicate Indexed(states: seq<State>, pods: seq<LocalPod>, tables: seq<int>)
    requires |states| == |pods| + 1
  {
    && |tables| == |pods|
    && forall i :: 0 <= i < |pods| && pods[i].ip != [] ==> IsIndex(states[i + 1], pods[i].ip, tables[i])
  }

  /** A recovery step keeps every NIC's device number. */
  lemma {:induction false} RunSameDevices(states: seq<State>, pods: seq<LocalPod>, now: int, k: nat)
    requires RecoveryRun(states, pods, now) && k <= |pods| && Positive(states[0])
    ensures Positive(states[k])
    ensures forall n :: Device(states[k], n) == Device(states[0], n)
  {
    hide Device;
    if k > 0 {
      RunSameDevices(states, pods, now, k - 1);
      RecoveryStepDevices(states[k - 1], pods[k - 1], now, states[k]);
    }
  }

  lemma RecoveryStepDevices(s: State, pod: LocalPod, now: int, s': State)
    requires Positive(s) && RecoveryStep(s, pod, now, s')
    ensures Positive(s') && forall n :: Device(s', n) == Device(s, n)
  {
    if pod.ip != [] {
      var r :| Assign(s, now, pod.key, pod.ip, s', r);
      AssignDevices(s, now, pod.key, pod.ip, s', r);
      KeptPositive(s, s');
    }
  }

  /** The table that recovery finds for a pod the store knows is the device number the store tells it. */
  lemma IndexIsDevice(states: seq<State>, pods: seq<LocalPod>, tables: seq<int>, now: int, i: nat)
    requires RecoveryRun(states, pods, now) && DistinctPods(pods) && Indexed(states, pods, tables)
    requires Counted(states[0]) && Exclusive(states[0]) && Positive(states[0]) && states[0].pods == map[]
    requires i < |pods| && pods[i].ip != [] && pods[i].key in states[|pods|].pods
    ensures var info := states[|pods|].pods[pods[i].key]; info.ip == pods[i].ip && info.deviceNumber == tables[i] > 0
  {
    hide Counted, Positive, Has, Device, RecoveryStep;
    var last, key := states[|pods|], pods[i].key;
    RecoveryExclusive(states, pods, now);
    RecoveredAddress(last, pods, i);
    var n :| Holds(last, key, n);
    RunSameDevices(states, pods, now, |pods|);
    HoldsHas(last, key, n);
    RunSameDevices(states, pods, now, i + 1);
    SamePoolUpTo(states, pods, now, i + 1);
    ExclusiveOneNIC(last);
    OneIndex(states[i + 1], last, pods[i].ip, n, tables[i]);
  }

  lemma RecoveredAddress(s: State, pods: seq<LocalPod>, i: nat)
    requires Among(s, pods) && DistinctPods(pods) && i < |pods| && pods[i].ip != [] && pods[i].key in s.pods
    ensures s.pods[pods[i].key].ip == pods[i].ip
  {
    var j :| 0 <= j < |pods| && pods[j].ip != [] && pods[j].key == pods[i].key && pods[j].ip == s.pods[pods[i].key].ip;
    assert i == j;
  }

  lemma HoldsHas(s: State, key: PodKey, n: gostring)
    requires Holds(s, key, n) && Positive(s)
    ensures Has(s, n, s.pods[key].ip) && Device(s, n) == s.pods[key].deviceNumber > 0
  {}

  lemma SamePoolUpTo(states: seq<State>, pods: seq<LocalPod>, now: int, k: nat)
    requires RecoveryRun(states, pods, now) && DistinctPods(pods) && k <= |pods|
    requires Counted(states[0]) && Exclusive(states[0]) && states[0].pods == map[]
    ensures SamePool(states[0], states[k])
  {
    hide Counted, Exclusive, RecoveryStep, SamePool, DistinctPods;
    FewerPods(pods, k);
    RecoveryExclusive(states[..k + 1], pods[..k], now);
  }

  /** One NIC has the address, before and after, with the same device number. */
  lemma OneIndex(s: State, last: State, ip: gostring, n: gostring, dev: int)
    requires OneNICEach(last) && (forall m :: Has(s, m, ip) <==> Has(last, m, ip))
    requires (forall m :: Device(s, m) == Device(last, m)) && Has(last, n, ip) && IsIndex(s, ip, dev)
    ensures dev == Device(last, n)
  {
    hide Has, Device;
    assert Has(s, n, ip);
    var m :| Has(s, m, ip) && dev == Device(s, m);
    assert Has(last, m, ip) && m == n;
  }

  /** Start-up recovery, store and kernel rules together: every pod the store knows afterwards is left with the rules
      of one update on the NIC table the store tells it. */
  lemma RecoveryExact(states: seq<State>, pods: seq<LocalPod>, tables: seq<int>, now: int, rules: seq<Rule>,
                      cidrs: seq<Cidr>, external: bool, i: nat)
    requires RecoveryRun(states, pods, now) && DistinctPods(pods) && Indexed(states, pods, tables)
    requires Counted(states[0]) && Exclusive(states[0]) && Positive(states[0]) && states[0].pods == map[]
    requires i < |pods| && pods[i].ip != [] && pods[i].key in states[|pods|].pods
    ensures var a, dev := pods[i].addr, states[|pods|].pods[pods[i].key].deviceNumber;
      ExactlyRoute(RecoverRules(rules, pods, tables, cidrs, external), a,
                   UpdatedRoute(BySrc(rules, a), Destinations(cidrs, a), !external, dev))
  {
    hide RecoveryStep, IsIndex, DistinctPods, Counted, Exclusive, Positive, ExactlyRoute, UpdatedRoute, RecoverRules;
    IndexIsDevice(states, pods, tables, now, i);
    RecoveryIsOneUpdate(rules, pods, tables, cidrs, external, i);
  }

  /** Recovery agrees with a fresh set-up, for a pod the store knows, exactly when the pod had no rules, or external
      SNAT is off, its rules were on its NIC's table, and no network is new after the first repeated one. */
  lemma RecoveryAgrees(states: seq<State>, pods: seq<LocalPod>, tables: seq<int>, now: int, rules: seq<Rule>,
                       cidrs: seq<Cidr>, external: bool, i: nat)
    requires RecoveryRun(states, pods, now) && DistinctPods(pods) && Indexed(states, pods, tables)
    requires Counted(states[0]) && Exclusive(states[0]) && Positive(states[0]) && states[0].pods == map[]
    requires i < |pods| && pods[i].ip != [] && pods[i].key in states[|pods|].pods
    ensures var a, dev := pods[i].addr, states[|pods|].pods[pods[i].key].deviceNumber;
      var list, all := BySrc(rules, a), Destinations(cidrs, a);
      ExactlyRoute(RecoverRules(rules, pods, tables, cidrs, external), a,
                   FreshRoute(dev, cidrs, false, Some(VPNNet(a)))) <==>
        list == [] ||
        (!external && list[|list| - 1].table == dev && forall c :: c in all ==> c in all[..UntilRepeat(all)])
  {
    hide RecoveryStep, IsIndex, DistinctPods, Counted, Exclusive, Positive, ExactlyRoute, RecoverRules, UntilRepeat,
      BySrc;
    var a, dev := pods[i].addr, states[|pods|].pods[pods[i].key].deviceNumber;
    RecoveryExact(states, pods, tables, now, rules, cidrs, external, i);
    FirstNeverRepeats(Destinations(cidrs, a));
    RoutesAgree(RecoverRules(rules, pods, tables, cidrs, external), a, BySrc(rules, a), Destinations(cidrs, a),
                !external, dev, dev);
  }

  /** What a fresh set-up installs for a pod without rules: exactly its fresh route. */
  lemma FreshAddExact(rules: seq<Rule>, a: IP, table: int, cidrs: seq<Cidr>, external: bool, tunnel: Option<Cidr>)
    requires NoneOf(rules, a) && table > 0
    ensures var s := SetupRules(rules, a, table, cidrs, external, tunnel);
      s.ok && ExactlyRoute(s.rules, a, FreshRoute(table, cidrs, external, tunnel))
  {
    var to, from, route := ToPodRule(a), FromPodRule(a, table), FreshRoute(table, cidrs, external, tunnel);
    forall r | r in rules ensures !FromIP(a, r) && !Matches(to, r) { assert !OfPod(a, r); }
    DeletedAbsent(rules, to);
    assert to !in rules by { assert Matches(to, to); }
    var reached := Insert(rules, to);
    forall x | x in reached ensures !FromIP(a, x) { InsertMember(rules, to, x); }
    RouteRulesExactly(reached, a, route);
    if external {
      assert forall x :: Matches(from, x) ==> FromIP(a, x);
      DeletedAbsent(reached, from);
    }
  }

  // ---------- recovery as part of a run ----------

  /** The operations that recovery is made of: one for each pod with an address and a NIC. */
  function RecoverOps(pods: seq<LocalPod>, tables: seq<int>, cidrs: seq<Cidr>, external: bool): seq<NodeOp>
    requires |tables| == |pods|
    decreases |pods|
  {
    var k := |pods| - 1;
    if k < 0 then []
    else
      var front := RecoverOps(pods[..k], tables[..k], cidrs, external);
      if pods[k].ip == [] || tables[k] == -1 then front
      else front + [Recover(pods[k].addr, tables[k], cidrs, external)]
  }

  /** Recovery with its one snapshot does to the rules what those operations do one after the other, each seeing the
      rules of its moment. */
  lemma {:induction false} RecoveryIsRun(base: seq<Rule>, ops: seq<NodeOp>, pods: seq<LocalPod>, tables: seq<int>,
                                         cidrs: seq<Cidr>, external: bool)
    requires |tables| == |pods| && DistinctPods(pods)
    ensures var more := ops + RecoverOps(pods, tables, cidrs, external);
      After(base, more).rules == RecoverRules(After(base, ops).rules, pods, tables, cidrs, external)
    decreases |pods|
  {
    hide ApplyRules, ApplyPlan, UpdateRules, Destinations, BySrc, DistinctPods, After;
    if pods == [] {
      assert ops + [] == ops;
    } else {
      var k, rules := |pods| - 1, After(base, ops).rules;
      var front := ops + RecoverOps(pods[..k], tables[..k], cidrs, external);
      FewerPods(pods, k);
      RecoveryIsRun(base, ops, pods[..k], tables[..k], cidrs, external);
      if pods[k].ip != [] && tables[k] != -1 {
        var op := Recover(pods[k].addr, tables[k], cidrs, external);
        OthersBefore(pods, k);
        SnapshotExact(rules, pods[..k], tables[..k], cidrs, external, pods[k].addr);
        OneMore(base, front, op);
        OneRecovered(After(base, front).rules, rules, pods[k], tables[k], cidrs, external);
        assert ops + RecoverOps(pods, tables, cidrs, external) == front + [op];
      }
    }
  }

  /** One turn of the loop, when the snapshot still has the pod's rules. */
  lemma OneRecovered(rules: seq<Rule>, snapshot: seq<Rule>, pod: LocalPod, table: int, cidrs: seq<Cidr>, external: bool)
    requires pod.ip != [] && table != -1 && BySrc(rules, pod.addr) == BySrc(snapshot, pod.addr)
    ensures ApplyRules(rules, Recover(pod.addr, table, cidrs, external))
         == RecoverOne(rules, snapshot, pod, table, cidrs, external)
  {
    hide UpdateRules, BySrc, Destinations;
  }

  lemma OthersBefore(pods: seq<LocalPod>, k: nat)
    requires DistinctPods(pods) && k < |pods| && pods[k].ip != []
    ensures forall i :: 0 <= i < k && pods[..k][i].ip != [] ==> pods[..k][i].addr != pods[k].addr
  {}

  lemma OneMore(base: seq<Rule>, ops: seq<NodeOp>, op: NodeOp)
    ensures After(base, ops + [op]).rules == ApplyRules(After(base, ops).rules, op)
  {
    assert (ops + [op])[..|ops + [op]| - 1] == ops;
  }

  /** A restart at any moment of any run: host set-up, then recovery. Every packet is routed as intended afterwards. */
  lemma RestartClassified(base: seq<Rule>, ops: seq<NodeOp>, mark: bv32, nodePort: bool, pods: seq<LocalPod>,
                          tables: seq<int>, cidrs: seq<Cidr>, external: bool, p: Packet)
    requires PlainBase(base) && |tables| == |pods| && DistinctPods(pods)
    ensures var host := HostRules(After(base, ops).rules, mark, nodePort);
      var plan := After(base, ops + [HostSetup(mark, nodePort)] + RecoverOps(pods, tables, cidrs, external)).plan;
      Lookup(RecoverRules(host, pods, tables, cidrs, external), p) == Intended(p, base, plan)
  {
    hide After, PlainBase, RecoverRules, RecoverOps, Lookup, Intended, DistinctPods;
    OneMore(base, ops, HostSetup(mark, nodePort));
    RecoveryIsRun(base, ops + [HostSetup(mark, nodePort)], pods, tables, cidrs, external);
    AlwaysClassified(base, ops + [HostSetup(mark, nodePort)] + RecoverOps(pods, tables, cidrs, external), p);
  }
}
