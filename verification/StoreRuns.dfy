/** What holds over whole runs of the store: exclusive assignment, cooling, and what single calls guarantee in any
    reachable state. */
module StoreRuns {
  import opened Common
  import opened Store
  import opened StoreInvariants

  // ---------- runs ----------

  datatype Event = Event(now: int, op: Op, reply: Reply)

  /** states[i] --events[i]--> states[i + 1], with a clock that never goes back and a fair environment. */
  ghost predicate IsRun(states: seq<State>, events: seq<Event>) {
    && |states| == |events| + 1
    && (forall i :: 0 <= i < |events| ==>
          Step(states[i], events[i].now, events[i].op, states[i + 1], events[i].reply) && Fair(states[i], events[i].op))
    && (forall i, j :: 0 <= i <= j < |events| ==> events[i].now <= events[j].now)
  }

  lemma EmptyIsFine()
    ensures Counted(EMPTY) && Exclusive(EMPTY)
  {
    assert AddressSets(EMPTY) == map[] && UseSets(EMPTY) == map[];
  }

  lemma {:induction false} RunKeeps(states: seq<State>, events: seq<Event>, k: nat)
    requires IsRun(states, events) && k <= |events| && Counted(states[0]) && Exclusive(states[0])
    ensures Counted(states[k]) && Exclusive(states[k])
  {
    hide Counted, Exclusive, Step, Fair;
    if k > 0 {
      RunKeeps(states, events, k - 1);
      var e := events[k - 1];
      StepCounted(states[k - 1], e.now, e.op, states[k], e.reply);
      StepExclusive(states[k - 1], e.now, e.op, states[k], e.reply);
    }
  }

  lemma {:induction false} RunPositive(states: seq<State>, events: seq<Event>, k: nat)
    requires IsRun(states, events) && k <= |events| && Positive(states[0])
    ensures Positive(states[k])
  {
    hide Step, Fair;
    if k > 0 {
      RunPositive(states, events, k - 1);
      var e := events[k - 1];
      StepPositive(states[k - 1], e.now, e.op, states[k], e.reply);
    }
  }

  function Image<A, B>(s: set<A>, f: A -> B): set<B> { set x | x in s :: f(x) }

  lemma {:induction false} ImageSize<A, B>(s: set<A>, f: A -> B)
    requires forall x, y :: x in s && y in s && f(x) == f(y) ==> x == y
    ensures |Image(s, f)| == |s|
  {
    if s != {} {
      var a :| a in s;
      ImageSize(s - {a}, f);
      assert Image(s, f) == Image(s - {a}, f) + {f(a)};
    }
  }

  function HeldIPs(s: State): set<gostring> { set k | k in s.pods :: s.pods[k].ip }
  function UsedIPs(s: State): set<gostring> { set p | p in Pairs(UseSets(s)) :: p.1 }

  lemma HeldAreUsed(s: State)
    requires Exclusive(s)
    ensures HeldIPs(s) == UsedIPs(s)
  {
    forall k | k in s.pods ensures s.pods[k].ip in UsedIPs(s) {
      var n :| Holds(s, k, n);
      assert (n, s.pods[k].ip) in Pairs(UseSets(s));
    }
    forall p | p in Pairs(UseSets(s)) ensures p.1 in HeldIPs(s) {
      assert IsAssigned(s, p.0, p.1);
      assert HasOwner(s, p.1);
    }
  }

  lemma HeldSize(s: State)
    requires NoSharing(s)
    ensures |HeldIPs(s)| == |s.pods|
  {
    var ipOf := (k: PodKey) => if k in s.pods then s.pods[k].ip else [];
    ImageSize(s.pods.Keys, ipOf);
    assert HeldIPs(s) == Image(s.pods.Keys, ipOf);
    assert |s.pods| == |s.pods.Keys|;
  }

  lemma UsedSize(s: State)
    requires OneNICEach(s)
    ensures |UsedIPs(s)| == |Pairs(UseSets(s))|
  {
    var used := Pairs(UseSets(s));
    forall p, q | p in used && q in used && p.1 == q.1 ensures p == q {
      assert Has(s, p.0, p.1) && Has(s, q.0, q.1);
    }
    var second := (p: (gostring, gostring)) => p.1;
    ImageSize(used, second);
    assert UsedIPs(s) == Image(used, second);
  }

  /** As many pods as addresses in use. */
  lemma PodsAreCounted(s: State)
    requires Counted(s) && Exclusive(s)
    ensures |s.pods| == s.assignedCount
  {
    hide HeldIPs, UsedIPs, Pairs, UseSets, NoSharing, OneNICEach;
    HeldAreUsed(s);
    HeldSize(s);
    UsedSize(s);
  }

  /** In every state of every fair run from the empty store: the counters are right, no two pods share an address,
      each pod's address is in use on the NIC whose device number, above 0, it was told, there are as many pods as
      addresses in use, and no release ever meets an unknown address. */
  lemma ExclusiveForever(states: seq<State>, events: seq<Event>, k: nat)
    requires IsRun(states, events) && states[0] == EMPTY && k <= |events|
    ensures Counted(states[k]) && Exclusive(states[k]) && Positive(states[k])
    ensures |states[k].pods| == states[k].assignedCount
    ensures k < |events| ==> events[k].reply != Failed(UnknownPodIP)
  {
    EmptyIsFine();
    RunKeeps(states, events, k);
    RunPositive(states, events, k);
    PodsAreCounted(states[k]);
    if k < |events| {
      var e := events[k];
      StepExclusive(states[k], e.now, e.op, states[k + 1], e.reply);
    }
  }

  // ---------- cooling ----------

  /** What the daemon does once recovery is over: requests name no address, NICs leave by the pool manager only. */
  predicate Serving(op: Op) {
    match op
    case OpAssign(_, want) => want == []
    case OpDelAddress(_, _) => false
    case OpRemoveNIC(_) => false
    case _ => true
  }

  predicate Releases(e: Event, ip: gostring) { e.op.OpUnassign? && e.reply.Ok? && e.reply.ip == ip }
  predicate HandsOut(e: Event, ip: gostring) { e.op.OpAssign? && e.reply.Ok? && e.reply.ip == ip }

  /** Address ip of NIC n has not been free for long: it was released at t0 or later, or is in use again. */
  predicate Warm(s: State, n: gostring, ip: gostring, t0: int) {
    && Has(s, n, ip)
    && s.nics[n].lastUnassignedTime.At? && s.nics[n].lastUnassignedTime.t >= t0
    && var addr := s.nics[n].ipv4Addresses[ip];
       addr.isAssigned || (addr.unassignedTime.At? && addr.unassignedTime.t >= t0)
  }

  /** An address released at t0 is still in the pool, warm, until the NIC cooling period has passed. */
  ghost predicate Remembered(s: State, ip: gostring, t0: int, now: int) {
    now - t0 >= NIC_COOLING || exists n :: Warm(s, n, ip, t0)
  }

  lemma ReleaseRemembers(s: State, now: int, key: PodKey, s': State, r: Reply)
    requires Counted(s) && Unassign(s, now, key, s', r) && r.Ok?
    ensures Remembered(s', r.ip, now, now)
  {
    var ip := s.pods[key].ip;
    var n :| IsAssigned(s, n, ip) && s' == GiveBack(s, n, ip, now).(pods := s.pods - {key})
             && r == Ok(s.nics[n].ipv4Addresses[ip].address, s.nics[n].deviceNumber);
    assert NICCounted(n, s.nics[n]);
    assert Warm(s', n, ip, now);
  }

  lemma StepRemembers(s: State, e: Event, s': State, ip: gostring, t0: int, n: gostring)
    requires OneNICEach(s) && Step(s, e.now, e.op, s', e.reply) && Fair(s, e.op) && Serving(e.op)
    requires t0 <= e.now && Warm(s, n, ip, t0)
    ensures Warm(s', n, ip, t0) || e.now - t0 >= NIC_COOLING
  {
    match e.op
    case OpAddNIC(_, _, _) =>
    case OpAddAddress(_, _) =>
    case OpRemoveUnused =>
      if m :| Deletable(s, e.now, m) && s' == DropNIC(s, m) {}
    case OpAssign(key, want) =>
      if m, jp :| Candidate(s, e.now, want, m, jp) && s' == HandOut(s, key, m, jp) {
        HandOutWarm(s, key, m, jp, n, ip, t0);
      }
    case OpUnassign(key) =>
      if key in s.pods {
        var jp := s.pods[key].ip;
        if m :| IsAssigned(s, m, jp) && s' == GiveBack(s, m, jp, e.now).(pods := s.pods - {key}) {
          GiveBackWarm(s, key, m, jp, e.now, n, ip, t0);
        }
      }
  }

  lemma HandOutWarm(s: State, key: PodKey, m: gostring, jp: gostring, n: gostring, ip: gostring, t0: int)
    requires Has(s, m, jp) && Warm(s, n, ip, t0)
    ensures Warm(HandOut(s, key, m, jp), n, ip, t0)
  {}

  lemma GiveBackWarm(s: State, key: PodKey, m: gostring, jp: gostring, now: int, n: gostring, ip: gostring, t0: int)
    requires Has(s, m, jp) && Warm(s, n, ip, t0) && t0 <= now
    ensures Warm(GiveBack(s, m, jp, now).(pods := s.pods - {key}), n, ip, t0)
  {}

  /** While an address is warm nobody gets it before the address cooling period is over. */
  lemma WarmNotHandedOut(s: State, e: Event, s': State, ip: gostring, t0: int)
    requires Counted(s) && OneNICEach(s) && Step(s, e.now, e.op, s', e.reply) && Serving(e.op)
    requires HandsOut(e, ip) && Remembered(s, ip, t0, e.now)
    ensures e.now - t0 > ADDRESS_COOLING
  {
    if e.now - t0 < NIC_COOLING {
      var n :| Warm(s, n, ip, t0);
      var key := e.op.key;
      assert key !in s.pods;
      var m, jp :| Candidate(s, e.now, [], m, jp) &&
                   e.reply == Ok(s.nics[m].ipv4Addresses[jp].address, s.nics[m].deviceNumber);
      assert NICCounted(m, s.nics[m]);
      assert jp == ip && Has(s, m, ip) && m == n;
    }
  }

  lemma {:induction false} RunRemembers(states: seq<State>, events: seq<Event>, i: nat, j: nat, ip: gostring)
    requires IsRun(states, events) && Counted(states[0]) && Exclusive(states[0])
    requires forall k :: 0 <= k < |events| ==> Serving(events[k].op)
    requires i < j < |events| && Releases(events[i], ip)
    ensures Remembered(states[j], ip, events[i].now, events[j].now)
    decreases j
  {
    hide Counted, Step, Fair, OneNICEach, Unassign;
    var t0 := events[i].now;
    RunKeeps(states, events, j - 1);
    if j == i + 1 {
      IsRelease(states[i], events[i], states[j], ip);
    } else {
      RunRemembers(states, events, i, j - 1, ip);
      if events[j].now - t0 < NIC_COOLING {
        assert events[j - 1].now <= events[j].now;
        var n :| Warm(states[j - 1], n, ip, t0);
        ExclusiveOneNIC(states[j - 1]);
        StepRemembers(states[j - 1], events[j - 1], states[j], ip, t0, n);
      }
    }
  }

  lemma IsRelease(s: State, e: Event, s': State, ip: gostring)
    requires Counted(s) && Step(s, e.now, e.op, s', e.reply) && Releases(e, ip)
    ensures exists n :: Warm(s', n, ip, e.now)
  {
    hide Unassign;
    ReleaseRemembers(s, e.now, e.op.key, s', e.reply);
  }

  lemma ExclusiveOneNIC(s: State)
    requires Exclusive(s)
    ensures OneNICEach(s)
  {}

  /** Cooling survives NIC recycling: in a run of requests and pool ticks, an address released at one moment is handed
      out again only more than the cooling period later, even if its NIC was removed and it came back on another. */
  lemma CoolingSurvives(states: seq<State>, events: seq<Event>, i: nat, j: nat, ip: gostring)
    requires IsRun(states, events) && Counted(states[0]) && Exclusive(states[0])
    requires forall k :: 0 <= k < |events| ==> Serving(events[k].op)
    requires i < j < |events| && Releases(events[i], ip) && HandsOut(events[j], ip)
    ensures events[j].now - events[i].now > ADDRESS_COOLING
  {
    hide Counted, Step, OneNICEach;
    RunRemembers(states, events, i, j, ip);
    RunKeeps(states, events, j);
    ExclusiveOneNIC(states[j]);
    WarmNotHandedOut(states[j], events[j], states[j + 1], ip, events[i].now);
  }

  // ---------- single calls ----------

  /** Some address is free and past its cooling period. */
  ghost predicate SomeCooled(s: State, now: int) {
    exists n, ip ::
      Has(s, n, ip) && !IsAssigned(s, n, ip) &&
      MoreThan(now, s.nics[n].ipv4Addresses[ip].unassignedTime, ADDRESS_COOLING)
  }

  /** A NIC the search skips as full has no free address. */
  lemma FullMeansFull(s: State, n: gostring, ip: gostring)
    requires Counted(s) && Has(s, n, ip) && Skipped(s, [], n)
    ensures IsAssigned(s, n, ip)
  {
    var nic := s.nics[n];
    assert NICCounted(n, nic);
    var free := nic.ipv4Addresses.Keys - InUseOf(nic);
    assert nic.ipv4Addresses.Keys == InUseOf(nic) + free;
    assert |nic.ipv4Addresses| == |nic.ipv4Addresses.Keys|;
    assert |free| == 0;
    assert free == {};
  }

  /** The search for any address is complete: it fails only if no address is free and cooled, and then changes nothing.
      On success the pod gets such an address and nobody else's. */
  lemma SearchComplete(s: State, now: int, key: PodKey, s': State, r: Reply)
    requires Counted(s) && Exclusive(s) && key !in s.pods && Assign(s, now, key, [], s', r)
    ensures r.Ok? <==> SomeCooled(s, now)
    ensures !r.Ok? ==> s' == s && r == Failed(NoAvailableIP)
    ensures r.Ok? ==>
      s'.pods == s.pods[key := PodIPInfo(r.ip, r.deviceNumber)] && s'.assignedCount == s.assignedCount + 1
    ensures r.Ok? ==> forall k :: k in s.pods ==> s.pods[k].ip != r.ip
  {
    if SomeCooled(s, now) {
      var n, ip :| Has(s, n, ip) && !IsAssigned(s, n, ip)
                   && MoreThan(now, s.nics[n].ipv4Addresses[ip].unassignedTime, ADDRESS_COOLING);
      if Skipped(s, [], n) { FullMeansFull(s, n, ip); }
      assert Candidate(s, now, [], n, ip);
    }
    if r.Ok? {
      var n := SearchPicks(s, now, key, s', r);
      forall k | k in s.pods ensures s.pods[k].ip != r.ip {
        var m :| Holds(s, k, m);
        AssignedHas(s, m, s.pods[k].ip);
      }
    }
  }

  lemma KeyIsAddress(s: State, n: gostring, ip: gostring)
    requires Counted(s) && Has(s, n, ip)
    ensures s.nics[n].ipv4Addresses[ip].address == ip
  {
    assert NICCounted(n, s.nics[n]);
  }

  /** Asking for an address by name succeeds exactly when some NIC has it. */
  lemma RecoverComplete(s: State, now: int, key: PodKey, want: gostring, s': State, r: Reply)
    requires Counted(s) && key !in s.pods && want != [] && Assign(s, now, key, want, s', r)
    ensures r.Ok? <==> exists n :: Has(s, n, want)
    ensures r.Ok? ==> r.ip == want && s'.pods == s.pods[key := PodIPInfo(want, r.deviceNumber)]
    ensures r.Ok? ==> exists n :: IsAssigned(s', n, want) && Device(s', n) == r.deviceNumber
  {
    if n :| Has(s, n, want) {
      KeyIsAddress(s, n, want);
      assert Candidate(s, now, want, n, want);
    }
    hide AssignUnsafe, Candidate, NICCounted;
    if r.Ok? {
      var n := RecoverPicks(s, now, key, want, s', r);
    }
  }

  lemma RecoverPicks(s: State, now: int, key: PodKey, want: gostring, s': State, r: Reply) returns (n: gostring)
    requires Counted(s) && key !in s.pods && want != [] && Assign(s, now, key, want, s', r) && r.Ok?
    ensures Has(s, n, want) && s' == HandOut(s, key, n, want) && r == Ok(want, Device(s, n))
    ensures s.nics[n].ipv4Addresses[want].address == want
    ensures IsAssigned(s', n, want) && Device(s', n) == Device(s, n)
  {
    var m, ip :| Candidate(s, now, want, m, ip) && s' == HandOut(s, key, m, ip)
                 && r == Ok(s.nics[m].ipv4Addresses[ip].address, s.nics[m].deviceNumber);
    KeyIsAddress(s, m, ip);
    n := m;
  }

  /** NIC n with new release times for itself and its address ip. */
  function Restamped(s: State, n: gostring, ip: gostring, now: int): State
    requires Has(s, n, ip)
  {
    var nic := s.nics[n];
    var addresses := nic.ipv4Addresses[ip := nic.ipv4Addresses[ip].(unassignedTime := At(now))];
    s.(nics := s.nics[n := nic.(lastUnassignedTime := At(now), ipv4Addresses := addresses)])
  }

  /** A successful AddNetwork undone by DelNetwork for the same pod: the reply is the same, and the store is what it was
      but for the release times of that one NIC and address. */
  lemma AddThenDel(s: State, t1: int, key: PodKey, s1: State, r1: Reply, t2: int, s2: State, r2: Reply)
    requires Counted(s) && Exclusive(s) && key !in s.pods
    requires Assign(s, t1, key, [], s1, r1) && r1.Ok? && Unassign(s1, t2, key, s2, r2)
    ensures r2 == r1
    ensures exists n :: Has(s, n, r1.ip) && s2 == Restamped(s, n, r1.ip, t2)
  {
    hide NICCounted, NoSharing, HasOwner, Holds, Candidate, AssignUnsafe, Restamped;
    var n := SearchPicks(s, t1, key, s1, r1);
    AssignCounted(s, t1, key, [], s1, r1);
    AssignExclusive(s, t1, key, [], s1, r1);
    HandedOut(s, key, n, r1.ip);
    DelUndoes(s1, n, r1.ip, t2, key, s2, r2);
    TakenThenGiven(s, n, r1.ip, key, t2);
  }

  /** A store with one NIC, without and with its address. */
  function Bare(id: gostring, dev: int, now: int): State {
    State(0, 0, map[id := NICIPPool(At(now), Never, false, id, dev, 0, map[])], map[])
  }

  function OneAddress(id: gostring, dev: int, ip: gostring, now: int): State {
    var addresses := map[ip := AddressInfo(ip, false, Never)];
    State(1, 0, map[id := NICIPPool(At(now), Never, false, id, dev, 0, addresses)], map[])
  }

  lemma PoolSteps(id: gostring, dev: int, ip: gostring, now: int)
    requires dev > 0 && ip != []
    ensures var bare, s := Bare(id, dev, now), OneAddress(id, dev, ip, now);
      && Step(EMPTY, now, OpAddNIC(id, dev, false), bare, Done) && Fair(EMPTY, OpAddNIC(id, dev, false))
      && Step(bare, now, OpAddAddress(id, ip), s, Done) && Fair(bare, OpAddAddress(id, ip))
      && Counted(s) && Exclusive(s)
  {
    var bare, s := Bare(id, dev, now), OneAddress(id, dev, ip, now);
    assert Step(EMPTY, now, OpAddNIC(id, dev, false), bare, Done);
    assert s == s.(nics := bare.nics[id := s.nics[id]]);
    assert Step(bare, now, OpAddAddress(id, ip), s, Done);
    hide Counted, Exclusive, Step;
    EmptyIsFine();
    StepCounted(EMPTY, now, OpAddNIC(id, dev, false), bare, Done);
    StepExclusive(EMPTY, now, OpAddNIC(id, dev, false), bare, Done);
    StepCounted(bare, now, OpAddAddress(id, ip), s, Done);
    StepExclusive(bare, now, OpAddAddress(id, ip), s, Done);
  }

  /** The address of the NIC handed out and given back. */
  function Held(id: gostring, dev: int, ip: gostring, key: PodKey, now: int): State {
    HandOut(OneAddress(id, dev, ip, now), key, id, ip)
  }

  function GivenBack(id: gostring, dev: int, ip: gostring, key: PodKey, now: int): State {
    GiveBack(Held(id, dev, ip, key, now), id, ip, now).(pods := map[])
  }

  lemma PodSteps(id: gostring, dev: int, ip: gostring, key: PodKey, now: int)
    ensures var s, s1 := OneAddress(id, dev, ip, now), Held(id, dev, ip, key, now);
      var s2 := GivenBack(id, dev, ip, key, now);
      && Step(s, now, OpAssign(key, []), s1, Ok(ip, dev)) && Step(s1, now, OpUnassign(key), s2, Ok(ip, dev))
  {
    var s, s1 := OneAddress(id, dev, ip, now), Held(id, dev, ip, key, now);
    SearchGives(s, now, key, id, ip);
    assert IsAssigned(s1, id, ip);
    assert s1.pods - {key} == map[];
  }

  lemma NextPod(id: gostring, dev: int, ip: gostring, key: PodKey, key2: PodKey, now: int)
    ensures Has(GivenBack(id, dev, ip, key, now), id, ip)
    ensures var s2, later := GivenBack(id, dev, ip, key, now), now + ADDRESS_COOLING + 1;
      Step(s2, later, OpAssign(key2, []), HandOut(s2, key2, id, ip), Ok(ip, dev))
  {
    SearchGives(GivenBack(id, dev, ip, key, now), now + ADDRESS_COOLING + 1, key2, id, ip);
  }

  /** Such calls exist: from the empty store a NIC and its address are added, a pod gets the address and gives it back,
      and after the cooling period another pod gets it. */
  lemma FirstPod(id: gostring, dev: int, ip: gostring, key: PodKey, key2: PodKey, now: int)
    returns (states: seq<State>, events: seq<Event>)
    requires dev > 0 && ip != []
    ensures IsRun(states, events) && |events| == 5 && states[0] == EMPTY
    ensures events[2] == Event(now, OpAssign(key, []), Ok(ip, dev)) && key !in states[2].pods
    ensures events[3] == Event(now, OpUnassign(key), Ok(ip, dev))
    ensures events[4].op == OpAssign(key2, []) && events[4].reply == Ok(ip, dev)
    ensures forall e :: e in events ==> Serving(e.op)
  {
    hide Step, Fair, IsRun, Bare, Held, GivenBack, HandOut;
    var s, s2, later := OneAddress(id, dev, ip, now), GivenBack(id, dev, ip, key, now), now + ADDRESS_COOLING + 1;
    var add, put := Event(now, OpAddNIC(id, dev, false), Done), Event(now, OpAddAddress(id, ip), Done);
    var get, back := Event(now, OpAssign(key, []), Ok(ip, dev)), Event(now, OpUnassign(key), Ok(ip, dev));
    var next := Event(later, OpAssign(key2, []), Ok(ip, dev));
    PoolSteps(id, dev, ip, now);
    PodSteps(id, dev, ip, key, now);
    NextPod(id, dev, ip, key, key2, now);
    RequestsAreFair(s, key);
    RequestsAreFair(Held(id, dev, ip, key, now), key);
    RequestsAreFair(s2, key2);
    NoEventsYet();
    states, events := Longer([EMPTY], [], add, Bare(id, dev, now));
    states, events := Longer(states, events, put, s);
    states, events := Longer(states, events, get, Held(id, dev, ip, key, now));
    states, events := Longer(states, events, back, s2);
    states, events := Longer(states, events, next, HandOut(s2, key2, id, ip));
    assert events == [add, put, get, back, next];
  }

  lemma RequestsAreFair(s: State, key: PodKey)
    ensures Fair(s, OpAssign(key, [])) && Fair(s, OpUnassign(key))
  {}

  lemma NoEventsYet()
    ensures IsRun([EMPTY], [])
  {}

  /** A run goes on with a fair step at a later moment. */
  lemma Longer(states: seq<State>, events: seq<Event>, e: Event, s: State)
    returns (states': seq<State>, events': seq<Event>)
    requires IsRun(states, events) && |states| == |events| + 1
    requires Step(states[|events|], e.now, e.op, s, e.reply) && Fair(states[|events|], e.op)
    requires events != [] ==> events[|events| - 1].now <= e.now
    ensures states' == states + [s] && events' == events + [e] && IsRun(states', events')
  {
    hide Step, Fair;
    states', events' := states + [s], events + [e];
  }

  /** A free and cooled address may be handed out. */
  lemma SearchGives(s: State, now: int, key: PodKey, n: gostring, ip: gostring)
    requires key !in s.pods && Candidate(s, now, [], n, ip)
    ensures Assign(s, now, key, [], HandOut(s, key, n, ip), Ok(s.nics[n].ipv4Addresses[ip].address, Device(s, n)))
  {}

  /** A successful search settles on a free address and says so. */
  lemma SearchPicks(s: State, now: int, key: PodKey, s': State, r: Reply) returns (n: gostring)
    requires Counted(s) && OneNICEach(s) && key !in s.pods && Assign(s, now, key, [], s', r) && r.Ok?
    ensures Has(s, n, r.ip) && !IsAssigned(s, n, r.ip) && s' == HandOut(s, key, n, r.ip)
    ensures r.deviceNumber == Device(s, n)
    ensures s.nics[n].ipv4Addresses[r.ip].address == r.ip
    ensures MoreThan(now, s.nics[n].ipv4Addresses[r.ip].unassignedTime, ADDRESS_COOLING)
  {
    var m, ip :| Candidate(s, now, [], m, ip) && s' == HandOut(s, key, m, ip)
                 && r == Ok(s.nics[m].ipv4Addresses[ip].address, s.nics[m].deviceNumber);
    KeyIsAddress(s, m, ip);
    assert Has(s, m, ip) && ip != [];
    n := m;
  }

  lemma HandedOut(s: State, key: PodKey, n: gostring, ip: gostring)
    requires Has(s, n, ip) && s.nics[n].ipv4Addresses[ip].address == ip && !IsAssigned(s, n, ip)
    ensures var s1 := HandOut(s, key, n, ip);
      IsAssigned(s1, n, ip) && Device(s1, n) == Device(s, n) && key in s1.pods && s1.pods[key].ip == ip
  {}

  lemma DelUndoes(s: State, n: gostring, ip: gostring, now: int, key: PodKey, s': State, r: Reply)
    requires Counted(s) && OneNICEach(s) && IsAssigned(s, n, ip)
    requires key in s.pods && s.pods[key].ip == ip && Unassign(s, now, key, s', r)
    ensures s' == GiveBack(s, n, ip, now).(pods := s.pods - {key}) && r == Ok(ip, Device(s, n))
  {
    var m :| IsAssigned(s, m, ip) && s' == GiveBack(s, m, ip, now).(pods := s.pods - {key})
             && r == Ok(s.nics[m].ipv4Addresses[ip].address, s.nics[m].deviceNumber);
    assert m == n by { AssignedHas(s, m, ip); AssignedHas(s, n, ip); }
    assert NICCounted(n, s.nics[n]);
  }

  lemma TakenThenGiven(s: State, n: gostring, ip: gostring, key: PodKey, now: int)
    requires Has(s, n, ip) && !IsAssigned(s, n, ip) && key !in s.pods
    ensures Has(HandOut(s, key, n, ip), n, ip)
    ensures var s1 := HandOut(s, key, n, ip);
      GiveBack(s1, n, ip, now).(pods := s1.pods - {key}) == Restamped(s, n, ip, now)
  {
    var s1 := HandOut(s, key, n, ip);
    assert s1.pods - {key} == s.pods;
    var nic := s.nics[n];
    assert GiveBackIn(TakeIn(nic, ip), ip, now).ipv4Addresses
        == nic.ipv4Addresses[ip := nic.ipv4Addresses[ip].(unassignedTime := At(now))];
    assert GiveBack(s1, n, ip, now).nics == Restamped(s, n, ip, now).nics;
  }

  /** Recovery shares an address exactly when it is asked, for a new pod, for one that another pod holds: the store
      hands an address in use to whoever names it. */
  lemma RecoverSharesExactly(s: State, now: int, key: PodKey, want: gostring, s': State, r: Reply)
    requires Counted(s) && Exclusive(s) && key !in s.pods && want != [] && Assign(s, now, key, want, s', r)
    ensures Exclusive(s') <==> !HasOwner(s, want)
  {
    if HasOwner(s, want) {
      var k :| k in s.pods && s.pods[k].ip == want;
      var n :| Holds(s, k, n);
      AssignedHas(s, n, want);
      RecoverComplete(s, now, key, want, s', r);
      assert key in s'.pods && k in s'.pods && s'.pods[key].ip == s'.pods[k].ip;
    } else {
      AssignExclusive(s, now, key, want, s', r);
    }
  }

  /** DelNetwork's two tries: the pod with its container, then the pod alone. */
  ghost predicate Release(s: State, now: int, key: PodKey, mid: State, r1: Reply, s': State, r2: Reply) {
    && Unassign(s, now, key, mid, r1)
    && if r1 == Failed(UnknownPod) then Unassign(mid, now, key.(container := []), s', r2) else mid == s' && r2 == r1
  }

  /** Which pod a DelNetwork releases. */
  function Released(s: State, key: PodKey): PodKey { if key in s.pods then key else key.(container := []) }

  /** A DelNetwork releases one pod of that name and namespace or none, answers with what that pod was told, never meets
      an unknown address, and leaves every other pod alone. */
  lemma ReleaseExactly(s: State, now: int, key: PodKey, mid: State, r1: Reply, s': State, r2: Reply)
    requires Counted(s) && Exclusive(s) && Release(s, now, key, mid, r1, s', r2)
    ensures Counted(s') && Exclusive(s') && s'.pods == s.pods - {Released(s, key)}
    ensures var k := Released(s, key);
      r2 == if k in s.pods then Ok(s.pods[k].ip, s.pods[k].deviceNumber) else Failed(UnknownPod)
  {
    hide Counted, Exclusive;
    UnassignCounted(s, now, key, mid, r1);
    UnassignExclusive(s, now, key, mid, r1);
    if r1 == Failed(UnknownPod) {
      UnassignCounted(mid, now, key.(container := []), s', r2);
      UnassignExclusive(mid, now, key.(container := []), s', r2);
      UnassignPods(mid, now, key.(container := []), s', r2);
    }
    UnassignPods(s, now, key, mid, r1);
  }

  lemma UnassignPods(s: State, now: int, key: PodKey, s': State, r: Reply)
    requires Unassign(s, now, key, s', r)
    ensures s'.pods == if r.Ok? then s.pods - {key} else s.pods
    ensures key !in s.pods ==> s.pods - {key} == s.pods
  {}
}
