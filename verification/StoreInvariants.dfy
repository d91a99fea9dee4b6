/** What every operation of the store keeps: the redundant counters are right, and no two pods share an address. */
module StoreInvariants {
  import opened Common
  import opened Store

  // ---------- conservation ----------

  /** All (NIC, address) pairs of a family of address sets: its size is the sum of theirs. */
  function Pairs(m: map<gostring, set<gostring>>): set<(gostring, gostring)> {
    set n, ip | n in m && ip in m[n] :: (n, ip)
  }

  function InUseOf(nic: NICIPPool): set<gostring> {
    set ip | ip in nic.ipv4Addresses && nic.ipv4Addresses[ip].isAssigned
  }

  function AddressSets(s: State): map<gostring, set<gostring>> { map n | n in s.nics :: s.nics[n].ipv4Addresses.Keys }
  function UseSets(s: State): map<gostring, set<gostring>> { map n | n in s.nics :: InUseOf(s.nics[n]) }

  /** What is stored for one NIC is stored under its name, and its counter is right. */
  ghost predicate NICCounted(n: gostring, nic: NICIPPool) {
    && nic.id == n
    && nic.assignedIPv4Addresses == |InUseOf(nic)|
    && forall ip :: ip in nic.ipv4Addresses ==> nic.ipv4Addresses[ip].address == ip
  }

  /** Every counter is the number of the entries it stands for. */
  ghost predicate Counted(s: State) {
    && (forall n :: n in s.nics ==> NICCounted(n, s.nics[n]))
    && s.total == |Pairs(AddressSets(s))|
    && s.assignedCount == |Pairs(UseSets(s))|
  }

  lemma CountedBounds(s: State)
    requires Counted(s)
    ensures 0 <= s.assignedCount <= s.total
  {
    var used, all := Pairs(UseSets(s)), Pairs(AddressSets(s));
    assert all == used + (all - used);
  }

  lemma {:induction false} TaggedSize(n: gostring, ips: set<gostring>)
    ensures |set ip | ip in ips :: (n, ip)| == |ips|
  {
    if ips != {} {
      var x :| x in ips;
      TaggedSize(n, ips - {x});
      assert (set ip | ip in ips :: (n, ip)) == (set ip | ip in ips - {x} :: (n, ip)) + {(n, x)};
    }
  }

  lemma PairsWithout(m: map<gostring, set<gostring>>, n: gostring)
    requires n in m
    ensures |Pairs(m)| == |Pairs(m - {n})| + |m[n]|
  {
    var own := set ip | ip in m[n] :: (n, ip);
    TaggedSize(n, m[n]);
    assert Pairs(m) == Pairs(m - {n}) + own && Pairs(m - {n}) !! own;
  }

  lemma PairsUpdated(m: map<gostring, set<gostring>>, n: gostring, t: set<gostring>)
    ensures |Pairs(m[n := t])| == |Pairs(m)| + |t| - (if n in m then |m[n]| else 0)
  {
    assert m[n := t] - {n} == m - {n};
    PairsWithout(m[n := t], n);
    if n in m { PairsWithout(m, n); } else { assert m - {n} == m; }
  }

  /** Storing nic under n moves the totals by the difference it makes. */
  lemma SetNICCounted(s: State, n: gostring, nic: NICIPPool, s': State)
    requires Counted(s) && s'.nics == s.nics[n := nic] && NICCounted(n, nic)
    requires s'.total
          == s.total + |nic.ipv4Addresses.Keys| - (if n in s.nics then |s.nics[n].ipv4Addresses.Keys| else 0)
    requires s'.assignedCount == s.assignedCount + |InUseOf(nic)| - (if n in s.nics then |InUseOf(s.nics[n])| else 0)
    ensures Counted(s')
  {
    hide InUseOf, Pairs, NICCounted;
    SetsUpdated(s, n, nic, s');
    PairsUpdated(AddressSets(s), n, nic.ipv4Addresses.Keys);
    PairsUpdated(UseSets(s), n, InUseOf(nic));
  }

  lemma SetsUpdated(s: State, n: gostring, nic: NICIPPool, s': State)
    requires s'.nics == s.nics[n := nic]
    ensures AddressSets(s') == AddressSets(s)[n := nic.ipv4Addresses.Keys]
    ensures UseSets(s') == UseSets(s)[n := InUseOf(nic)]
  {}

  lemma TakeCounted(s: State, n: gostring, ip: gostring)
    requires Counted(s) && Has(s, n, ip) && !IsAssigned(s, n, ip)
    ensures Counted(Take(s, n, ip))
  {
    hide Pairs, AddressSets, UseSets;
    var nic := TakeIn(s.nics[n], ip);
    assert InUseOf(nic) == InUseOf(s.nics[n]) + {ip};
    assert nic.ipv4Addresses.Keys == s.nics[n].ipv4Addresses.Keys;
    SetNICCounted(s, n, nic, Take(s, n, ip));
  }

  lemma GiveBackCounted(s: State, n: gostring, ip: gostring, now: int)
    requires Counted(s) && IsAssigned(s, n, ip)
    ensures Counted(GiveBack(s, n, ip, now))
  {
    hide Pairs, AddressSets, UseSets;
    var nic := GiveBackIn(s.nics[n], ip, now);
    assert InUseOf(nic) == InUseOf(s.nics[n]) - {ip};
    assert nic.ipv4Addresses.Keys == s.nics[n].ipv4Addresses.Keys;
    SetNICCounted(s, n, nic, GiveBack(s, n, ip, now));
  }

  lemma DropNICCounted(s: State, n: gostring)
    requires Counted(s) && n in s.nics && s.nics[n].assignedIPv4Addresses == 0
    ensures Counted(DropNIC(s, n))
  {
    hide Pairs, InUseOf;
    assert NICCounted(n, s.nics[n]);
    assert AddressSets(DropNIC(s, n)) == AddressSets(s) - {n};
    assert UseSets(DropNIC(s, n)) == UseSets(s) - {n};
    assert |s.nics[n].ipv4Addresses| == |s.nics[n].ipv4Addresses.Keys|;
    PairsWithout(AddressSets(s), n);
    PairsWithout(UseSets(s), n);
  }

  lemma AddAddressCounted(s: State, n: gostring, ip: gostring, s': State, r: Reply)
    requires Counted(s) && AddAddress(s, n, ip, s', r)
    ensures Counted(s')
  {
    hide Pairs, AddressSets, UseSets;
    if r == Done {
      var nic := s'.nics[n];
      assert InUseOf(nic) == InUseOf(s.nics[n]);
      assert nic.ipv4Addresses.Keys == s.nics[n].ipv4Addresses.Keys + {ip};
      SetNICCounted(s, n, nic, s');
    }
  }

  lemma DelAddressCounted(s: State, n: gostring, ip: gostring, s': State, r: Reply)
    requires Counted(s) && DelAddress(s, n, ip, s', r)
    ensures Counted(s')
  {
    hide Pairs, AddressSets, UseSets;
    if r == Done {
      var nic := s'.nics[n];
      assert InUseOf(nic) == InUseOf(s.nics[n]);
      assert nic.ipv4Addresses.Keys == s.nics[n].ipv4Addresses.Keys - {ip};
      SetNICCounted(s, n, nic, s');
    }
  }

  lemma AddNICCounted(s: State, now: int, id: gostring, dev: int, primary: bool, s': State, r: Reply)
    requires Counted(s) && AddNIC(s, now, id, dev, primary, s', r)
    ensures Counted(s')
  {
    hide Pairs, AddressSets, UseSets;
    if r == Done {
      assert InUseOf(s'.nics[id]) == {};
      SetNICCounted(s, id, s'.nics[id], s');
    }
  }

  lemma PodsDoNotCount(s: State, pods: map<PodKey, PodIPInfo>)
    requires Counted(s)
    ensures Counted(s.(pods := pods))
  {
    var s' := s.(pods := pods);
    assert AddressSets(s') == AddressSets(s) && UseSets(s') == UseSets(s);
  }

  /** Conservation: every operation, in any state whose counters are right, whatever it replies. */
  lemma StepCounted(s: State, now: int, op: Op, s': State, r: Reply)
    requires Counted(s) && Step(s, now, op, s', r)
    ensures Counted(s')
  {
    hide Counted;
    match op
    case OpAddNIC(id, dev, primary) => AddNICCounted(s, now, id, dev, primary, s', r);
    case OpAddAddress(n, ip) => AddAddressCounted(s, n, ip, s', r);
    case OpDelAddress(n, ip) => DelAddressCounted(s, n, ip, s', r);
    case OpAssign(key, want) => AssignCounted(s, now, key, want, s', r);
    case OpUnassign(key) => UnassignCounted(s, now, key, s', r);
    case OpRemoveUnused =>
      if n :| Deletable(s, now, n) && s' == DropNIC(s, n) { DropNICCounted(s, n); }
    case OpRemoveNIC(n) =>
      if s' != s { DropNICCounted(s, n); }
  }

  lemma AssignCounted(s: State, now: int, key: PodKey, want: gostring, s': State, r: Reply)
    requires Counted(s) && Assign(s, now, key, want, s', r)
    ensures Counted(s')
  {
    hide Counted;
    if n, ip :| Candidate(s, now, want, n, ip) && s' == HandOut(s, key, n, ip) {
      if !IsAssigned(s, n, ip) {
        TakeCounted(s, n, ip);
        PodsDoNotCount(Take(s, n, ip), s'.pods);
      } else {
        PodsDoNotCount(s, s'.pods);
      }
    }
  }

  lemma UnassignCounted(s: State, now: int, key: PodKey, s': State, r: Reply)
    requires Counted(s) && Unassign(s, now, key, s', r)
    ensures Counted(s')
  {
    hide Counted;
    if key in s.pods {
      if n :| IsAssigned(s, n, s.pods[key].ip) && s' == GiveBack(s, n, s.pods[key].ip, now).(pods := s.pods - {key}) {
        GiveBackCounted(s, n, s.pods[key].ip, now);
        PodsDoNotCount(GiveBack(s, n, s.pods[key].ip, now), s'.pods);
      }
    }
  }

  // ---------- device numbers ----------

  /** Every NIC has a device number, above 0. */
  ghost predicate Positive(s: State) { forall n :: n in s.nics ==> s.nics[n].deviceNumber > 0 }

  /** Every NIC there after was there before with the same device number, or is new with one above 0. */
  ghost predicate DevicesKept(s: State, s': State) {
    forall n :: n in s'.nics ==> if n in s.nics then Device(s', n) == Device(s, n) else Device(s', n) > 0
  }

  lemma KeptPositive(s: State, s': State)
    requires Positive(s) && DevicesKept(s, s')
    ensures Positive(s')
  {
    forall n | n in s'.nics ensures s'.nics[n].deviceNumber > 0 { assert Device(s', n) > 0; }
  }

  lemma StepPositive(s: State, now: int, op: Op, s': State, r: Reply)
    requires Positive(s) && Step(s, now, op, s', r)
    ensures Positive(s') && DevicesKept(s, s')
  {
    hide Positive;
    match op {
      case OpAssign(key, want) => AssignDevices(s, now, key, want, s', r);
      case OpUnassign(key) => UnassignDevices(s, now, key, s', r);
      case OpRemoveUnused =>
        if n :| Deletable(s, now, n) && s' == DropNIC(s, n) {}
      case _ =>
    }
    KeptPositive(s, s');
  }

  lemma AssignDevices(s: State, now: int, key: PodKey, want: gostring, s': State, r: Reply)
    requires Assign(s, now, key, want, s', r)
    ensures DevicesKept(s, s') && forall n :: Device(s', n) == Device(s, n)
  {
    if n, ip :| Candidate(s, now, want, n, ip) && s' == HandOut(s, key, n, ip) { HandOutChange(s, key, n, ip); }
  }

  lemma UnassignDevices(s: State, now: int, key: PodKey, s': State, r: Reply)
    requires Unassign(s, now, key, s', r)
    ensures DevicesKept(s, s')
  {
    if key in s.pods {
      if n :| IsAssigned(s, n, s.pods[key].ip) && s' == GiveBack(s, n, s.pods[key].ip, now).(pods := s.pods - {key}) {
        GiveBackChange(s, key, n, s.pods[key].ip, now);
      }
    }
  }

  // ---------- exclusive assignment ----------

  /** Pod key holds an address that is in use on NIC n, with that NIC's device number. */
  ghost predicate Holds(s: State, key: PodKey, n: gostring) {
    && key in s.pods && IsAssigned(s, n, s.pods[key].ip) && Device(s, n) == s.pods[key].deviceNumber
  }

  /** Addresses are not empty and sit on one NIC. */
  ghost predicate OneNICEach(s: State) {
    && (forall n, ip :: Has(s, n, ip) ==> ip != [])
    && (forall n, m, ip :: Has(s, n, ip) && Has(s, m, ip) ==> n == m)
  }

  /** No address is held by two pods. */
  ghost predicate NoSharing(s: State) {
    forall k1, k2 :: k1 in s.pods && k2 in s.pods && s.pods[k1].ip == s.pods[k2].ip ==> k1 == k2
  }

  ghost predicate HasOwner(s: State, ip: gostring) { exists key :: key in s.pods && s.pods[key].ip == ip }

  /** Pods and addresses in use are in bijection. */
  ghost predicate Exclusive(s: State) {
    && OneNICEach(s) && NoSharing(s)
    && (forall key :: key in s.pods ==> exists n :: Holds(s, key, n))
    && (forall n, ip :: IsAssigned(s, n, ip) ==> HasOwner(s, ip))
  }

  /** What is asked of the environment: an address added is not empty and on no other NIC; an address asked for by
      name is not empty and not held by another pod. Every other operation is free. */
  ghost predicate Fair(s: State, op: Op) {
    match op
    case OpAddAddress(n, ip) => ip != [] && forall m :: Has(s, m, ip) ==> m == n
    case OpAssign(key, want) => want != [] ==> forall k :: k in s.pods && s.pods[k].ip == want ==> k == key
    case _ => true
  }

  /** Exactly the addresses of `add` more, of `drop` less, are in use; the rest of the pool looks the same. */
  ghost predicate UseChanged(s: State, s': State, add: set<(gostring, gostring)>, drop: set<(gostring, gostring)>) {
    && (forall n, ip :: Has(s', n, ip) <==> Has(s, n, ip))
    && (forall n, ip :: IsAssigned(s', n, ip) <==> (IsAssigned(s, n, ip) || (n, ip) in add) && (n, ip) !in drop)
    && (forall n :: Device(s', n) == Device(s, n))
  }

  lemma HandOutChange(s: State, key: PodKey, n: gostring, ip: gostring)
    requires Has(s, n, ip)
    ensures UseChanged(s, HandOut(s, key, n, ip), {(n, ip)}, {})
  {}

  lemma GiveBackChange(s: State, key: PodKey, n: gostring, ip: gostring, now: int)
    requires Has(s, n, ip)
    ensures UseChanged(s, GiveBack(s, n, ip, now).(pods := s.pods - {key}), {}, {(n, ip)})
  {}

  lemma HandOutExclusive(s: State, key: PodKey, n: gostring, ip: gostring, s': State)
    requires Exclusive(s) && key !in s.pods && Has(s, n, ip) && !IsAssigned(s, n, ip)
    requires UseChanged(s, s', {(n, ip)}, {}) && s'.pods == s.pods[key := PodIPInfo(ip, Device(s, n))]
    ensures Exclusive(s')
  {
    hide Has, IsAssigned, Device;
    forall k | k in s.pods ensures s.pods[k].ip != ip && exists m :: Holds(s', k, m) {
      var m :| Holds(s, k, m);
      if s.pods[k].ip == ip { AssignedHas(s, m, ip); }
      assert Holds(s', k, m);
    }
    assert Holds(s', key, n);
    forall m, jp | IsAssigned(s', m, jp) ensures HasOwner(s', jp) {
      if (m, jp) == (n, ip) {
        assert key in s'.pods && s'.pods[key].ip == jp;
      } else {
        var k :| k in s.pods && s.pods[k].ip == jp;
        assert k in s'.pods && s'.pods[k].ip == jp;
      }
    }
  }

  lemma AssignedHas(s: State, n: gostring, ip: gostring)
    requires IsAssigned(s, n, ip)
    ensures Has(s, n, ip)
  {}

  lemma GiveBackExclusive(s: State, key: PodKey, n: gostring, s': State)
    requires Exclusive(s) && Holds(s, key, n)
    requires UseChanged(s, s', {}, {(n, s.pods[key].ip)}) && s'.pods == s.pods - {key}
    ensures Exclusive(s')
  {
    hide Has, IsAssigned, Device;
    forall k | k in s'.pods ensures exists m :: Holds(s', k, m) {
      var m :| Holds(s, k, m);
      assert Holds(s', k, m);
    }
    forall m, jp | IsAssigned(s', m, jp) ensures HasOwner(s', jp) {
      var k :| k in s.pods && s.pods[k].ip == jp;
      AssignedHas(s, m, jp);
      AssignedHas(s, n, s.pods[key].ip);
      assert k in s'.pods && s'.pods[k].ip == jp;
    }
  }

  lemma AssignExclusive(s: State, now: int, key: PodKey, want: gostring, s': State, r: Reply)
    requires Counted(s) && Exclusive(s) && Fair(s, OpAssign(key, want)) && Assign(s, now, key, want, s', r)
    ensures Exclusive(s')
  {
    if key !in s.pods {
      if n, ip :| Candidate(s, now, want, n, ip) && s' == HandOut(s, key, n, ip) {
        assert NICCounted(n, s.nics[n]);
        assert IsAssigned(s, n, ip) ==> HasOwner(s, ip);
        HandOutChange(s, key, n, ip);
        HandOutExclusive(s, key, n, ip, s');
      }
    }
  }

  /** Under exclusive assignment a release gives back what the pod was told it holds. */
  lemma UnassignExclusive(s: State, now: int, key: PodKey, s': State, r: Reply)
    requires Counted(s) && Exclusive(s) && Unassign(s, now, key, s', r)
    ensures Exclusive(s')
    ensures r == if key in s.pods then Ok(s.pods[key].ip, s.pods[key].deviceNumber) else Failed(UnknownPod)
  {
    if key in s.pods {
      var ip := s.pods[key].ip;
      var n :| Holds(s, key, n);
      assert IsAssigned(s, n, ip);
      var m :| IsAssigned(s, m, ip) && s' == GiveBack(s, m, ip, now).(pods := s.pods - {key})
               && r == Ok(s.nics[m].ipv4Addresses[ip].address, s.nics[m].deviceNumber);
      assert m == n by { AssignedHas(s, m, ip); AssignedHas(s, n, ip); }
      assert NICCounted(n, s.nics[n]);
      GiveBackChange(s, key, n, ip, now);
      GiveBackExclusive(s, key, n, s');
    }
  }

  /** The pods and the addresses in use stay: only free addresses come or go. */
  ghost predicate UseSame(s: State, s': State) {
    && s'.pods == s.pods
    && (forall n, ip :: IsAssigned(s', n, ip) <==> IsAssigned(s, n, ip))
    && (forall n, ip :: IsAssigned(s, n, ip) ==> Device(s', n) == Device(s, n))
  }

  lemma UseSameExclusive(s: State, s': State)
    requires Exclusive(s) && UseSame(s, s') && OneNICEach(s')
    ensures Exclusive(s')
  {
    hide Has, IsAssigned, Device, OneNICEach;
    forall k | k in s'.pods ensures exists m :: Holds(s', k, m) {
      var m :| Holds(s, k, m);
      assert Holds(s', k, m);
    }
    forall n, ip | IsAssigned(s', n, ip) ensures HasOwner(s', ip) {
      var k :| k in s.pods && s.pods[k].ip == ip;
    }
  }

  lemma DropNICUse(s: State, n: gostring)
    requires Counted(s) && OneNICEach(s) && n in s.nics && s.nics[n].assignedIPv4Addresses == 0
    ensures UseSame(s, DropNIC(s, n)) && OneNICEach(DropNIC(s, n))
  {
    NothingInUse(s, n);
    DroppedUse(s, n);
    FewerAddresses(s, DropNIC(s, n));
  }

  lemma NothingInUse(s: State, n: gostring)
    requires n in s.nics && NICCounted(n, s.nics[n]) && s.nics[n].assignedIPv4Addresses == 0
    ensures forall ip :: !IsAssigned(s, n, ip)
  {
    var nic := s.nics[n];
    assert InUseOf(nic) == {};
    forall ip ensures !IsAssigned(s, n, ip) {
      assert IsAssigned(s, n, ip) <==> ip in InUseOf(nic);
    }
  }

  lemma DroppedUse(s: State, n: gostring)
    requires n in s.nics && forall ip :: !IsAssigned(s, n, ip)
    ensures UseSame(s, DropNIC(s, n)) && forall m, ip :: Has(DropNIC(s, n), m, ip) ==> Has(s, m, ip)
  {}

  lemma FewerAddresses(s: State, s': State)
    requires OneNICEach(s) && forall n, ip :: Has(s', n, ip) ==> Has(s, n, ip)
    ensures OneNICEach(s')
  {
    hide Has;
  }

  lemma AddressUse(s: State, n: gostring, ip: gostring, s': State, r: Reply)
    requires OneNICEach(s)
    requires (AddAddress(s, n, ip, s', r) && Fair(s, OpAddAddress(n, ip))) || DelAddress(s, n, ip, s', r)
    ensures UseSame(s, s') && OneNICEach(s')
  {
    if r == Done {
      forall m, jp | Has(s', m, jp) ensures Has(s, m, jp) || (m, jp) == (n, ip) {}
      OneMoreAddress(s, n, ip, s');
    }
  }

  lemma OneMoreAddress(s: State, n: gostring, ip: gostring, s': State)
    requires OneNICEach(s) && ((ip != [] && forall m :: Has(s, m, ip) ==> m == n) || Has(s, n, ip))
    requires forall m, jp :: Has(s', m, jp) ==> Has(s, m, jp) || (m, jp) == (n, ip)
    ensures OneNICEach(s')
  {
    hide Has;
  }

  /** An address added to a NIC shares it exactly when the environment is not fair: it is empty, or on another NIC. */
  lemma AddSharesExactly(s: State, n: gostring, ip: gostring, s': State)
    requires Counted(s) && Exclusive(s) && AddAddress(s, n, ip, s', Done)
    ensures Exclusive(s') <==> Fair(s, OpAddAddress(n, ip))
  {
    if Fair(s, OpAddAddress(n, ip)) {
      AddressUse(s, n, ip, s', Done);
      UseSameExclusive(s, s');
    } else {
      assert Has(s', n, ip);
      if m :| Has(s, m, ip) && m != n { assert Has(s', m, ip); }
    }
  }

  lemma AddNICUse(s: State, now: int, id: gostring, dev: int, primary: bool, s': State, r: Reply)
    requires OneNICEach(s) && AddNIC(s, now, id, dev, primary, s', r)
    ensures UseSame(s, s') && OneNICEach(s')
  {
    FewerAddresses(s, s');
  }

  /** Exclusive assignment is kept by every operation the environment uses fairly; a pod's address is never unknown. */
  lemma StepExclusive(s: State, now: int, op: Op, s': State, r: Reply)
    requires Counted(s) && Exclusive(s) && Fair(s, op) && Step(s, now, op, s', r)
    ensures Exclusive(s') && r != Failed(UnknownPodIP)
  {
    hide Counted, Exclusive, UseSame, AssignUnsafe;
    match op
    case OpAssign(key, want) => AssignExclusive(s, now, key, want, s', r); AssignError(s, now, key, want, s', r);
    case OpUnassign(key) => UnassignExclusive(s, now, key, s', r);
    case _ => PoolStepExclusive(s, now, op, s', r);
  }

  lemma AssignError(s: State, now: int, key: PodKey, want: gostring, s': State, r: Reply)
    requires Assign(s, now, key, want, s', r)
    ensures r != Failed(UnknownPodIP)
  {}

  lemma PoolStepExclusive(s: State, now: int, op: Op, s': State, r: Reply)
    requires Counted(s) && Exclusive(s) && Fair(s, op) && Step(s, now, op, s', r)
    requires !op.OpAssign? && !op.OpUnassign?
    ensures Exclusive(s') && r != Failed(UnknownPodIP)
  {
    hide Counted, UseSame, NoSharing, HasOwner, Holds, OneNICEach;
    assert Exclusive(s) ==> OneNICEach(s);
    match op
    case OpRemoveUnused =>
      if n :| Deletable(s, now, n) && s' == DropNIC(s, n) { DropNICUse(s, n); UseSameExclusive(s, s'); }
    case OpRemoveNIC(n) =>
      if s' != s { DropNICUse(s, n); UseSameExclusive(s, s'); }
    case OpAddNIC(id, dev, primary) => AddNICUse(s, now, id, dev, primary, s', r); UseSameExclusive(s, s');
    case OpAddAddress(n, ip) => AddressUse(s, n, ip, s', r); UseSameExclusive(s, s');
    case OpDelAddress(n, ip) => AddressUse(s, n, ip, s', r); UseSameExclusive(s, s');
  }
}
