/** The pool manager settles: each tick outside the band moves the number of free addresses by one towards it. */
module Pool {
  import opened Common
  import opened Store
  import opened StoreInvariants
  import opened StoreRuns

  /** A NIC as the cloud describes it. */
  datatype HostNic = HostNic(id: gostring, deviceNumber: int, isPrimary: bool, address: gostring)

  /** Adding a created NIC to the node: its device number found, its network set up (unless it is primary). */
  ghost predicate NicSetUp(s: State, now: int, nic: HostNic, link: Option<int>, networkOK: bool, s': State) {
    if nic.deviceNumber <= 0 && link.None? then s' == s
    else
      var dev := if nic.deviceNumber <= 0 then link.value else nic.deviceNumber;
      exists mid, r :: AddNIC(s, now, nic.id, dev, nic.isPrimary, mid, r) && AfterAdd(mid, r, nic, networkOK, s')
  }

  /** A NIC that is there, new or not, gets its address unless it is primary or its network failed. */
  ghost predicate AfterAdd(mid: State, r: Reply, nic: HostNic, networkOK: bool, s': State) {
    if r in {Done, Failed(DuplicatedNIC)} && !nic.isPrimary && networkOK
    then exists r' :: AddAddress(mid, nic.id, nic.address, s', r')
    else s' == mid
  }

  /** A NIC of a new name is registered under its device number, as primary or not as it is, created now, with its
      address unless it is primary or its network failed. Without a device number above 0 nothing happens. */
  lemma NICRegistered(s: State, now: int, nic: HostNic, link: Option<int>, networkOK: bool, s': State)
    requires nic.id !in s.nics && NicSetUp(s, now, nic, link, networkOK, s')
    ensures nic.deviceNumber > 0 ==> nic.id in s'.nics && s'.nics[nic.id].deviceNumber == nic.deviceNumber
    ensures nic.deviceNumber <= 0 && link.Some? && link.value > 0 ==>
      nic.id in s'.nics && s'.nics[nic.id].deviceNumber == link.value
    ensures nic.deviceNumber <= 0 && (link.None? || link.value <= 0) ==> s' == s
    ensures nic.id in s'.nics ==>
      && s'.nics[nic.id].isPrimary == nic.isPrimary && s'.nics[nic.id].createTime == At(now)
      && s'.nics[nic.id].ipv4Addresses.Keys == if !nic.isPrimary && networkOK then {nic.address} else {}
    ensures s'.nics.Keys <= s.nics.Keys + {nic.id} && s'.pods == s.pods
    ensures forall n :: n in s.nics ==> n in s'.nics && s'.nics[n] == s.nics[n]
  {
    if nic.deviceNumber > 0 || link.Some? {
      var dev := if nic.deviceNumber <= 0 then link.value else nic.deviceNumber;
      var mid, r :| AddNIC(s, now, nic.id, dev, nic.isPrimary, mid, r) && AfterAdd(mid, r, nic, networkOK, s');
      if r == Done && !nic.isPrimary && networkOK {
        var r' :| AddAddress(mid, nic.id, nic.address, s', r');
      }
    }
  }

  /** A NIC that is known keeps what it is registered with, and gets its address if that is missing. */
  lemma NICKnown(s: State, now: int, nic: HostNic, link: Option<int>, networkOK: bool, s': State)
    requires nic.id in s.nics && NicSetUp(s, now, nic, link, networkOK, s')
    ensures s'.nics.Keys == s.nics.Keys && s'.pods == s.pods
    ensures forall n :: n in s.nics && n != nic.id ==> s'.nics[n] == s.nics[n]
    ensures var was, is_ := s.nics[nic.id], s'.nics[nic.id];
      && is_.deviceNumber == was.deviceNumber && is_.isPrimary == was.isPrimary && is_.createTime == was.createTime
      && is_.ipv4Addresses.Keys == was.ipv4Addresses.Keys +
           if (nic.deviceNumber > 0 || (link.Some? && link.value > 0)) && !nic.isPrimary && networkOK
           then {nic.address} else {}
  {
    if nic.deviceNumber > 0 || link.Some? {
      var dev := if nic.deviceNumber <= 0 then link.value else nic.deviceNumber;
      var mid, r :| AddNIC(s, now, nic.id, dev, nic.isPrimary, mid, r) && AfterAdd(mid, r, nic, networkOK, s');
      assert mid == s;
      if r == Failed(DuplicatedNIC) && !nic.isPrimary && networkOK {
        var r' :| AddAddress(s, nic.id, nic.address, s', r');
      }
    }
  }

  /** The pod that gets the address of a NIC set up before is told that NIC's own device number. */
  lemma PodIsToldDevice(s: State, now: int, nic: HostNic, link: Option<int>, networkOK: bool, s1: State, t: int,
                        key: PodKey, s2: State, dev: int)
    requires Counted(s) && Exclusive(s) && nic.id !in s.nics && Fair(s, OpAddAddress(nic.id, nic.address))
    requires NicSetUp(s, now, nic, link, networkOK, s1) && key !in s1.pods && !nic.isPrimary && networkOK
    requires nic.deviceNumber > 0 || (link.Some? && link.value > 0)
    requires Assign(s1, t, key, [], s2, Ok(nic.address, dev))
    ensures dev == if nic.deviceNumber > 0 then nic.deviceNumber else link.value
  {
    hide Counted, Exclusive, NicSetUp, Assign;
    NICRegistered(s, now, nic, link, networkOK, s1);
    SetupNicCounted(s, now, nic, link, networkOK, s1);
    SetupNicExclusive(s, now, nic, link, networkOK, s1);
    ExclusiveOneNIC(s1);
    var n := SearchPicks(s1, t, key, s2, Ok(nic.address, dev));
    OnlyNIC(s1, n, nic.id, nic.address);
  }

  lemma OnlyNIC(s: State, n: gostring, m: gostring, ip: gostring)
    requires OneNICEach(s) && Has(s, n, ip) && m in s.nics && ip in s.nics[m].ipv4Addresses.Keys
    ensures n == m && Device(s, n) == s.nics[m].deviceNumber
  {
    assert Has(s, m, ip);
  }

  /** What the cloud answers to a tick that wants a NIC. */
  datatype Cloud = Cloud(created: Option<HostNic>, link: Option<int>, networkOK: bool)

  function Free(s: State): int { s.total - s.assignedCount }

  /** One run of updateIPPoolIfRequired. */
  ghost predicate Tick(s: State, now: int, poolSize: int, maxPoolSize: int, cloud: Cloud, s': State) {
    if Free(s) < poolSize then
      if cloud.created.None? then s' == s else NicSetUp(s, now, cloud.created.value, cloud.link, cloud.networkOK, s')
    else if Free(s) > maxPoolSize then exists removed :: RemoveUnused(s, now, s', removed)
    else s' == s
  }

  /** One address for each non-primary NIC, none for a primary one. */
  ghost predicate OnePerNIC(s: State) {
    forall n :: n in s.nics ==> |s.nics[n].ipv4Addresses| == if s.nics[n].isPrimary then 0 else 1
  }

  /** The cloud makes a working, non-primary NIC under a new name. */
  predicate FreshNIC(s: State, cloud: Cloud) {
    && cloud.created.Some? && cloud.networkOK
    && var nic := cloud.created.value;
       nic.id !in s.nics && !nic.isPrimary && (nic.deviceNumber > 0 || (cloud.link.Some? && cloud.link.value > 0))
  }

  /** Every NIC is old enough and was released long enough ago. */
  ghost predicate Aged(s: State, now: int) {
    forall n :: n in s.nics ==>
      !LessThan(now, s.nics[n].createTime, MIN_LIFE_TIME) && !LessThan(now, s.nics[n].lastUnassignedTime, NIC_COOLING)
  }

  /** How far the free count is from the band. */
  function Distance(s: State, lo: int, hi: int): nat {
    if Free(s) < lo then lo - Free(s) else if Free(s) > hi then Free(s) - hi else 0
  }

  /** Some address is free if there are more addresses than addresses in use. */
  lemma FreeAddressExists(s: State) returns (n: gostring, ip: gostring)
    requires Counted(s) && Free(s) > 0
    ensures Has(s, n, ip) && !IsAssigned(s, n, ip)
  {
    var p := Difference(Pairs(AddressSets(s)), Pairs(UseSets(s)));
    n, ip := p.0, p.1;
    assert p == (n, ip);
  }

  lemma Difference<T>(all: set<T>, used: set<T>) returns (x: T)
    requires |all| > |used|
    ensures x in all && x !in used
  {
    assert used == (used - all) + (used * all);
    assert used * all == all - (all - used);
    x :| x in all - used;
  }

  /** A NIC with one address that is free has nothing in use. */
  lemma FreeNICDeletable(s: State, now: int, n: gostring, ip: gostring)
    requires Counted(s) && OnePerNIC(s) && Aged(s, now) && Has(s, n, ip) && !IsAssigned(s, n, ip)
    ensures Deletable(s, now, n)
  {
    var nic := s.nics[n];
    var keys := nic.ipv4Addresses.Keys;
    assert NICCounted(n, nic);
    assert |nic.ipv4Addresses| == |keys|;
    assert keys == {ip} + (keys - {ip});
    assert |keys - {ip}| == 0;
    assert keys == {ip};
    assert InUseOf(nic) == {};
  }

  lemma GrowTick(s: State, now: int, cloud: Cloud, s': State)
    requires Counted(s) && OnePerNIC(s) && FreshNIC(s, cloud)
    requires NicSetUp(s, now, cloud.created.value, cloud.link, cloud.networkOK, s')
    ensures OnePerNIC(s') && s'.total == s.total + 1 && s'.assignedCount == s.assignedCount
  {
    hide Counted, OnePerNIC;
    var nic := cloud.created.value;
    var dev := if nic.deviceNumber <= 0 then cloud.link.value else nic.deviceNumber;
    var mid, r :| AddNIC(s, now, nic.id, dev, nic.isPrimary, mid, r) && AfterAdd(mid, r, nic, cloud.networkOK, s');
    assert r == Done;
    var r' :| AddAddress(mid, nic.id, nic.address, s', r');
    NewPool(s, now, nic.id, dev, nic.address, mid, r, s', r');
    OneMorePool(s, s', nic.id);
  }

  /** A NIC added, then its address: one pool more, with that one address. */
  lemma NewPool(s: State, now: int, id: gostring, dev: int, address: gostring, mid: State, r: Reply, s': State,
                r': Reply)
    requires id !in s.nics && dev > 0 && AddNIC(s, now, id, dev, false, mid, r) && AddAddress(mid, id, address, s', r')
    ensures id in s'.nics && s'.nics == s.nics[id := s'.nics[id]]
    ensures !s'.nics[id].isPrimary && s'.nics[id].ipv4Addresses.Keys == {address}
    ensures s'.total == s.total + 1 && s'.assignedCount == s.assignedCount
  {}

  lemma OneMorePool(s: State, s': State, id: gostring)
    requires OnePerNIC(s) && id in s'.nics && s'.nics == s.nics[id := s'.nics[id]]
    requires !s'.nics[id].isPrimary && |s'.nics[id].ipv4Addresses.Keys| == 1
    ensures OnePerNIC(s')
  {
    assert |s'.nics[id].ipv4Addresses| == |s'.nics[id].ipv4Addresses.Keys|;
  }

  lemma ShrinkTick(s: State, now: int, s': State, removed: gostring)
    requires Counted(s) && OnePerNIC(s) && Aged(s, now) && Free(s) > 0 && RemoveUnused(s, now, s', removed)
    ensures OnePerNIC(s') && s'.total == s.total - 1 && s'.assignedCount == s.assignedCount
  {
    var n, ip := FreeAddressExists(s);
    FreeNICDeletable(s, now, n, ip);
    var m :| Deletable(s, now, m) && s' == DropNIC(s, m) && removed == s.nics[m].id;
  }

  lemma TickCounted(s: State, now: int, lo: int, hi: int, cloud: Cloud, s': State)
    requires Counted(s) && Tick(s, now, lo, hi, cloud, s')
    ensures Counted(s')
  {
    hide Counted;
    if Free(s) < lo {
      if cloud.created.Some? { SetupNicCounted(s, now, cloud.created.value, cloud.link, cloud.networkOK, s'); }
    } else if Free(s) > hi {
      var removed :| RemoveUnused(s, now, s', removed);
      StepCounted(s, now, OpRemoveUnused, s', Removed(removed));
    }
  }

  lemma SetupNicCounted(s: State, now: int, nic: HostNic, link: Option<int>, ok: bool, s': State)
    requires Counted(s) && NicSetUp(s, now, nic, link, ok, s')
    ensures Counted(s')
  {
    hide Counted, AddNIC, AddAddress;
    if nic.deviceNumber > 0 || link.Some? {
      var dev := if nic.deviceNumber <= 0 then link.value else nic.deviceNumber;
      var mid, r :| AddNIC(s, now, nic.id, dev, nic.isPrimary, mid, r) && AfterAdd(mid, r, nic, ok, s');
      AddNICCounted(s, now, nic.id, dev, nic.isPrimary, mid, r);
      if s' != mid {
        var r' :| AddAddress(mid, nic.id, nic.address, s', r');
        AddAddressCounted(mid, nic.id, nic.address, s', r');
      }
    }
  }

  /** The address of a created NIC is not empty and on no other NIC. */
  ghost predicate FairCloud(s: State, cloud: Cloud) {
    cloud.created.Some? ==> Fair(s, OpAddAddress(cloud.created.value.id, cloud.created.value.address))
  }

  /** Ticks keep exclusive assignment and take nothing from any pod, whatever the cloud and the links answer. */
  lemma TickExclusive(s: State, now: int, lo: int, hi: int, cloud: Cloud, s': State)
    requires Counted(s) && Exclusive(s) && FairCloud(s, cloud) && Tick(s, now, lo, hi, cloud, s')
    ensures Counted(s') && Exclusive(s') && s'.pods == s.pods
  {
    hide Counted, Exclusive, NicSetUp, RemoveUnused, Fair;
    TickCounted(s, now, lo, hi, cloud, s');
    if Free(s) < lo {
      if cloud.created.Some? { SetupNicExclusive(s, now, cloud.created.value, cloud.link, cloud.networkOK, s'); }
    } else if Free(s) > hi {
      var removed :| RemoveUnused(s, now, s', removed);
      FairRemoval(s);
      StepExclusive(s, now, OpRemoveUnused, s', Removed(removed));
      RemovalKeepsPods(s, now, s', removed);
    }
  }

  lemma FairRemoval(s: State)
    ensures Fair(s, OpRemoveUnused)
  {}

  lemma RemovalKeepsPods(s: State, now: int, s': State, removed: gostring)
    requires RemoveUnused(s, now, s', removed)
    ensures s'.pods == s.pods
  {}

  lemma SetupNicExclusive(s: State, now: int, nic: HostNic, link: Option<int>, ok: bool, s': State)
    requires Counted(s) && Exclusive(s) && Fair(s, OpAddAddress(nic.id, nic.address))
    requires NicSetUp(s, now, nic, link, ok, s')
    ensures Exclusive(s') && s'.pods == s.pods
  {
    hide Counted, Exclusive;
    if nic.deviceNumber > 0 || link.Some? {
      var dev := if nic.deviceNumber <= 0 then link.value else nic.deviceNumber;
      var mid, r :| AddNIC(s, now, nic.id, dev, nic.isPrimary, mid, r) && AfterAdd(mid, r, nic, ok, s');
      AddNICCounted(s, now, nic.id, dev, nic.isPrimary, mid, r);
      StepExclusive(s, now, OpAddNIC(nic.id, dev, nic.isPrimary), mid, r);
      if s' != mid {
        var r' :| AddAddress(mid, nic.id, nic.address, s', r');
        assert forall m :: Has(mid, m, nic.address) ==> Has(s, m, nic.address);
        StepExclusive(mid, now, OpAddAddress(nic.id, nic.address), s', r');
      }
    }
  }

  /** A tick when the cloud works and, if there are too many, NICs have aged: outside the band the free count moves by
      exactly one towards it; inside, nothing changes. */
  lemma TickMoves(s: State, now: int, lo: int, hi: int, cloud: Cloud, s': State)
    requires Counted(s) && OnePerNIC(s) && lo <= hi && 0 <= hi
    requires (Free(s) < lo ==> FreshNIC(s, cloud)) && (Free(s) > hi ==> Aged(s, now))
    requires Tick(s, now, lo, hi, cloud, s')
    ensures Counted(s') && OnePerNIC(s')
    ensures Free(s') == Free(s) + (if Free(s) < lo then 1 else if Free(s) > hi then -1 else 0)
    ensures var was, is_ := s.total - s.assignedCount, s'.total - s'.assignedCount;
      is_ == if was < lo then was + 1 else if was > hi then was - 1 else was
    ensures lo <= Free(s) <= hi ==> s' == s
    ensures Distance(s', lo, hi) == if Distance(s, lo, hi) == 0 then 0 else Distance(s, lo, hi) - 1
  {
    hide Counted, OnePerNIC, Aged, NicSetUp, RemoveUnused;
    TickCounted(s, now, lo, hi, cloud, s');
    if Free(s) < lo {
      GrowTick(s, now, cloud, s');
    } else if Free(s) > hi {
      var removed :| RemoveUnused(s, now, s', removed);
      ShrinkTick(s, now, s', removed);
    }
  }

  /** Ticks in a row without requests in between, the cloud working when a NIC is wanted, NICs aged when one must go. */
  ghost predicate QuietRun(states: seq<State>, nows: seq<int>, clouds: seq<Cloud>, lo: int, hi: int) {
    && |states| == |nows| + 1 && |clouds| == |nows|
    && forall i :: 0 <= i < |nows| ==>
         && Tick(states[i], nows[i], lo, hi, clouds[i], states[i + 1])
         && (Free(states[i]) < lo ==> FreshNIC(states[i], clouds[i]))
         && (Free(states[i]) > hi ==> Aged(states[i], nows[i]))
  }

  /** The pool settles: after k ticks the distance has shrunk by k, and once the band is reached the state stays. */
  lemma {:induction false} PoolSettles(states: seq<State>, nows: seq<int>, clouds: seq<Cloud>, lo: int, hi: int, k: nat)
    requires QuietRun(states, nows, clouds, lo, hi) && lo <= hi && 0 <= hi && k <= |nows|
    requires Counted(states[0]) && OnePerNIC(states[0])
    ensures Counted(states[k]) && OnePerNIC(states[k])
    ensures Distance(states[k], lo, hi)
         == if k < Distance(states[0], lo, hi) then Distance(states[0], lo, hi) - k else 0
    ensures k > Distance(states[0], lo, hi) ==> states[k] == states[k - 1]
  {
    hide Counted, OnePerNIC, Tick, FreshNIC, Aged;
    if k > 0 {
      PoolSettles(states, nows, clouds, lo, hi, k - 1);
      TickMoves(states[k - 1], nows[k - 1], lo, hi, clouds[k - 1], states[k]);
    }
  }
}
