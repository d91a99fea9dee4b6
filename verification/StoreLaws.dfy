/**
 What single operations and their inverses do, and how long NICs and addresses are kept: with the source's own numbers,
 60 and 30 seconds in nanoseconds.
 */
module StoreLaws {
  import opened Common
  import opened Store
  import opened StoreInvariants
  import opened StoreRuns

  // ---------- NICs ----------

  /** A NIC is added unless its device number is not above 0 or its name is known; it starts now, never used, without
      addresses, and nothing else changes. */
  lemma NICAdded(s: State, now: int, id: gostring, dev: int, primary: bool, s': State, r: Reply)
    requires AddNIC(s, now, id, dev, primary, s', r)
    ensures r == if dev <= 0 then Failed(DeviceNumberUnknown) else if id in s.nics then Failed(DuplicatedNIC) else Done
    ensures r != Done ==> s' == s
    ensures r == Done ==>
      && s'.nics.Keys == s.nics.Keys + {id} && (forall n :: n in s.nics ==> s'.nics[n] == s.nics[n])
      && s'.pods == s.pods && s'.total == s.total && s'.assignedCount == s.assignedCount
      && var nic := s'.nics[id];
         && nic.id == id && nic.deviceNumber == dev && nic.isPrimary == primary && nic.createTime == At(now)
         && nic.lastUnassignedTime == Never && nic.assignedIPv4Addresses == 0 && nic.ipv4Addresses == map[]
  {}

  /** Removing an added NIC brings the store back. */
  lemma NICAddedRemoved(s: State, now: int, id: gostring, dev: int, primary: bool, s1: State, s2: State, r: Reply)
    requires AddNIC(s, now, id, dev, primary, s1, Done) && RemoveNIC(s1, id, s2, r)
    ensures r == Done && s2 == s
  {
    assert s1.nics - {id} == s.nics;
  }

  /** NIC n is not primary, was created 60 seconds ago or earlier, was last released 60 seconds ago or earlier if ever,
      and has nothing in use. */
  predicate Unused(s: State, now: int, n: gostring) {
    && n in s.nics
    && var nic := s.nics[n];
       && !nic.isPrimary && nic.assignedIPv4Addresses == 0
       && (nic.createTime == Never || now - nic.createTime.t >= 60_000_000_000)
       && (nic.lastUnassignedTime == Never || now - nic.lastUnassignedTime.t >= 60_000_000_000)
  }

  lemma UnusedIsDeletable(s: State, now: int)
    ensures forall n :: Unused(s, now, n) <==> Deletable(s, now, n)
  {}

  /** A pool tick removes one unused NIC and nothing else; it removes none exactly if there is none. */
  lemma RemovalExactly(s: State, now: int, s': State, removed: gostring)
    requires Counted(s) && RemoveUnused(s, now, s', removed)
    ensures if exists n :: Unused(s, now, n)
            then Unused(s, now, removed) && s'.nics == s.nics - {removed} && s'.pods == s.pods
            else s' == s && removed == []
  {
    UnusedIsDeletable(s, now);
    hide Unused;
    if n :| Deletable(s, now, n) && s' == DropNIC(s, n) && removed == s.nics[n].id {
      assert NICCounted(n, s.nics[n]);
    }
  }

  // ---------- addresses ----------

  /** An address is added to a known NIC that lacks it; a second time it is refused. */
  lemma AddressAddedTwice(s: State, n: gostring, ip: gostring, s1: State, r1: Reply, s2: State, r2: Reply)
    requires AddAddress(s, n, ip, s1, r1) && AddAddress(s1, n, ip, s2, r2)
    ensures r1 == if n !in s.nics then Failed(UnknownNIC) else if Has(s, n, ip) then Failed(DuplicateIP) else Done
    ensures r2 == (if n !in s.nics then Failed(UnknownNIC) else Failed(DuplicateIP)) && s2 == s1
    ensures r1 == Done ==> !IsAssigned(s1, n, ip) && s1.total == s.total + 1 && s1.pods == s.pods
    ensures r1 == Done ==> s1.nics[n].ipv4Addresses[ip] == AddressInfo(ip, false, Never)
  {}

  /** Deleting an added address brings the store back. */
  lemma AddressAddedDeleted(s: State, n: gostring, ip: gostring, s1: State, s2: State, r: Reply)
    requires AddAddress(s, n, ip, s1, Done) && DelAddress(s1, n, ip, s2, r)
    ensures r == Done && s2 == s
  {
    assert s1.nics[n].ipv4Addresses - {ip} == s.nics[n].ipv4Addresses;
  }

  /** An address in use cannot be deleted, nor its NIC removed, by either way. */
  lemma InUseStays(s: State, now: int, n: gostring, ip: gostring, s1: State, r1: Reply, s2: State, r2: Reply, s3: State,
                   removed: gostring)
    requires Counted(s) && IsAssigned(s, n, ip)
    requires DelAddress(s, n, ip, s1, r1) && RemoveNIC(s, n, s2, r2) && RemoveUnused(s, now, s3, removed)
    ensures s1 == s && r1 == Failed(IPInUse) && s2 == s && r2 == Failed(NICInUse) && Has(s3, n, ip)
  {
    if s.nics[n].assignedIPv4Addresses == 0 { NothingInUse(s, n); }
    if m :| Deletable(s, now, m) && s3 == DropNIC(s, m) { assert m != n; }
  }

  /** What is unknown is reported, and nothing changes. */
  lemma UnknownReported(s: State, now: int, n: gostring, ip: gostring, key: PodKey, s1: State, r1: Reply, s2: State,
                        r2: Reply, s3: State, r3: Reply)
    requires !Has(s, n, ip) && key !in s.pods
    requires DelAddress(s, n, ip, s1, r1) && RemoveNIC(s, n, s2, r2) && Unassign(s, now, key, s3, r3)
    ensures s1 == s && r1 == (if n in s.nics then Failed(UnknownIP) else Failed(UnknownNIC))
    ensures n !in s.nics ==> s2 == s && r2 == Failed(UnknownNIC)
    ensures s3 == s && r3 == Failed(UnknownPod)
  {}

  /** A pod that has an address gets it again if it asks for it by name, else an error; either way nothing changes. */
  lemma AssignedAgain(s: State, now: int, key: PodKey, want: gostring, s': State, r: Reply)
    requires key in s.pods && Assign(s, now, key, want, s', r)
    ensures s' == s
    ensures var pod := s.pods[key];
      r == if want != [] && want == pod.ip then Ok(want, pod.deviceNumber) else Failed(MultipleIPs)
  {}

  // ---------- how long a NIC is kept ----------

  /** If NIC n is there, it was created at time t or later. */
  predicate CreatedSince(s: State, n: gostring, t: int) {
    n in s.nics ==> s.nics[n].createTime.At? && s.nics[n].createTime.t >= t
  }

  lemma StepCreated(s: State, e: Event, s': State, n: gostring, t: int)
    requires Step(s, e.now, e.op, s', e.reply) && CreatedSince(s, n, t) && t <= e.now
    ensures CreatedSince(s', n, t)
  {
    match e.op
    case OpRemoveUnused =>
      if m :| Deletable(s, e.now, m) && s' == DropNIC(s, m) {}
    case OpAssign(key, want) =>
      if m, ip :| Candidate(s, e.now, want, m, ip) && s' == HandOut(s, key, m, ip) {}
    case OpUnassign(key) =>
      if key in s.pods {
        var ip := s.pods[key].ip;
        if m :| IsAssigned(s, m, ip) && s' == GiveBack(s, m, ip, e.now).(pods := s.pods - {key}) {}
      }
    case _ =>
  }

  /** The event adds NIC n; the event, as a pool tick, takes it away. */
  predicate Adds(e: Event, n: gostring) { e.op.OpAddNIC? && e.op.id == n && e.reply == Done }
  predicate Removes(e: Event, n: gostring) { e.op.OpRemoveUnused? && e.reply == Removed(n) && n != [] }

  lemma {:induction false} StillCreated(states: seq<State>, events: seq<Event>, i: nat, j: nat, n: gostring)
    requires IsRun(states, events) && i < j <= |events| && Adds(events[i], n)
    ensures CreatedSince(states[j], n, events[i].now)
    decreases j
  {
    hide Step, Fair;
    assert Step(states[j - 1], events[j - 1].now, events[j - 1].op, states[j], events[j - 1].reply);
    if j == i + 1 {
      AddedNow(states[i], events[i], states[j], n);
    } else {
      StillCreated(states, events, i, j - 1, n);
      StepCreated(states[j - 1], events[j - 1], states[j], n, events[i].now);
    }
  }

  lemma AddedNow(s: State, e: Event, s': State, n: gostring)
    requires Step(s, e.now, e.op, s', e.reply) && Adds(e, n)
    ensures CreatedSince(s', n, e.now)
  {}

  /** A NIC is kept for a minute: in any run, if a NIC is added at one moment and a pool tick removes it later, at
      least 60 seconds have passed. */
  lemma YoungNICStays(states: seq<State>, events: seq<Event>, i: nat, j: nat, n: gostring)
    requires IsRun(states, events) && Counted(states[0]) && Exclusive(states[0])
    requires i < j < |events| && Adds(events[i], n) && Removes(events[j], n)
    ensures events[j].now - events[i].now >= 60_000_000_000
  {
    hide Counted, Exclusive, Step, Fair;
    StillCreated(states, events, i, j, n);
    RunKeeps(states, events, j);
    assert Step(states[j], events[j].now, events[j].op, states[j + 1], events[j].reply);
    OldEnough(states[j], events[j], states[j + 1], n, events[i].now);
  }

  lemma OldEnough(s: State, e: Event, s': State, n: gostring, t: int)
    requires Counted(s) && Step(s, e.now, e.op, s', e.reply) && Removes(e, n) && CreatedSince(s, n, t)
    ensures e.now - t >= 60_000_000_000
  {
    hide Counted;
    RemovalExactly(s, e.now, s', n);
  }

  // ---------- how long an address is kept back ----------

  /** Cooling in seconds: an address released is handed out again only after more than 30 of them. */
  lemma ThirtySeconds(states: seq<State>, events: seq<Event>, i: nat, j: nat, ip: gostring)
    requires IsRun(states, events) && Counted(states[0]) && Exclusive(states[0])
    requires forall k :: 0 <= k < |events| ==> Serving(events[k].op)
    requires i < j < |events| && events[i].op.OpUnassign? && events[i].reply.Ok? && events[i].reply.ip == ip
    requires events[j].op.OpAssign? && events[j].reply.Ok? && events[j].reply.ip == ip
    ensures events[j].now - events[i].now > 30_000_000_000
  {
    hide IsRun, Counted, Exclusive, Serving;
    CoolingSurvives(states, events, i, j, ip);
  }

  /** A new pod gets an address exactly if one is free and was never released, or more than 30 seconds ago. */
  lemma CooledExactly(s: State, now: int, key: PodKey, s': State, r: Reply)
    requires Counted(s) && Exclusive(s) && key !in s.pods && Assign(s, now, key, [], s', r)
    ensures r.Ok? <==>
      exists n, ip ::
        Has(s, n, ip) && !s.nics[n].ipv4Addresses[ip].isAssigned &&
        (s.nics[n].ipv4Addresses[ip].unassignedTime == Never ||
         now - s.nics[n].ipv4Addresses[ip].unassignedTime.t > 30_000_000_000)
  {
    hide Counted, Exclusive, Assign;
    SearchComplete(s, now, key, s', r);
    forall n, ip | Has(s, n, ip)
      ensures MoreThan(now, s.nics[n].ipv4Addresses[ip].unassignedTime, ADDRESS_COOLING) <==>
        (s.nics[n].ipv4Addresses[ip].unassignedTime == Never
         || now - s.nics[n].ipv4Addresses[ip].unassignedTime.t > 30_000_000_000)
    {}
  }

  /** A release stamps the address and its NIC with the moment, and frees the address. */
  lemma ReleaseStamps(s: State, now: int, key: PodKey, s': State, r: Reply)
    requires Counted(s) && Exclusive(s) && key in s.pods && Unassign(s, now, key, s', r)
    ensures exists n ::
      Has(s', n, s.pods[key].ip) && s'.nics[n].lastUnassignedTime == At(now) &&
      s'.nics[n].ipv4Addresses[s.pods[key].ip] == AddressInfo(s.pods[key].ip, false, At(now))
  {
    var ip := s.pods[key].ip;
    var m :| Holds(s, key, m);
    assert IsAssigned(s, m, ip);
    var n :| IsAssigned(s, n, ip) && s' == GiveBack(s, n, ip, now).(pods := s.pods - {key});
    assert NICCounted(n, s.nics[n]);
    assert Has(s', n, ip);
  }

  // ---------- exclusive assignment, spelled out ----------

  /** In every state of every fair run from the empty store: two pods never have the same address, each pod's address is
      marked as used on a NIC with the device number the pod was told, and every used address belongs to a pod. */
  lemma NeverShared(states: seq<State>, events: seq<Event>, k: nat)
    requires IsRun(states, events) && states[0] == EMPTY && k <= |events|
    ensures var s := states[k];
      && (forall a, b :: a in s.pods && b in s.pods && a != b ==> s.pods[a].ip != s.pods[b].ip)
      && (forall a :: a in s.pods ==>
            exists n ::
              n in s.nics && s.pods[a].ip in s.nics[n].ipv4Addresses &&
              s.nics[n].ipv4Addresses[s.pods[a].ip].isAssigned && s.nics[n].deviceNumber == s.pods[a].deviceNumber > 0)
      && (forall n, ip :: n in s.nics && ip in s.nics[n].ipv4Addresses && s.nics[n].ipv4Addresses[ip].isAssigned ==>
            exists a :: a in s.pods && s.pods[a].ip == ip)
  {
    hide Counted, Step, Fair, OneNICEach;
    ExclusiveForever(states, events, k);
    var s := states[k];
    forall a | a in s.pods
      ensures exists n ::
        n in s.nics && s.pods[a].ip in s.nics[n].ipv4Addresses &&
        s.nics[n].ipv4Addresses[s.pods[a].ip].isAssigned && s.nics[n].deviceNumber == s.pods[a].deviceNumber > 0
    {
      var n :| Holds(s, a, n);
    }
    forall n, ip | n in s.nics && ip in s.nics[n].ipv4Addresses && s.nics[n].ipv4Addresses[ip].isAssigned
      ensures exists a :: a in s.pods && s.pods[a].ip == ip
    {
      assert IsAssigned(s, n, ip) && HasOwner(s, ip);
    }
  }
}
