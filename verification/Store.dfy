/**
 The IP address store as values: its state, and what each locked operation may do to it. Map iteration is an arbitrary
 choice, so an operation is a relation between the state before, the state after and the reply.
 */
module Store {
  import opened Common

  /** A moment, in nanoseconds; Go's zero time is `Never`. */
  datatype Stamp = Never | At(t: int)

  const SECOND: int := 1_000_000_000
  const MIN_LIFE_TIME: int := 60 * SECOND
  const NIC_COOLING: int := 60 * SECOND
  const ADDRESS_COOLING: int := 30 * SECOND

  /** `now.Sub(stamp) > d` and `now.Sub(stamp) < d`; the zero time is further back than any duration. */
  predicate MoreThan(now: int, stamp: Stamp, d: int) { stamp.Never? || now - stamp.t > d }
  predicate LessThan(now: int, stamp: Stamp, d: int) { stamp.At? && now - stamp.t < d }

  datatype AddressInfo = AddressInfo(address: gostring, isAssigned: bool, unassignedTime: Stamp)

  datatype NICIPPool = NICIPPool(
    createTime: Stamp, lastUnassignedTime: Stamp, isPrimary: bool, id: gostring, deviceNumber: int,
    assignedIPv4Addresses: int, ipv4Addresses: map<gostring, AddressInfo>)

  datatype PodKey = PodKey(name: gostring, namespace: gostring, container: gostring)
  datatype PodIPInfo = PodIPInfo(ip: gostring, deviceNumber: int)

  datatype State = State(total: int, assignedCount: int, nics: map<gostring, NICIPPool>, pods: map<PodKey, PodIPInfo>)

  datatype Error =
    | DeviceNumberUnknown | DuplicatedNIC | DuplicateIP | UnknownNIC | UnknownIP | IPInUse | NICInUse
    | UnknownPod | UnknownPodIP | MultipleIPs | NoAvailableIP

  datatype Reply = Ok(ip: gostring, deviceNumber: int) | Done | Removed(nic: gostring) | Failed(error: Error)

  const EMPTY := State(0, 0, map[], map[])

  // ---------- what the operations do ----------

  predicate Has(s: State, n: gostring, ip: gostring) { n in s.nics && ip in s.nics[n].ipv4Addresses }

  /** The device number of a NIC. */
  function Device(s: State, n: gostring): int { if n in s.nics then s.nics[n].deviceNumber else 0 }

  predicate IsAssigned(s: State, n: gostring, ip: gostring) { Has(s, n, ip) && s.nics[n].ipv4Addresses[ip].isAssigned }

  /** Mark an address of a NIC as used; mark it as free again, at time now. */
  function TakeIn(nic: NICIPPool, ip: gostring): NICIPPool
    requires ip in nic.ipv4Addresses
  {
    nic.(assignedIPv4Addresses := nic.assignedIPv4Addresses + 1,
         ipv4Addresses := nic.ipv4Addresses[ip := nic.ipv4Addresses[ip].(isAssigned := true)])
  }

  function GiveBackIn(nic: NICIPPool, ip: gostring, now: int): NICIPPool
    requires ip in nic.ipv4Addresses
  {
    nic.(assignedIPv4Addresses := nic.assignedIPv4Addresses - 1, lastUnassignedTime := At(now),
         ipv4Addresses :=
           nic.ipv4Addresses[ip := nic.ipv4Addresses[ip].(isAssigned := false, unassignedTime := At(now))])
  }

  function Take(s: State, n: gostring, ip: gostring): State
    requires Has(s, n, ip)
  {
    s.(assignedCount := s.assignedCount + 1, nics := s.nics[n := TakeIn(s.nics[n], ip)])
  }

  function GiveBack(s: State, n: gostring, ip: gostring, now: int): State
    requires Has(s, n, ip)
  {
    s.(assignedCount := s.assignedCount - 1, nics := s.nics[n := GiveBackIn(s.nics[n], ip, now)])
  }

  /** The address search skips a NIC whose counter says that all its addresses are used. */
  predicate Skipped(s: State, want: gostring, n: gostring)
    requires n in s.nics
  {
    want == [] && |s.nics[n].ipv4Addresses| == s.nics[n].assignedIPv4Addresses
  }

  /** The search may settle on this address: it is the one asked for, or none was asked for and it is free, cooled. */
  predicate Candidate(s: State, now: int, want: gostring, n: gostring, ip: gostring) {
    && Has(s, n, ip) && !Skipped(s, want, n)
    && var addr := s.nics[n].ipv4Addresses[ip];
       || want == addr.address
       || (!addr.isAssigned && want == [] && MoreThan(now, addr.unassignedTime, ADDRESS_COOLING))
  }

  /** The pod gets this address. */
  function HandOut(s: State, key: PodKey, n: gostring, ip: gostring): State
    requires Has(s, n, ip)
  {
    var taken := if s.nics[n].ipv4Addresses[ip].isAssigned then s else Take(s, n, ip);
    taken.(pods := s.pods[key := PodIPInfo(s.nics[n].ipv4Addresses[ip].address, s.nics[n].deviceNumber)])
  }

  ghost predicate AssignUnsafe(s: State, now: int, key: PodKey, want: gostring, s': State, r: Reply) {
    if exists n, ip :: Candidate(s, now, want, n, ip) then
      exists n, ip :: Candidate(s, now, want, n, ip) && s' == HandOut(s, key, n, ip)
                      && r == Ok(s.nics[n].ipv4Addresses[ip].address, s.nics[n].deviceNumber)
    else s' == s && r == Failed(NoAvailableIP)
  }

  ghost predicate Assign(s: State, now: int, key: PodKey, want: gostring, s': State, r: Reply) {
    if key in s.pods then
      s' == s && r == (if s.pods[key].ip == want && want != [] then Ok(s.pods[key].ip, s.pods[key].deviceNumber)
                       else Failed(MultipleIPs))
    else AssignUnsafe(s, now, key, want, s', r)
  }

  ghost predicate Unassign(s: State, now: int, key: PodKey, s': State, r: Reply) {
    if key !in s.pods then s' == s && r == Failed(UnknownPod)
    else
      var ip := s.pods[key].ip;
      if exists n :: IsAssigned(s, n, ip) then
        exists n :: IsAssigned(s, n, ip) && s' == GiveBack(s, n, ip, now).(pods := s.pods - {key})
                    && r == Ok(s.nics[n].ipv4Addresses[ip].address, s.nics[n].deviceNumber)
      else s' == s && r == Failed(UnknownPodIP)
  }

  ghost predicate AddNIC(s: State, now: int, id: gostring, deviceNumber: int, isPrimary: bool, s': State, r: Reply) {
    if deviceNumber <= 0 then s' == s && r == Failed(DeviceNumberUnknown)
    else if id in s.nics then s' == s && r == Failed(DuplicatedNIC)
    else s' == s.(nics := s.nics[id := NICIPPool(At(now), Never, isPrimary, id, deviceNumber, 0, map[])]) && r == Done
  }

  ghost predicate AddAddress(s: State, n: gostring, ip: gostring, s': State, r: Reply) {
    if n !in s.nics then s' == s && r == Failed(UnknownNIC)
    else if ip in s.nics[n].ipv4Addresses then s' == s && r == Failed(DuplicateIP)
    else
      var nic := s.nics[n];
      && s' == s.(total := s.total + 1,
                  nics := s.nics[n := nic.(ipv4Addresses := nic.ipv4Addresses[ip := AddressInfo(ip, false, Never)])])
      && r == Done
  }

  ghost predicate DelAddress(s: State, n: gostring, ip: gostring, s': State, r: Reply) {
    if n !in s.nics then s' == s && r == Failed(UnknownNIC)
    else if ip !in s.nics[n].ipv4Addresses then s' == s && r == Failed(UnknownIP)
    else if s.nics[n].ipv4Addresses[ip].isAssigned then s' == s && r == Failed(IPInUse)
    else
      var nic := s.nics[n];
      && s' == s.(total := s.total - 1, nics := s.nics[n := nic.(ipv4Addresses := nic.ipv4Addresses - {ip})])
      && r == Done
  }

  predicate Deletable(s: State, now: int, n: gostring) {
    && n in s.nics && !s.nics[n].isPrimary
    && !LessThan(now, s.nics[n].createTime, MIN_LIFE_TIME) && !LessThan(now, s.nics[n].lastUnassignedTime, NIC_COOLING)
    && s.nics[n].assignedIPv4Addresses == 0
  }

  function DropNIC(s: State, n: gostring): State
    requires n in s.nics
  {
    s.(total := s.total - |s.nics[n].ipv4Addresses|, nics := s.nics - {n})
  }

  /** The name of the NIC removed, or the empty string. */
  ghost predicate RemoveUnused(s: State, now: int, s': State, removed: gostring) {
    if exists n :: Deletable(s, now, n) then
      exists n :: Deletable(s, now, n) && s' == DropNIC(s, n) && removed == s.nics[n].id
    else s' == s && removed == []
  }

  ghost predicate RemoveNIC(s: State, n: gostring, s': State, r: Reply) {
    if n !in s.nics then s' == s && r == Failed(UnknownNIC)
    else if s.nics[n].assignedIPv4Addresses != 0 then s' == s && r == Failed(NICInUse)
    else s' == DropNIC(s, n) && r == Done
  }

  // ---------- one operation ----------

  datatype Op =
    | OpAddNIC(id: gostring, deviceNumber: int, isPrimary: bool)
    | OpAddAddress(nic: gostring, ip: gostring)
    | OpDelAddress(nic: gostring, ip: gostring)
    | OpAssign(key: PodKey, want: gostring)
    | OpUnassign(key: PodKey)
    | OpRemoveUnused
    | OpRemoveNIC(nic: gostring)

  ghost predicate Step(s: State, now: int, op: Op, s': State, r: Reply) {
    match op
    case OpAddNIC(id, dev, primary) => AddNIC(s, now, id, dev, primary, s', r)
    case OpAddAddress(n, ip) => AddAddress(s, n, ip, s', r)
    case OpDelAddress(n, ip) => DelAddress(s, n, ip, s', r)
    case OpAssign(key, want) => Assign(s, now, key, want, s', r)
    case OpUnassign(key) => Unassign(s, now, key, s', r)
    case OpRemoveUnused => r.Removed? && RemoveUnused(s, now, s', r.nic)
    case OpRemoveNIC(n) => RemoveNIC(s, n, s', r)
  }
}
