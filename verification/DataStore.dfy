/** The store as the source has it: an object whose locked methods update counters and maps in place. */
module DataStores {
  import opened Common
  import opened Store

  class DataStore {
    var total: int
    var assignedCount: int
    var nicIPPools: map<gostring, NICIPPool>
    var podsIP: map<PodKey, PodIPInfo>

    constructor ()
      ensures Now() == EMPTY
    {
      total, assignedCount, nicIPPools, podsIP := 0, 0, map[], map[];
    }

    /** The current state. */
    ghost function Now(): State
      reads this
    {
      State(total, assignedCount, nicIPPools, podsIP)
    }

    method AddNIC(nicID: gostring, deviceNumber: int, isPrimary: bool, now: int) returns (r: Reply)
      modifies this
      ensures Store.AddNIC(old(Now()), now, nicID, deviceNumber, isPrimary, Now(), r)
    {
      if deviceNumber <= 0 { return Failed(DeviceNumberUnknown); }
      if nicID in nicIPPools { return Failed(DuplicatedNIC); }
      nicIPPools := nicIPPools[nicID := NICIPPool(At(now), Never, isPrimary, nicID, deviceNumber, 0, map[])];
      return Done;
    }

    method AddIPv4AddressFromStore(nicID: gostring, ipv4: gostring) returns (r: Reply)
      modifies this
      ensures AddAddress(old(Now()), nicID, ipv4, Now(), r)
    {
      if nicID !in nicIPPools { return Failed(UnknownNIC); }
      var curNIC := nicIPPools[nicID];
      if ipv4 in curNIC.ipv4Addresses { return Failed(DuplicateIP); }
      total := total + 1;
      var addresses := curNIC.ipv4Addresses[ipv4 := AddressInfo(ipv4, false, Never)];
      nicIPPools := nicIPPools[nicID := curNIC.(ipv4Addresses := addresses)];
      return Done;
    }

    method DelIPv4AddressFromStore(nicID: gostring, ipv4: gostring) returns (r: Reply)
      modifies this
      ensures DelAddress(old(Now()), nicID, ipv4, Now(), r)
    {
      if nicID !in nicIPPools { return Failed(UnknownNIC); }
      var curNIC := nicIPPools[nicID];
      if ipv4 !in curNIC.ipv4Addresses { return Failed(UnknownIP); }
      if curNIC.ipv4Addresses[ipv4].isAssigned { return Failed(IPInUse); }
      total := total - 1;
      nicIPPools := nicIPPools[nicID := curNIC.(ipv4Addresses := curNIC.ipv4Addresses - {ipv4})];
      return Done;
    }

    method AssignPodIPv4Address(key: PodKey, want: gostring, now: int) returns (r: Reply)
      modifies this
      ensures Assign(old(Now()), now, key, want, Now(), r)
    {
      if key in podsIP {
        var ipAddr := podsIP[key];
        if ipAddr.ip == want && want != [] {
          return Ok(ipAddr.ip, ipAddr.deviceNumber);
        }
        return Failed(MultipleIPs);
      }
      r := AssignPodIPv4AddressUnsafe(key, want, now);
    }

    method AssignPodIPv4AddressUnsafe(key: PodKey, want: gostring, now: int) returns (r: Reply)
      modifies this
      ensures AssignUnsafe(old(Now()), now, key, want, Now(), r)
    {
      var todo := nicIPPools.Keys;
      while todo != {}
        invariant todo <= nicIPPools.Keys && Now() == old(Now())
        invariant forall n, ip :: Candidate(Now(), now, want, n, ip) ==> n in todo
      {
        var id :| id in todo;
        todo := todo - {id};
        var nic := nicIPPools[id];
        if want == [] && |nic.ipv4Addresses| == nic.assignedIPv4Addresses {
          continue;
        }
        var ips := nic.ipv4Addresses.Keys;
        while ips != {}
          invariant ips <= nic.ipv4Addresses.Keys && Now() == old(Now())
          invariant forall n, ip :: Candidate(Now(), now, want, n, ip) ==> n in todo || (n == id && ip in ips)
        {
          var i :| i in ips;
          ips := ips - {i};
          var addr := nic.ipv4Addresses[i];
          if want == addr.address {
            if !addr.isAssigned {
              IncrementAssignedCount(id, i);
            }
            podsIP := podsIP[key := PodIPInfo(addr.address, nic.deviceNumber)];
            assert Candidate(old(Now()), now, want, id, i);
            return Ok(addr.address, nic.deviceNumber);
          }
          if !addr.isAssigned && want == [] && MoreThan(now, addr.unassignedTime, ADDRESS_COOLING) {
            IncrementAssignedCount(id, i);
            podsIP := podsIP[key := PodIPInfo(addr.address, nic.deviceNumber)];
            assert Candidate(old(Now()), now, want, id, i);
            return Ok(addr.address, nic.deviceNumber);
          }
        }
      }
      return Failed(NoAvailableIP);
    }

    method IncrementAssignedCount(nicID: gostring, ip: gostring)
      requires Has(Now(), nicID, ip)
      modifies this
      ensures Now() == Take(old(Now()), nicID, ip)
    {
      var nic := nicIPPools[nicID];
      assignedCount := assignedCount + 1;
      nic := nic.(assignedIPv4Addresses := nic.assignedIPv4Addresses + 1);
      nic := nic.(ipv4Addresses := nic.ipv4Addresses[ip := nic.ipv4Addresses[ip].(isAssigned := true)]);
      nicIPPools := nicIPPools[nicID := nic];
    }

    method GetStats() returns (t: int, a: int)
      ensures t == Now().total && a == Now().assignedCount
    {
      return total, assignedCount;
    }

    method GetDeletableNIC(now: int) returns (nic: Option<gostring>)
      ensures nic.Some? ==> Deletable(Now(), now, nic.value)
      ensures nic.None? ==> forall n :: !Deletable(Now(), now, n)
    {
      var todo := nicIPPools.Keys;
      while todo != {}
        invariant todo <= nicIPPools.Keys
        invariant forall n :: Deletable(Now(), now, n) ==> n in todo
      {
        var id :| id in todo;
        todo := todo - {id};
        var nic := nicIPPools[id];
        if nic.isPrimary { continue; }
        if LessThan(now, nic.createTime, MIN_LIFE_TIME) { continue; }
        if LessThan(now, nic.lastUnassignedTime, NIC_COOLING) { continue; }
        if nic.assignedIPv4Addresses != 0 { continue; }
        return Some(id);
      }
      return None;
    }

    method RemoveUnusedNICFromStore(now: int) returns (removed: gostring)
      requires forall n :: n in nicIPPools ==> nicIPPools[n].id == n
      modifies this
      ensures RemoveUnused(old(Now()), now, Now(), removed)
    {
      var deletable := GetDeletableNIC(now);
      if deletable.None? { return []; }
      removed := nicIPPools[deletable.value].id;
      total := total - |nicIPPools[removed].ipv4Addresses|;
      nicIPPools := nicIPPools - {removed};
    }

    method RemoveNICFromDataStore(nic: gostring) returns (r: Reply)
      modifies this
      ensures RemoveNIC(old(Now()), nic, Now(), r)
    {
      if nic !in nicIPPools { return Failed(UnknownNIC); }
      if nicIPPools[nic].assignedIPv4Addresses != 0 { return Failed(NICInUse); }
      total := total - |nicIPPools[nic].ipv4Addresses|;
      nicIPPools := nicIPPools - {nic};
      return Done;
    }

    method UnassignPodIPv4Address(key: PodKey, now: int) returns (r: Reply)
      modifies this
      ensures Unassign(old(Now()), now, key, Now(), r)
    {
      if key !in podsIP { return Failed(UnknownPod); }
      var ipAddr := podsIP[key];
      var todo := nicIPPools.Keys;
      while todo != {}
        invariant todo <= nicIPPools.Keys && Now() == old(Now())
        invariant forall n :: IsAssigned(Now(), n, ipAddr.ip) ==> n in todo
      {
        var id :| id in todo;
        todo := todo - {id};
        var nic := nicIPPools[id];
        if ipAddr.ip in nic.ipv4Addresses && nic.ipv4Addresses[ipAddr.ip].isAssigned {
          var ip := nic.ipv4Addresses[ipAddr.ip].(isAssigned := false);
          assignedCount := assignedCount - 1;
          nic := nic.(assignedIPv4Addresses := nic.assignedIPv4Addresses - 1);
          ip := ip.(unassignedTime := At(now));
          nic := nic.(lastUnassignedTime := At(now), ipv4Addresses := nic.ipv4Addresses[ipAddr.ip := ip]);
          nicIPPools := nicIPPools[id := nic];
          podsIP := podsIP - {key};
          assert IsAssigned(old(Now()), id, ipAddr.ip);
          return Ok(ip.address, nic.deviceNumber);
        }
      }
      return Failed(UnknownPodIP);
    }
  }
}
