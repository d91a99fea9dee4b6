/**
 The daemon around the store: the RPC handlers, the pool manager and start-up recovery. Answers of the cloud and of the
 kernel's link set-up are parameters.
 */
module Ipam {
  import opened Common
  import opened Varint
  import opened Store
  import opened StoreInvariants
  import opened StoreRuns
  import opened DataStores
  import opened IpRules
  import opened Driver
  import opened RuleUpdate
  import opened RpcMessages
  import opened Pool
  import opened Recovery

  function Ascii(s: string): (t: gostring)
    requires |s| < 1000
  {
    seq(|s|, i requires 0 <= i < |s| => s[i] as int % 256)
  }

  /** The text of the errors an assignment or a release can end with. */
  function ErrorText(e: Store.Error): gostring {
    match e
    case UnknownPod => Ascii("datastore: unknown pod")
    case UnknownPodIP => Ascii("datastore: pod using unknown IP address")
    case MultipleIPs => Ascii("AssignPodIPv4Address: invalid pod with multiple IP addresses")
    case NoAvailableIP => Ascii("assignPodIPv4AddressUnsafe: no available IP addresses")
    case _ => []
  }

  // ---------- the daemon ----------

  class IpamD {
    const dataStore: DataStore
    const netLink: NetLink
    const poolSize: int
    const maxPoolSize: int
    const useExternalSNAT: bool
    const vpcSubnets: seq<Cidr>
    /** The same networks as text, with the VPN network last if that is supported. */
    const subnetTexts: seq<gostring>

    constructor (dataStore: DataStore, netLink: NetLink, poolSize: int, maxPoolSize: int, useExternalSNAT: bool,
                 vpcSubnets: seq<Cidr>, subnetTexts: seq<gostring>)
      ensures this.dataStore == dataStore && this.netLink == netLink && this.poolSize == poolSize
      ensures this.maxPoolSize == maxPoolSize && this.useExternalSNAT == useExternalSNAT
      ensures this.vpcSubnets == vpcSubnets && this.subnetTexts == subnetTexts
    {
      this.dataStore, this.netLink, this.poolSize, this.maxPoolSize := dataStore, netLink, poolSize, maxPoolSize;
      this.useExternalSNAT, this.vpcSubnets, this.subnetTexts := useExternalSNAT, vpcSubnets, subnetTexts;
    }

    /** A request never names an address; the reply carries what the store answered. */
    method AddNetwork(in_: AddNetworkRequest, now: int) returns (resp: AddNetworkReply, ghost r: Reply)
      modifies dataStore
      ensures fresh(resp)
      ensures Assign(old(dataStore.Now()), now, PodKey(in_.podName, in_.podNamespace, in_.podInfraContainerID), [],
                     dataStore.Now(), r)
      ensures resp.success == r.Ok? && resp.ipv4Addr == (if r.Ok? then r.ip else [])
      ensures resp.deviceNumber == Truncate32(if r.Ok? then r.deviceNumber else 0)
      ensures r.Ok? && -0x8000_0000 <= r.deviceNumber < 0x8000_0000 ==> resp.deviceNumber == r.deviceNumber
      ensures resp.ipv4Subnet == [] && !resp.useExternalSNAT && resp.vpcCidrs == subnetTexts
      ensures resp.message == if r.Failed? then ErrorText(r.error) else []
    {
      hide Truncate32, ErrorText, Assign;
      var key := PodKey(in_.podName, in_.podNamespace, in_.podInfraContainerID);
      var reply := dataStore.AssignPodIPv4Address(key, [], now);
      r := reply;
      resp := new AddNetworkReply();
      resp.success := reply.Ok?;
      resp.vpcCidrs := subnetTexts;
      if reply.Ok? {
        resp.ipv4Addr := reply.ip;
        resp.deviceNumber := Truncate32(reply.deviceNumber);
      }
      TruncateExactly(if reply.Ok? then reply.deviceNumber else 0);
      if reply.Failed? { resp.message := ErrorText(reply.error); }
    }

    /** Two tries: the pod with its container, then, if nobody knows it, the pod alone; both unknown is a success. */
    method DelNetwork(in_: DelNetworkRequest, now: int)
      returns (resp: DelNetworkReply, ghost mid: State, ghost r1: Reply, ghost r2: Reply)
      modifies dataStore
      ensures fresh(resp)
      ensures Release(old(dataStore.Now()), now, PodKey(in_.podName, in_.podNamespace, in_.podInfraContainerID),
                      mid, r1, dataStore.Now(), r2)
      ensures resp.success == (r2.Ok? || r2 == Failed(UnknownPod))
      ensures resp.ipv4Addr == (if r2.Ok? then r2.ip else [])
      ensures resp.deviceNumber == Truncate32(if r2.Ok? then r2.deviceNumber else 0)
      ensures resp.message == if r2.Failed? && r2.error != UnknownPod then ErrorText(r2.error) else []
    {
      var key := PodKey(in_.podName, in_.podNamespace, in_.podInfraContainerID);
      var reply := dataStore.UnassignPodIPv4Address(key, now);
      mid, r1, r2 := dataStore.Now(), reply, reply;
      if reply == Failed(UnknownPod) {
        reply := dataStore.UnassignPodIPv4Address(PodKey(in_.podName, in_.podNamespace, []), now);
        r2 := reply;
        if reply == Failed(UnknownPod) {
          resp := new DelNetworkReply();
          resp.success := true;
          return;
        }
      }
      resp := new DelNetworkReply();
      resp.success := reply.Ok?;
      if reply.Ok? {
        resp.ipv4Addr := reply.ip;
        resp.deviceNumber := Truncate32(reply.deviceNumber);
      }
      if reply.Failed? { resp.message := ErrorText(reply.error); }
    }

    // ---------- the pool manager ----------

    method UpdateIPPoolIfRequired(now: int, cloud: Cloud) returns (deleted: gostring)
      requires forall n :: n in dataStore.nicIPPools ==> dataStore.nicIPPools[n].id == n
      modifies dataStore
      ensures Tick(old(dataStore.Now()), now, poolSize, maxPoolSize, cloud, dataStore.Now())
      ensures var s := old(dataStore.Now());
        if poolSize <= Free(s) && Free(s) > maxPoolSize then RemoveUnused(s, now, dataStore.Now(), deleted)
        else deleted == []
    {
      deleted := [];
      var tooLow := NodeIPPoolTooLow();
      if tooLow {
        TryAllocateNIC(now, cloud);
      } else {
        var tooHigh := NodeIPPoolTooHigh();
        if tooHigh {
          deleted := dataStore.RemoveUnusedNICFromStore(now);
        }
      }
    }

    method NodeIPPoolTooLow() returns (b: bool)
      ensures b <==> Free(dataStore.Now()) < poolSize
    {
      var total, used := dataStore.GetStats();
      return total - used < poolSize;
    }

    method NodeIPPoolTooHigh() returns (b: bool)
      ensures b <==> Free(dataStore.Now()) > maxPoolSize
    {
      var total, used := dataStore.GetStats();
      return total - used > maxPoolSize;
    }

    method TryAllocateNIC(now: int, cloud: Cloud)
      modifies dataStore
      ensures var s := old(dataStore.Now());
        if cloud.created.None? then dataStore.Now() == s
        else NicSetUp(s, now, cloud.created.value, cloud.link, cloud.networkOK, dataStore.Now())
    {
      if cloud.created.Some? {
        SetupNic(cloud.created.value, cloud.link, cloud.networkOK, now);
      }
    }

    method SetupNic(nic: HostNic, link: Option<int>, networkOK: bool, now: int)
      modifies dataStore
      ensures NicSetUp(old(dataStore.Now()), now, nic, link, networkOK, dataStore.Now())
      ensures nic.id !in old(dataStore.nicIPPools) && nic.deviceNumber > 0 ==>
        nic.id in dataStore.nicIPPools && dataStore.nicIPPools[nic.id].deviceNumber == nic.deviceNumber
    {
      var dev := nic.deviceNumber;
      if dev <= 0 {
        if link.None? { return; }
        dev := link.value;
      }
      ghost var s := dataStore.Now();
      var r := dataStore.AddNIC(nic.id, dev, nic.isPrimary, now);
      ghost var mid := dataStore.Now();
      assert AddNIC(s, now, nic.id, dev, nic.isPrimary, mid, r);
      assert !networkOK || nic.isPrimary || r !in {Done, Failed(DuplicatedNIC)} ==>
        AfterAdd(mid, r, nic, networkOK, mid);
      if r.Failed? && r.error != DuplicatedNIC { return; }
      if !nic.isPrimary {
        if !networkOK { return; }
        var r' := dataStore.AddIPv4AddressFromStore(nic.id, nic.address);
        assert AfterAdd(mid, r, nic, networkOK, dataStore.Now());
      }
    }

    // ---------- start-up recovery ----------

    method GetNicIndexByIP(ip: gostring) returns (dev: int)
      ensures IsIndex(dataStore.Now(), ip, dev)
    {
      var todo := dataStore.nicIPPools.Keys;
      while todo != {}
        invariant todo <= dataStore.nicIPPools.Keys
        invariant forall n :: Has(dataStore.Now(), n, ip) ==> n in todo
      {
        var id :| id in todo;
        todo := todo - {id};
        var nic := dataStore.nicIPPools[id];
        var ips := nic.ipv4Addresses.Keys;
        while ips != {}
          invariant ips <= nic.ipv4Addresses.Keys
          invariant forall n :: Has(dataStore.Now(), n, ip) ==> n in todo || (n == id && ip in ips)
        {
          var i :| i in ips;
          ips := ips - {i};
          if i == ip {
            assert Has(dataStore.Now(), id, ip);
            return nic.deviceNumber;
          }
        }
      }
      return -1;
    }

    /** One turn of the recovery loop. */
    method RecoverLocalPod(pod: LocalPod, rules: seq<Rule>, now: int) returns (table: int)
      modifies dataStore, netLink`rules
      ensures RecoveryStep(old(dataStore.Now()), pod, now, dataStore.Now())
      ensures if pod.ip == [] then table == -1 else IsIndex(dataStore.Now(), pod.ip, table)
      ensures netLink.rules == RecoverOne(old(netLink.rules), rules, pod, table, vpcSubnets, useExternalSNAT)
    {
      table := -1;
      if pod.ip == [] { return; }
      var r := dataStore.AssignPodIPv4Address(pod.key, pod.ip, now);
      var pbVPCcidrs := vpcSubnets + [VPNNet(pod.addr)];
      table := GetNicIndexByIP(pod.ip);
      if table == -1 { return; }
      var ok := UpdateRuleListBySrc(netLink, rules, pod.addr, pbVPCcidrs, !useExternalSNAT, table);
    }

    /** Each local pod with an address gets it back in the store, and its from-pod rules are rebuilt; the rule list is
        read once, before the loop. `states` are the store's states, `tables` the NIC indices found. */
    method PrepareLocalPods(pods: seq<LocalPod>, now: int) returns (ghost states: seq<State>, ghost tables: seq<int>)
      modifies dataStore, netLink`rules
      ensures RecoveryRun(states, pods, now) && states[0] == old(dataStore.Now()) && states[|pods|] == dataStore.Now()
      ensures |tables| == |pods|
      ensures forall i :: 0 <= i < |pods| && pods[i].ip != [] ==> IsIndex(states[i + 1], pods[i].ip, tables[i])
      ensures netLink.rules == RecoverRules(old(netLink.rules), pods, tables, vpcSubnets, useExternalSNAT)
    {
      hide RecoveryRun, RecoveryStep, RecoverRules, RecoverOne, IsIndex;
      var rules := netLink.rules;
      states, tables := [dataStore.Now()], [];
      NothingRecovered(dataStore.Now(), rules, now, vpcSubnets, useExternalSNAT);
      assert pods[..0] == [];
      for i := 0 to |pods|
        invariant |states| == i + 1 && |tables| == i
        invariant RecoveryRun(states, pods[..i], now)
        invariant states[0] == old(dataStore.Now()) && states[i] == dataStore.Now()
        invariant forall j :: 0 <= j < i && pods[j].ip != [] ==> IsIndex(states[j + 1], pods[j].ip, tables[j])
        invariant netLink.rules == RecoverRules(rules, pods[..i], tables, vpcSubnets, useExternalSNAT)
      {
        var table := RecoverLocalPod(pods[i], rules, now);
        RunSnoc(states, pods, i, now, dataStore.Now());
        RulesSnoc(rules, pods, i, tables, table, vpcSubnets, useExternalSNAT);
        states, tables := states + [dataStore.Now()], tables + [table];
      }
      assert pods[..|pods|] == pods;
    }
  }
}
