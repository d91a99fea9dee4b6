/**
 Recovered pods and DelNetwork. Recovery stores a pod under the container of its first container status; a DelNetwork
 names the pod's sandbox and then no container. The store knows them as different pods.
 */
module RecoveredPods {
  import opened Common
  import opened Store
  import opened StoreInvariants
  import opened StoreRuns

  /** k is the only pod of its name and namespace with container c, if it is one. */
  predicate NobodyElse(s: State, k: PodKey, c: gostring) { k.(container := c) in s.pods ==> k.container == c }

  /** A DelNetwork with container c, for a pod known under container k.container, releases it if and only if the
      containers are the same or the pod is known without one. If not, and no pod of that name is known without one,
      the store is unchanged and the reply unknown pod, which the handler turns into a success. */
  lemma ReleasedIfNamed(s: State, now: int, k: PodKey, c: gostring, mid: State, r1: Reply, s': State, r2: Reply)
    requires Counted(s) && Exclusive(s) && k in s.pods && NobodyElse(s, k, c)
    requires Release(s, now, k.(container := c), mid, r1, s', r2)
    ensures k !in s'.pods <==> k.container == c || k.container == []
    ensures k in s'.pods && k.(container := []) !in s.pods ==> s' == s && r2 == Failed(UnknownPod)
  {
    hide Counted, Exclusive;
    ReleaseExactly(s, now, k.(container := c), mid, r1, s', r2);
    assert k.container == c ==> k.(container := c) == k;
    assert k.container == [] ==> k.(container := c).(container := []) == k;
  }

  /** One operation, other than a release in its name, leaves a pod what it holds. */
  lemma StepKeepsPod(s: State, now: int, op: Op, s': State, r: Reply, k: PodKey)
    requires Step(s, now, op, s', r) && k in s.pods && op != OpUnassign(k)
    ensures k in s'.pods && s'.pods[k] == s.pods[k]
  {
    match op
    case OpRemoveUnused =>
      if n :| Deletable(s, now, n) && s' == DropNIC(s, n) {}
    case OpAssign(key, want) =>
      if n, ip :| Candidate(s, now, want, n, ip) && s' == HandOut(s, key, n, ip) {}
    case OpUnassign(key) =>
      if key in s.pods {
        if n :| IsAssigned(s, n, s.pods[key].ip) &&
                s' == GiveBack(s, n, s.pods[key].ip, now).(pods := s.pods - {key}) {}
      }
    case _ =>
  }

  /** Without a release in its name a pod keeps its address for ever: it stays in use and no other pod gets it. */
  lemma {:induction false} NeverFreed(states: seq<State>, events: seq<Event>, k: PodKey, j: nat)
    requires IsRun(states, events) && j <= |events| && Counted(states[0]) && Exclusive(states[0]) && k in states[0].pods
    requires forall i :: 0 <= i < |events| ==> events[i].op != OpUnassign(k)
    ensures k in states[j].pods && states[j].pods[k] == states[0].pods[k]
    ensures exists n :: IsAssigned(states[j], n, states[0].pods[k].ip)
    ensures forall key :: key in states[j].pods && key != k ==> states[j].pods[key].ip != states[0].pods[k].ip
  {
    hide Counted, Step, Fair, IsAssigned;
    RunKeeps(states, events, j);
    if j > 0 {
      NeverFreed(states, events, k, j - 1);
      var e := events[j - 1];
      StepKeepsPod(states[j - 1], e.now, e.op, states[j], e.reply, k);
    }
    var n :| Holds(states[j], k, n);
    assert IsAssigned(states[j], n, states[0].pods[k].ip);
  }

  /** It happens: a pod recovered under container "app", from a pool with its address, is not released by a DelNetwork
      that names its sandbox: the store is unchanged, and the reply is the one the handler turns into a success. */
  lemma ReleaseMisses(id: gostring, dev: int, ip: gostring, now: int)
    returns (s: State, s': State, r: Reply, r1: Reply, r2: Reply)
    requires dev > 0 && ip != []
    ensures var k := PodKey([0x70], [0x6e], [0x61, 0x70, 0x70]);
      && Counted(s) && Exclusive(s) && k !in s.pods
      && Assign(s, now, k, ip, s', r) && r == Ok(ip, dev)
      && Release(s', now, k.(container := [0x73]), s', r1, s', r2) && r2 == Failed(UnknownPod)
      && k in s'.pods && IsAssigned(s', id, ip)
  {
    var k := PodKey([0x70], [0x6e], [0x61, 0x70, 0x70]);
    hide Counted, Exclusive;
    PoolSteps(id, dev, ip, now);
    s, s' := OneAddress(id, dev, ip, now), Held(id, dev, ip, k, now);
    r, r1, r2 := Ok(ip, dev), Failed(UnknownPod), Failed(UnknownPod);
    assert Candidate(s, now, ip, id, ip);
    assert s'.pods == map[k := PodIPInfo(ip, dev)];
  }
}
