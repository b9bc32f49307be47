/** Whole runs of the address manager, starting from an empty one. */
module AddrManRuns {
  import opened Common
  import opened AddrMan
  import opened AddrManInvariant
  import opened AddrManSteps
  import opened AddrManOps

  datatype Op =
    | DoAdd(a: Address, source: nat, timePenalty: int, now: int, rnd: nat)   // one address of Add
    | DoGood(s: Service, time: int)
    | DoAttempt(s: Service, countFailure: bool, time: int)
    | DoConnected(s: Service, time: int)
    | DoSetServices(s: Service, services: set<nat>)
    | DoResolve(order: seq<int>, clock: int -> Readings)                       // the queue, in the order it is walked
    | DoSelectCollision(pick: int)
    | DoGetAddr(maxAddresses: nat, maxPct: nat, picks: nat -> nat, wanted: nat -> bool, now: int)

  /** Callers pass positive times; everything else is free. */
  predicate Permitted(op: Op) {
    match op
    case DoGood(_, time) => time > 0
    case DoAttempt(_, _, time) => time > 0
    case DoConnected(_, time) => time > 0
    case DoResolve(order, clock) => forall id :: id in order ==> clock(id).good > 0
    case _ => true
  }

  function Step(env: Env, m: Manager, op: Op): Manager
    requires EnvOk(env) && Permitted(op)
  {
    match op
    case DoAdd(a, source, timePenalty, now, rnd) => AddSingle(env, m, a, source, timePenalty, now, rnd).0
    case DoGood(s, time) => Good(env, m, s, true, time).0
    case DoAttempt(s, countFailure, time) => Attempt(m, s, countFailure, time)
    case DoConnected(s, time) => Connected(m, s, time)
    case DoSetServices(s, services) => SetServices(m, s, services)
    case DoResolve(order, clock) => ResolveAll(env, m, order, clock)
    case DoSelectCollision(pick) => SelectTriedCollision(env, m, pick).0
    case DoGetAddr(maxAddresses, maxPct, picks, wanted, now) =>
      GetAddr(m, 0, AddrLimit(|m.random|, maxAddresses, maxPct), picks, wanted, now, []).0
  }

  lemma StepKeeps(env: Env, m: Manager, op: Op)
    requires EnvOk(env) && Permitted(op) && Sound(env, m)
    ensures Sound(env, Step(env, m, op)) && Onward(m, Step(env, m, op))
  {
    hide Onward, AddSingle, Good, Attempt, Connected, SetServices, ResolveAll, SelectTriedCollision, GetAddr, QueueOk;
    match op
    case DoAdd(a, source, timePenalty, now, rnd) => AddSingleKeeps(env, m, a, source, timePenalty, now, rnd);
    case DoGood(s, time) => GoodKeeps(env, m, s, true, time);
    case DoAttempt(s, countFailure, time) => StatisticsKeep(env, m, s, countFailure, time, {});
    case DoConnected(s, time) => StatisticsKeep(env, m, s, false, time, {});
    case DoSetServices(s, services) => StatisticsKeep(env, m, s, false, 1, services);
    case DoResolve(order, clock) => ResolveAllKeeps(env, m, order, clock);
    case DoSelectCollision(pick) => SelectTriedCollisionKeeps(env, m, pick);
    case DoGetAddr(maxAddresses, maxPct, picks, wanted, now) =>
      GetAddrKeeps(env, m, 0, AddrLimit(|m.random|, maxAddresses, maxPct), picks, wanted, now, []);
  }

  lemma EmptySound(env: Env, key: nat)
    requires EnvOk(env)
    ensures Sound(env, Empty(key))
  {
    assert forall id :: id !in TriedIds(map[]) && id !in NewIds(map[]);
    assert TriedIds(map[]) == {} && NewIds(map[]) - {} == {};
  }

  ghost predicate IsRun(env: Env, run: seq<Manager>, ops: seq<Op>)
    requires EnvOk(env)
  {
    && |run| == |ops| + 1
    && forall i :: 0 <= i < |ops| ==> Permitted(ops[i]) && run[i + 1] == Step(env, run[i], ops[i])
  }

  /** In every reachable state the structures agree and the collision queue is meaningful. */
  lemma {:induction false} EveryRun(env: Env, key: nat, run: seq<Manager>, ops: seq<Op>, k: nat)
    requires EnvOk(env) && IsRun(env, run, ops) && run[0] == Empty(key) && k < |run|
    ensures Sound(env, run[k])
    decreases k
  {
    hide Sound, Step, Onward;
    if k == 0 {
      EmptySound(env, key);
    } else {
      EveryRun(env, key, run, ops, k - 1);
      StepKeeps(env, run[k - 1], ops[k - 1]);
    }
  }

  /** Over every run, a tried slot once occupied is occupied ever after, and ids are never reused. */
  lemma {:induction false} TriedSlotsStay(env: Env, key: nat, run: seq<Manager>, ops: seq<Op>, j: nat, k: nat)
    requires EnvOk(env) && IsRun(env, run, ops) && run[0] == Empty(key) && j <= k < |run|
    ensures Onward(run[j], run[k])
    decreases k
  {
    hide Sound, Step, Onward;
    if j < k {
      TriedSlotsStay(env, key, run, ops, j, k - 1);
      EveryRun(env, key, run, ops, k - 1);
      StepKeeps(env, run[k - 1], ops[k - 1]);
      OnwardTwice(run[j], run[k - 1], run[k]);
    } else {
      PlacedSelf(run[j]);
      PlacedOnward(run[j], run[j]);
    }
  }

  // ---------- what the two main operations are for ----------

  lemma PlaceNewAnswer(env: Env, m: Manager, id: int, loose: set<int>, source: nat, now: int)
    requires EnvOk(env) && Consistent(env, m, loose, {}) && loose <= {id} && id in m.info && !m.info[id].inTried
    requires m.info[id].refCount < NEW_BUCKETS_PER_ADDRESS
    requires m.info[id].service in m.addr && m.addr[m.info[id].service] == id
    ensures var (r, added) := PlaceNew(env, m, id, source, now);
            var s := m.info[id].service;
            var slot := NewSlot(env, m.key, s, source);
            && r.key == m.key
            && (added ==> s in r.addr && r.addr[s] == id && slot in r.newTable && r.newTable[slot] == id
                          && !(slot in m.newTable && m.newTable[slot] == id))
            && (!added ==> (s in r.addr ==> r.addr[s] == id) && r.newTable == m.newTable)
  {
    var s := m.info[id].service;
    var slot := NewSlot(env, m.key, s, source);
    if !(slot in m.newTable && m.newTable[slot] == id) && PlaceNew(env, m, id, source, now).1 {
      hide Consistent, ClearNew, IsTerrible, Cleared;
      ClearNewKeeps(env, m, slot, loose, {});
      PlacementFacts(env, m, id, loose);
      PlacedCleared(m, slot, id, loose);
      AddressKept(env, ClearNew(m, slot), id, loose);
    }
  }

  lemma AddressKept(env: Env, m: Manager, id: int, loose: set<int>)
    requires Consistent(env, m, loose, {}) && id in m.info
    ensures m.info[id].service in m.addr && m.addr[m.info[id].service] == id
  {
  }

  /** The slot selected by the source holds the address. */
  predicate Holds(env: Env, m: Manager, a: Service, source: nat)
    requires EnvOk(env)
  {
    var slot := NewSlot(env, m.key, a, source);
    a in m.addr && slot in m.newTable && m.newTable[slot] == m.addr[a]
  }

  lemma AddKnownAnswer(env: Env, m: Manager, a: Address, source: nat, penalty: int, now: int)
    requires EnvOk(env) && Sound(env, m) && Found(m, a.service)
    ensures var id := m.addr[a.service];
            && id in m.info && m.info[id].service == a.service
            && var i := Refreshed(m.info[id], a, penalty, now);
               && (Holds(env, Put(m, id, i), a.service, source) <==> Holds(env, m, a.service, source))
               && (!i.inTried && i.refCount != NEW_BUCKETS_PER_ADDRESS ==>
                     var (r, added) := PlaceNew(env, Put(m, id, i), id, source, now);
                     added <==> Holds(env, r, a.service, source) && !Holds(env, m, a.service, source))
  {
    hide Consistent, QueueOk, Refreshed, PlaceNew;
    KnownEntry(env, m, a.service);
    var id := m.addr[a.service];
    RefreshedRole(m.info[id], a, penalty, now);
    var i := Refreshed(m.info[id], a, penalty, now);
    StatsUpdateKeeps(env, m, id, i, {}, {});
    if !i.inTried && i.refCount != NEW_BUCKETS_PER_ADDRESS {
      PlaceNewAnswer(env, Put(m, id, i), id, {}, source, now);
    }
  }

  lemma AddUnknownAnswer(env: Env, m: Manager, a: Address, source: nat, time: nat, now: int)
    requires EnvOk(env) && Sound(env, m) && !Found(m, a.service) && env.routable(a.service.ip)
    ensures var (r, added) := PlaceNew(env, Introduced(m, a, source, time), m.idCount, source, now);
            added <==> Holds(env, r, a.service, source) && !Holds(env, m, a.service, source)
  {
    hide Consistent, QueueOk, Introduced, PlaceNew;
    UnknownAddress(env, m, a.service);
    IntroduceKeeps(env, m, a, source, time);
    IntroducedFrame(m, a, source, time);
    var n := Introduced(m, a, source, time);
    PlacementFacts(env, n, m.idCount, {m.idCount});
    PlaceNewAnswer(env, n, m.idCount, {m.idCount}, source, now);
  }

  /** AddSingle answers true exactly when the slot selected by the source newly holds the address. */
  lemma AddSingleAnswer(env: Env, m: Manager, a: Address, source: nat, timePenalty: int, now: int, rnd: nat)
    requires EnvOk(env) && Sound(env, m)
    ensures var (r, added) := AddSingle(env, m, a, source, timePenalty, now, rnd);
            added <==> Holds(env, r, a.service, source) && !Holds(env, m, a.service, source)
  {
    hide Sound, Refreshed, PlaceNew, Holds;
    var penalty := if a.service.ip == source then 0 else timePenalty;
    if env.routable(a.service.ip) {
      if Found(m, a.service) {
        AddKnownAnswer(env, m, a, source, penalty, now);
      } else {
        AddUnknownAnswer(env, m, a, source, Max(0, a.time - penalty), now);
      }
    }
  }
}
