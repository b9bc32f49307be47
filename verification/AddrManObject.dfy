/**
 * The AddrManImpl object: dictionaries, vRandom, two-dimensional bucket arrays holding -1 in
 * empty slots, counters.  Every method is proved to do what its function in AddrMan.dfy says;
 * the assertions the code makes are asserted here at the same places.
 */
module AddrManObject {
  import opened Arithmetic
  import opened Common
  import opened AddrMan
  import opened AddrManInvariant
  import opened AddrManSteps
  import opened AddrManOps

  ghost predicate InRange(a: array2<int>, slot: Slot) {
    slot.bucket < a.Length0 && slot.pos < a.Length1
  }

  ghost function AllSlots(buckets: nat, size: nat): (r: set<Slot>)
    ensures forall slot :: slot in r <==> slot.bucket < buckets && slot.pos < size
  {
    set b: nat, p: nat | b < buckets && p < size :: Slot(b, p)
  }

  /** The occupied slots of a bucket array. */
  ghost function TableOf(a: array2<int>): (t: Table)
    reads a
    ensures forall slot :: slot in t <==> InRange(a, slot) && a[slot.bucket, slot.pos] != -1
    ensures forall slot :: slot in t ==> InRange(a, slot) && t[slot] == a[slot.bucket, slot.pos]
  {
    map slot | slot in AllSlots(a.Length0, a.Length1) && a[slot.bucket, slot.pos] != -1 :: a[slot.bucket, slot.pos]
  }

  /** Write one slot. */
  method SetSlot(a: array2<int>, slot: Slot, id: int)
    requires InRange(a, slot)
    modifies a
    ensures TableOf(a) == if id == -1 then old(TableOf(a)) - {slot} else old(TableOf(a))[slot := id]
    ensures a[slot.bucket, slot.pos] == id
  {
    ghost var before := TableOf(a);
    a[slot.bucket, slot.pos] := id;
    ghost var after := if id == -1 then before - {slot} else before[slot := id];
    assert forall s :: s in TableOf(a) <==> s in after;
    assert forall s :: s in after ==> TableOf(a)[s] == after[s];
  }

  method NewArray(buckets: nat, size: nat) returns (a: array2<int>)
    ensures fresh(a) && a.Length0 == buckets && a.Length1 == size && TableOf(a) == map[]
  {
    a := new int[buckets, size];
    for b := 0 to buckets
      invariant forall i, j :: 0 <= i < b && 0 <= j < size ==> a[i, j] == -1
    {
      for p := 0 to size
        invariant forall i, j :: 0 <= i < b && 0 <= j < size ==> a[i, j] == -1
        invariant forall j :: 0 <= j < p ==> a[b, j] == -1
      {
        a[b, p] := -1;
      }
    }
    assert forall slot :: slot !in TableOf(a);
    assert TableOf(a) == map[];
  }

  // ---------- the scan of all new buckets, starting anywhere ----------

  /** When the scan that starts at `start` reaches a bucket. */
  function Offset(bucket: nat, start: nat, count: nat): int {
    if bucket >= start then bucket - start else bucket - start + count
  }

  /** The n-th bucket that the scan visits. */
  function BucketAt(start: nat, n: nat, count: nat): (b: nat)
    requires count > 0
    ensures b < count
  {
    (start + n) % count
  }

  lemma ScanOrder(start: nat, count: nat, n: nat, bucket: nat)
    requires start < count && n < count && bucket < count
    ensures (start + n) % count < count
    ensures Offset(bucket, start, count) == n <==> bucket == (start + n) % count
  {
    if start + n < count {
      DivModUnique(start + n, count, 0, start + n);
    } else {
      DivModUnique(start + n, count, 1, start + n - count);
    }
  }

  /** The table after the scan has passed n buckets. */
  ghost function Scanned(table: Table, id: int, start: nat, count: nat, n: nat): Table {
    map slot | slot in table && !(table[slot] == id && Offset(slot.bucket, start, count) < n) :: table[slot]
  }

  lemma ScanStep(env: Env, key: nat, info: map<int, Info>, table: Table, id: int, start: nat, n: nat)
    requires EnvOk(env) && NewOk(env, key, info, table, {}) && id in info && start < env.newCount && n < env.newCount
    ensures var slot := SlotInNew(env, key, info[id].service, BucketAt(start, n, env.newCount));
            var t, t' := Scanned(table, id, start, env.newCount, n), Scanned(table, id, start, env.newCount, n + 1);
            && slot.bucket < env.newCount
            && t' == (if slot in t && t[slot] == id then t - {slot} else t)
            && |SlotsOf(t', id)| == |SlotsOf(t, id)| - (if slot in t && t[slot] == id then 1 else 0)
  {
    hide Offset;
    var count := env.newCount;
    var slot := SlotInNew(env, key, info[id].service, BucketAt(start, n, count));
    var t, t' := Scanned(table, id, start, count, n), Scanned(table, id, start, count, n + 1);
    ScanOrder(start, count, n, start);
    forall s | s in t && t[s] == id ensures Offset(s.bucket, start, count) == n <==> s == slot {
      ScanOrder(start, count, n, s.bucket);
    }
    assert forall s :: s in t' <==> s in t && !(t[s] == id && s == slot);
    if slot in t && t[slot] == id {
      assert t' == t - {slot};
      assert forall s :: s in SlotsOf(t', id) <==> s in SlotsOf(t, id) - {slot};
      assert SlotsOf(t', id) == SlotsOf(t, id) - {slot} && slot in SlotsOf(t, id);
    } else {
      assert t' == t;
    }
  }

  /** When nothing of the entry is left, the scan may stop. */
  lemma ScanDone(table: Table, id: int, start: nat, count: nat, n: nat)
    requires SlotsOf(Scanned(table, id, start, count, n), id) == {}
    ensures Scanned(table, id, start, count, n) == map slot | slot in table && table[slot] != id :: table[slot]
  {
    var t := Scanned(table, id, start, count, n);
    assert forall slot :: slot in t && t[slot] == id ==> slot in SlotsOf(t, id);
    assert forall slot :: slot in t <==> slot in table && table[slot] != id;
  }

  lemma ScanEmpty(env: Env, key: nat, info: map<int, Info>, table: Table, id: int, start: nat)
    requires EnvOk(env) && NewOk(env, key, info, table, {}) && start < env.newCount
    ensures SlotsOf(Scanned(table, id, start, env.newCount, env.newCount), id) == {}
    ensures Scanned(table, id, start, env.newCount, 0) == table
  {
    var t := Scanned(table, id, start, env.newCount, env.newCount);
    assert forall slot :: slot in t ==> t[slot] != id;
    assert forall slot :: slot !in SlotsOf(t, id);
    var t0 := Scanned(table, id, start, env.newCount, 0);
    assert forall slot :: slot in t0 <==> slot in table;
  }

  /** The manager after the scan has passed n buckets: those slots of the entry are gone and no longer counted. */
  ghost predicate AfterScan(was: Manager, now: Manager, id: int, start: nat, count: nat, n: nat)
    requires id in was.info
  {
    now == was.(newTable := Scanned(was.newTable, id, start, count, n),
                info := was.info[id := was.info[id].(refCount := |SlotsOf(Scanned(was.newTable, id, start, count, n), id)|)])
  }

  lemma AfterScanStep(env: Env, was: Manager, now: Manager, id: int, start: nat, n: nat)
    requires EnvOk(env) && NewOk(env, was.key, was.info, was.newTable, {}) && id in was.info && start < env.newCount && n < env.newCount
    requires AfterScan(was, now, id, start, env.newCount, n)
    ensures id in now.info && now.info[id].service == was.info[id].service && now.key == was.key
    ensures var slot := SlotInNew(env, was.key, was.info[id].service, BucketAt(start, n, env.newCount));
            AfterScan(was, if slot in now.newTable && now.newTable[slot] == id then Taken(now, slot) else now, id, start, env.newCount, n + 1)
  {
    hide NewOk, Scanned, SlotsOf, SlotInNew, BucketAt;
    ScanStep(env, was.key, was.info, was.newTable, id, start, n);
  }

  lemma AfterScanEdges(env: Env, was: Manager, id: int, start: nat)
    requires EnvOk(env) && NewOk(env, was.key, was.info, was.newTable, {}) && start < env.newCount
    requires id in was.info && was.info[id].refCount == |SlotsOf(was.newTable, id)|
    ensures AfterScan(was, was, id, start, env.newCount, 0)
    ensures forall now :: AfterScan(was, now, id, start, env.newCount, env.newCount) ==> now.info[id].refCount == 0
  {
    ScanEmpty(env, was.key, was.info, was.newTable, id, start);
    assert was.info[id := was.info[id]] == was.info;
  }

  lemma AfterScanDone(was: Manager, now: Manager, id: int, start: nat, count: nat, n: nat)
    requires id in was.info && AfterScan(was, now, id, start, count, n) && now.info[id].refCount == 0
    ensures now == RemoveFromNew(was, id)
  {
    hide Scanned;
    ScanDone(was.newTable, id, start, count, n);
  }

  /** MakeTried in three steps. */
  lemma MadeTried(env: Env, m: Manager, id: int)
    requires EnvOk(env) && id in m.info
    ensures var r := RemoveFromNew(m, id).(nNew := m.nNew - 1);
            var slot := TriedSlot(env, m.key, m.info[id].service);
            AddrMan.MakeTried(env, m, id) == EnteredTried(if slot in r.triedTable then AddrMan.EvictTried(env, r, slot) else r, id, slot)
  {
    hide AddrMan.EvictTried, TriedSlot;
  }

  lemma NotRoutable(env: Env, m: Manager, a: Address, source: nat, timePenalty: int, now: int, rnd: nat)
    requires EnvOk(env) && !env.routable(a.service.ip)
    ensures AddrMan.AddSingle(env, m, a, source, timePenalty, now, rnd) == (m, false)
  {
  }

  class AddrManImpl {
    const env: Env
    var nKey: nat
    var nIdCount: int
    var mapInfo: map<int, Info>
    var mapAddr: map<Service, int>
    var vRandom: seq<int>
    var nTried: int
    const vvTried: array2<int>
    var nNew: int
    const vvNew: array2<int>
    var nLastGood: int
    var triedCollisions: set<int>

    ghost predicate Valid() {
      && EnvOk(env) && vvTried != vvNew
      && vvTried.Length0 == env.triedCount && vvTried.Length1 == env.bucketSize
      && vvNew.Length0 == env.newCount && vvNew.Length1 == env.bucketSize
    }

    ghost function Model(): Manager
      reads this, vvTried, vvNew
    {
      Manager(nKey, nIdCount, mapInfo, mapAddr, vRandom, nTried, TableOf(vvTried), nNew, TableOf(vvNew), nLastGood, triedCollisions)
    }

    constructor (env: Env, key: nat)
      requires EnvOk(env)
      ensures Valid() && fresh(vvTried) && fresh(vvNew)
      ensures Model() == Empty(key) && this.env == env
    {
      this.env := env;
      nKey, nIdCount, mapInfo, mapAddr, vRandom := key, 0, map[], map[], [];
      nTried, nNew, nLastGood, triedCollisions := 0, 0, 1, {};
      var a := NewArray(env.newCount, env.bucketSize);
      var b := NewArray(env.triedCount, env.bucketSize);
      vvNew, vvTried := a, b;
    }

    /** The id an address is known under, if it is known. */
    method Find(s: Service) returns (found: bool, id: int)
      ensures found <==> Found(Model(), s)
      ensures found ==> id == mapAddr[s]
    {
      if s !in mapAddr {
        return false, -1;
      }
      return mapAddr[s] in mapInfo, mapAddr[s];
    }

    method Create(a: Address, source: nat) returns (id: int)
      requires Valid()
      modifies this
      ensures id == old(nIdCount) && Model() == AddrMan.Create(old(Model()), a, source)
    {
      id := nIdCount;
      nIdCount := nIdCount + 1;
      mapInfo := mapInfo[id := NO_INFO.(service := a.service, time := a.time, services := a.services, source := source)];
      mapAddr := mapAddr[a.service := id];
      mapInfo := mapInfo[id := mapInfo[id].(randomPos := |vRandom|)];
      vRandom := vRandom + [id];
      assert mapInfo == AddrMan.Create(old(Model()), a, source).info;
    }

    method SwapRandom(i: nat, j: nat)
      requires Valid() && RandomOk(mapInfo, vRandom) && i < |vRandom| && j < |vRandom|
      modifies `mapInfo, `vRandom
      ensures Model() == AddrMan.SwapRandom(old(Model()), i, j)
    {
      if i == j {
        return;
      }
      var id1, id2 := vRandom[i], vRandom[j];
      assert id1 in mapInfo;
      assert id2 in mapInfo;
      mapInfo := mapInfo[id1 := mapInfo[id1].(randomPos := j)];
      mapInfo := mapInfo[id2 := mapInfo[id2].(randomPos := i)];
      vRandom := vRandom[i := id2];
      vRandom := vRandom[j := id1];
    }

    method Delete(id: int)
      requires Valid() && RandomOk(mapInfo, vRandom)
      requires id in mapInfo && !mapInfo[id].inTried && mapInfo[id].refCount == 0
      modifies this
      ensures Model() == AddrMan.Delete(old(Model()), id)
    {
      var info := mapInfo[id];
      assert !info.inTried && info.refCount == 0;
      SwapRandom(info.randomPos, |vRandom| - 1);
      vRandom := vRandom[..|vRandom| - 1];
      mapAddr := mapAddr - {info.service};
      mapInfo := mapInfo - {id};
      nNew := nNew - 1;
    }

    /** An entry loses one of its new slots. */
    method TakeSlot(slot: Slot)
      requires Valid() && InRange(vvNew, slot) && vvNew[slot.bucket, slot.pos] != -1 && vvNew[slot.bucket, slot.pos] in mapInfo
      modifies `mapInfo, vvNew
      ensures Model() == Taken(old(Model()), slot)
      ensures vvNew[slot.bucket, slot.pos] == -1
    {
      var id := vvNew[slot.bucket, slot.pos];
      mapInfo := mapInfo[id := mapInfo[id].(refCount := mapInfo[id].refCount - 1)];
      SetSlot(vvNew, slot, -1);
    }

    method ClearNew(slot: Slot, ghost loose: set<int>, ghost uncounted: set<int>)
      requires Valid() && InRange(vvNew, slot) && uncounted <= loose
      requires Consistent(env, Model(), loose, uncounted)
      modifies this, vvNew
      ensures Model() == AddrMan.ClearNew(old(Model()), slot)
      ensures vvNew[slot.bucket, slot.pos] == -1
    {
      hide Consistent, RandomOk, AddrMan.Delete;
      if vvNew[slot.bucket, slot.pos] != -1 {
        var id := vvNew[slot.bucket, slot.pos];
        TakeSlotKeeps(env, Model(), slot, loose, uncounted);
        assert mapInfo[id].refCount > 0;
        TakeSlot(slot);
        KnownRandom(env, Model(), if mapInfo[id].refCount == 0 then loose + {id} else loose, uncounted);
        if mapInfo[id].refCount == 0 {
          Delete(id);
        }
      }
    }

    /** The first part of MakeTried: take the entry out of all new buckets. */
    method LeaveNew(id: int)
      requires Valid() && Consistent(env, Model(), {}, {})
      requires id in mapInfo && !mapInfo[id].inTried && mapInfo[id].refCount > 0
      modifies this, vvNew
      ensures Model() == RemoveFromNew(old(Model()), id)
    {
      hide Consistent, NewOk, Scanned, SlotsOf, TableOf, AllSlots, BucketAt, AfterScan, RemoveFromNew;
      ghost var was := Model();
      var service, count := mapInfo[id].service, env.newCount;
      var start := BucketAt(env.newHash(nKey, service, mapInfo[id].source), 0, count);
      NewTableFacts(env, was, id);
      AfterScanEdges(env, was, id, start);
      ghost var scanned := 0;
      for n := 0 to count
        invariant scanned == n && AfterScan(was, Model(), id, start, count, n)
      {
        AfterScanStep(env, was, Model(), id, start, n);
        var slot := SlotInNew(env, nKey, service, BucketAt(start, n, count));
        scanned := n + 1;
        if vvNew[slot.bucket, slot.pos] == id {
          TakeSlot(slot);
          if mapInfo[id].refCount == 0 {
            break;
          }
        }
      }
      AfterScanDone(was, Model(), id, start, count, scanned);
    }

    /** The eviction inside MakeTried. */
    method EvictTried(slot: Slot, ghost id: int)
      requires Valid() && Consistent(env, Model(), {id}, {id})
      requires id in mapInfo && !mapInfo[id].inTried && InRange(vvTried, slot) && vvTried[slot.bucket, slot.pos] != -1
      modifies this, vvTried, vvNew
      ensures Model() == AddrMan.EvictTried(env, old(Model()), slot)
      ensures vvTried[slot.bucket, slot.pos] == -1
    {
      hide Consistent, AddrMan.ClearNew, Cleared, TableOf, AllSlots;
      ghost var was := Model();
      LeaveTriedKeeps(env, was, slot, {id}, {id});
      EvictionCleared(env, was, slot, id);
      var idEvict := vvTried[slot.bucket, slot.pos];
      assert idEvict in mapInfo;
      mapInfo := mapInfo[idEvict := mapInfo[idEvict].(inTried := false)];
      SetSlot(vvTried, slot, -1);
      nTried := nTried - 1;
      assert Model() == LeftTried(was, slot);
      var u := NewSlot(env, nKey, mapInfo[idEvict].service, mapInfo[idEvict].source);
      ClearNew(u, {id} + {idEvict}, {id} + {idEvict});
      assert vvNew[u.bucket, u.pos] == -1;
      EvictedFrame(was, Model(), slot, u, id);
      mapInfo := mapInfo[idEvict := mapInfo[idEvict].(refCount := 1)];
      SetSlot(vvNew, u, idEvict);
      nNew := nNew + 1;
    }

    method MakeTried(id: int)
      requires Valid() && Consistent(env, Model(), {}, {})
      requires id in mapInfo && !mapInfo[id].inTried && mapInfo[id].refCount > 0
      modifies this, vvTried, vvNew
      ensures Model() == AddrMan.MakeTried(env, old(Model()), id)
    {
      hide Consistent, AddrMan.EvictTried, AddrMan.MakeTried, Evicted, RemoveFromNew, TableOf, AllSlots, TriedSlot, EnteredTried;
      ghost var was := Model();
      KnownEnvironment(env, was, {}, {});
      MadeTried(env, was, id);
      RemoveFromNewKeeps(env, was, id);
      NewTableFacts(env, was, id);
      RemovedEntry(was, id);
      LeaveNew(id);
      nNew := nNew - 1;
      assert mapInfo[id].refCount == 0;
      assert Model() == RemoveFromNew(was, id).(nNew := was.nNew - 1);
      var slot := TriedSlot(env, nKey, mapInfo[id].service);
      if vvTried[slot.bucket, slot.pos] != -1 {
        ghost var r := Model();
        EvictTriedKeeps(env, r, slot, id);
        EvictedEntry(r, AddrMan.EvictTried(env, r, slot), slot, id);
        EvictTried(slot, id);
      }
      assert vvTried[slot.bucket, slot.pos] == -1;
      TakeTriedSlot(id, slot);
    }

    /** The last lines of MakeTried. */
    method TakeTriedSlot(id: int, slot: Slot)
      requires Valid() && id in mapInfo && InRange(vvTried, slot) && id != -1
      modifies this, vvTried
      ensures Model() == EnteredTried(old(Model()), id, slot)
    {
      SetSlot(vvTried, slot, id);
      nTried := nTried + 1;
      mapInfo := mapInfo[id := mapInfo[id].(inTried := true)];
    }

    method Good(s: Service, testBeforeEvict: bool, time: int) returns (moved: bool)
      requires Valid() && Sound(env, Model()) && time > 0
      modifies this, vvTried, vvNew
      ensures (Model(), moved) == AddrMan.Good(env, old(Model()), s, testBeforeEvict, time)
    {
      hide Consistent, QueueOk, AddrMan.MakeTried, Onward;
      ghost var was := Model();
      nLastGood := time;
      var found, id := Find(s);
      if !found {
        return false;
      }
      KnownEntry(env, was, s);
      MarkedKeeps(env, was, s, time);
      mapInfo := mapInfo[id := mapInfo[id].(lastSuccess := time, lastTry := time, attempts := 0)];
      assert Model() == Marked(was, s, time);
      if mapInfo[id].inTried {
        return false;
      }
      if mapInfo[id].refCount <= 0 {
        return false;
      }
      var slot := TriedSlot(env, nKey, mapInfo[id].service);
      if testBeforeEvict && vvTried[slot.bucket, slot.pos] != -1 {
        if |triedCollisions| < SET_TRIED_COLLISION_SIZE {
          triedCollisions := triedCollisions + {id};
        }
        return false;
      }
      MakeTried(id);
      return true;
    }

    method AddSingle(a: Address, source: nat, timePenalty: int, now: int, rnd: nat) returns (added: bool)
      requires Valid() && Sound(env, Model())
      modifies this, vvNew
      ensures (Model(), added) == AddrMan.AddSingle(env, old(Model()), a, source, timePenalty, now, rnd)
    {
      hide Consistent, QueueOk, AddrMan.AddSingle, TableOf, AllSlots;
      if !env.routable(a.service.ip) {
        NotRoutable(env, Model(), a, source, timePenalty, now, rnd);
        return false;
      }
      var found, id := Find(a.service);
      var penalty := if a.service.ip == source then 0 else timePenalty;
      if found {
        added := AddKnown(id, a, source, timePenalty, penalty, now, rnd);
      } else {
        added := AddUnknown(a, source, timePenalty, penalty, now, rnd);
      }
    }

    /** AddSingle for an address that is already known. */
    method AddKnown(id: int, a: Address, source: nat, timePenalty: int, penalty: int, now: int, rnd: nat) returns (added: bool)
      requires Valid() && Sound(env, Model()) && Found(Model(), a.service) && id == Model().addr[a.service]
      requires env.routable(a.service.ip) && penalty == if a.service.ip == source then 0 else timePenalty
      modifies this, vvNew
      ensures (Model(), added) == AddrMan.AddSingle(env, old(Model()), a, source, timePenalty, now, rnd)
    {
      hide Consistent, QueueOk, AddrMan.PlaceNew, Onward, IsTerrible, TableOf, AllSlots;
      ghost var was := Model();
      KnownEntry(env, was, a.service);
      mapInfo := mapInfo[id := Refreshed(mapInfo[id], a, penalty, now)];
      StatsUpdateKeeps(env, was, id, mapInfo[id], {}, {});
      assert Model() == Put(was, id, mapInfo[id]);
      if a.time == 0 || (mapInfo[id].time != 0 && a.time <= mapInfo[id].time) {
        return false;
      }
      if mapInfo[id].inTried || mapInfo[id].refCount == NEW_BUCKETS_PER_ADDRESS {
        return false;
      }
      var factor := 1;
      for n := 0 to mapInfo[id].refCount
        invariant factor == StochasticFactor(n)
      {
        factor := factor * 2;
      }
      if factor > 1 && rnd % factor != 0 {
        return false;
      }
      added := PlaceNew(id, {}, source, now);
    }

    /** AddSingle for a new address. */
    method AddUnknown(a: Address, source: nat, timePenalty: int, penalty: int, now: int, rnd: nat) returns (added: bool)
      requires Valid() && Sound(env, Model()) && !Found(Model(), a.service)
      requires env.routable(a.service.ip) && penalty == if a.service.ip == source then 0 else timePenalty
      modifies this, vvNew
      ensures (Model(), added) == AddrMan.AddSingle(env, old(Model()), a, source, timePenalty, now, rnd)
    {
      hide Consistent, QueueOk, AddrMan.PlaceNew, Onward, IsTerrible, TableOf, AllSlots;
      ghost var was := Model();
      UnknownAddress(env, was, a.service);
      var id := Create(a, source);
      mapInfo := mapInfo[id := mapInfo[id].(time := Max(0, a.time - penalty))];
      nNew := nNew + 1;
      IntroduceKeeps(env, was, a, source, Max(0, a.time - penalty));
      assert Model() == Introduced(was, a, source, Max(0, a.time - penalty));
      added := PlaceNew(id, {id}, source, now);
    }

    /** An entry takes a slot of new, whatever is in it. */
    method TakeNewSlot(id: int, slot: Slot, ghost loose: set<int>)
      requires Valid() && Consistent(env, Model(), loose, {}) && InRange(vvNew, slot) && id in mapInfo && !mapInfo[id].inTried && id != -1
      requires id in loose || vvNew[slot.bucket, slot.pos] != id
      modifies this, vvNew
      ensures Model() == (var c := AddrMan.ClearNew(old(Model()), slot);
                          Put(c, id, Get(c, id).(refCount := Get(c, id).refCount + 1)).(newTable := c.newTable[slot := id]))
    {
      hide Consistent, AddrMan.ClearNew, Cleared, TableOf, AllSlots;
      ClearNewKeeps(env, Model(), slot, loose, {});
      PlacedCleared(Model(), slot, id, loose);
      ClearNew(slot, loose, {});
      mapInfo := mapInfo[id := mapInfo[id].(refCount := mapInfo[id].refCount + 1)];
      SetSlot(vvNew, slot, id);
    }

    /** The second half of AddSingle. */
    method PlaceNew(id: int, ghost loose: set<int>, source: nat, now: int) returns (inserted: bool)
      requires Valid() && Consistent(env, Model(), loose, {}) && loose <= {id} && id in mapInfo && !mapInfo[id].inTried
      requires mapInfo[id].refCount < NEW_BUCKETS_PER_ADDRESS
      modifies this, vvNew
      ensures (Model(), inserted) == AddrMan.PlaceNew(env, old(Model()), id, source, now)
    {
      hide Consistent, AddrMan.ClearNew, AddrMan.Delete, IsTerrible, RandomOk, Cleared, TableOf, AllSlots, NewSlot;
      ghost var was := Model();
      PlacementFacts(env, was, id, loose);
      var slot := NewSlot(env, nKey, mapInfo[id].service, source);
      inserted := vvNew[slot.bucket, slot.pos] == -1;
      if vvNew[slot.bucket, slot.pos] != id {
        if !inserted {
          TakeSlotKeeps(env, was, slot, loose, {});
          var existing := mapInfo[vvNew[slot.bucket, slot.pos]];
          if IsTerrible(existing, now) || (existing.refCount > 1 && mapInfo[id].refCount == 0) {
            inserted := true;
          }
        }
        if inserted {
          TakeNewSlot(id, slot, loose);
        } else if mapInfo[id].refCount == 0 {
          Delete(id);
        }
      }
    }

    /** Add_: every address in turn; true when at least one was added. */
    method Add(addrs: seq<Address>, source: nat, timePenalty: int, now: int, rnd: nat -> nat) returns (any: bool)
      requires Valid() && Sound(env, Model())
      modifies this, vvNew
      ensures (Model(), any) == AddAll(env, old(Model()), addrs, source, timePenalty, now, rnd)
      ensures Sound(env, Model())
    {
      hide Sound, AddrMan.AddSingle, Onward;
      ghost var was := Model();
      any := false;
      assert addrs[..0] == [];
      for n := 0 to |addrs|
        invariant (Model(), any) == AddAll(env, was, addrs[..n], source, timePenalty, now, rnd)
        invariant Sound(env, Model())
      {
        ghost var m := Model();
        AddSingleKeeps(env, m, addrs[n], source, timePenalty, now, rnd(n));
        assert addrs[..n + 1][..n] == addrs[..n];
        var added := AddSingle(addrs[n], source, timePenalty, now, rnd(n));
        any := any || added;
      }
      assert addrs[..|addrs|] == addrs;
    }

    method Attempt(s: Service, countFailure: bool, time: int)
      requires Valid()
      modifies `mapInfo
      ensures Model() == AddrMan.Attempt(old(Model()), s, countFailure, time)
    {
      var found, id := Find(s);
      if !found {
        return;
      }
      mapInfo := mapInfo[id := mapInfo[id].(lastTry := time)];
      if countFailure && mapInfo[id].lastCountAttempt < nLastGood {
        mapInfo := mapInfo[id := mapInfo[id].(lastCountAttempt := time, attempts := mapInfo[id].attempts + 1)];
      }
      assert mapInfo == AddrMan.Attempt(old(Model()), s, countFailure, time).info;
    }

    method Connected(s: Service, time: nat)
      requires Valid()
      modifies `mapInfo
      ensures Model() == AddrMan.Connected(old(Model()), s, time)
    {
      var found, id := Find(s);
      if !found {
        return;
      }
      if time - mapInfo[id].time > 20 * 60 {
        mapInfo := mapInfo[id := mapInfo[id].(time := time)];
      }
      assert mapInfo == AddrMan.Connected(old(Model()), s, time).info;
    }

    method SetServices(s: Service, services: set<nat>)
      requires Valid()
      modifies `mapInfo
      ensures Model() == AddrMan.SetServices(old(Model()), s, services)
    {
      var found, id := Find(s);
      if found {
        mapInfo := mapInfo[id := mapInfo[id].(services := services)];
      }
    }

    /** One turn of the loop over the collision queue. */
    method ResolveOne(id: int, now: Readings)
      requires Valid() && Sound(env, Model()) && now.good > 0
      modifies this, vvTried, vvNew
      ensures Model() == AddrMan.ResolveOne(env, old(Model()), id, now)
    {
      hide Consistent, QueueOk, AddrMan.Good, TableOf, AllSlots;
      ghost var was := Model();
      var erase := false;
      if id !in mapInfo {
        erase := true;
      } else {
        var info := mapInfo[id];
        var slot := TriedSlot(env, nKey, info.service);
        if !env.valid(info.service.ip) {
          erase := true;
        } else if vvTried[slot.bucket, slot.pos] != -1 {
          var held := Get(Manager(nKey, nIdCount, mapInfo, mapAddr, vRandom, nTried, map[], nNew, map[], nLastGood, triedCollisions),
                          vvTried[slot.bucket, slot.pos]);
          if now.success - held.lastSuccess < REPLACEMENT_HOURS * HOUR {
            erase := true;
          } else if now.attempt - held.lastTry < REPLACEMENT_HOURS * HOUR {
            if now.patience - held.lastTry > 60 {
              var moved := Good(info.service, false, now.good);
              erase := true;
            }
          } else if now.window - info.lastSuccess > TEST_WINDOW {
            var moved := Good(info.service, false, now.good);
            erase := true;
          }
        } else {
          var moved := Good(info.service, false, now.good);
          erase := true;
        }
      }
      if erase {
        triedCollisions := triedCollisions - {id};
      }
    }

    /** The queue is walked in ascending order; `order` is that order. */
    method ResolveCollisions(clock: int -> Readings) returns (ghost order: seq<int>)
      requires Valid() && Sound(env, Model()) && forall id :: id in triedCollisions ==> clock(id).good > 0
      modifies this, vvTried, vvNew
      ensures Model() == ResolveAll(env, old(Model()), order, clock) && Sound(env, Model())
      ensures forall i, j :: 0 <= i < j < |order| ==> order[i] < order[j]
      ensures forall id :: id in order <==> id in old(triedCollisions)
    {
      hide Sound, AddrMan.ResolveOne, Onward;
      ghost var was := Model();
      order := [];
      var rest := triedCollisions;
      while rest != {}
        invariant Model() == ResolveAll(env, was, order, clock) && Sound(env, Model())
        invariant forall i, j :: 0 <= i < j < |order| ==> order[i] < order[j]
        invariant forall id :: id in was.collisions <==> id in order || id in rest
        invariant forall i, id :: 0 <= i < |order| && id in rest ==> order[i] < id
        decreases |rest|
      {
        ExistsLeast(rest);
        var id :| id in rest && forall o :: o in rest ==> id <= o;
        ResolveOneKeeps(env, Model(), id, clock(id));
        ResolveAllSnoc(env, was, order, id, clock);
        ResolveOne(id, clock(id));
        rest := rest - {id};
        order := order + [id];
      }
    }

    /** The id at a random position of the queue, and the tried entry it collides with. */
    method SelectTriedCollision(pick: int) returns (r: Info)
      requires Valid() && Sound(env, Model()) && (triedCollisions != {} ==> pick in triedCollisions)
      modifies `triedCollisions
      ensures (Model(), r) == AddrMan.SelectTriedCollision(env, old(Model()), pick)
      ensures old(triedCollisions) != {} && pick in mapInfo ==> r.inTried && r.service in mapAddr
    {
      if triedCollisions == {} {
        return NO_INFO;
      }
      if pick !in mapInfo {
        triedCollisions := triedCollisions - {pick};
        return NO_INFO;
      }
      QueuedCollision(env, Model(), pick);
      var slot := TriedSlot(env, nKey, mapInfo[pick].service);
      assert vvTried[slot.bucket, slot.pos] != -1;
      r := mapInfo[vvTried[slot.bucket, slot.pos]];
    }

    method GetAddr(maxAddresses: nat, maxPct: nat, picks: nat -> nat, wanted: nat -> bool, now: int) returns (got: seq<Info>)
      requires Valid() && Sound(env, Model())
      modifies `mapInfo, `vRandom
      ensures (Model(), got) == AddrMan.GetAddr(old(Model()), 0, AddrLimit(|old(vRandom)|, maxAddresses, maxPct), picks, wanted, now, [])
    {
      hide Consistent, QueueOk, AddrMan.SwapRandom, IsTerrible, Onward, RandomOk, TableOf, AddrLimit, Partner, AddrMan.GetAddr;
      ghost var was := Model();
      var limit := AddrLimit(|vRandom|, maxAddresses, maxPct);
      got := [];
      var n := 0;
      while n < |vRandom|
        invariant n <= |vRandom| == |was.random| && Sound(env, Model())
        invariant AddrMan.GetAddr(Model(), n, limit, picks, wanted, now, got) == AddrMan.GetAddr(was, 0, limit, picks, wanted, now, [])
      {
        if |got| >= limit {
          break;
        }
        var j := Partner(n, |vRandom|, picks(n));
        GetAddrStep(Model(), n, limit, picks, wanted, now, got);
        SwapSound(env, Model(), n, j);
        KnownEnv(env, Model());
        SwapRandom(n, j);
        PositionKnown(env, Model(), n);
        assert vRandom[n] in mapInfo;
        var ai := mapInfo[vRandom[n]];
        if wanted(ai.service.ip) && !IsTerrible(ai, now) {
          got := got + [ai];
        }
        n := n + 1;
      }
      GetAddrEnd(Model(), n, limit, picks, wanted, now, got);
    }
  }

  lemma GetAddrStep(m: Manager, n: nat, limit: nat, picks: nat -> nat, wanted: nat -> bool, now: int, got: seq<Info>)
    requires n < |m.random| && |got| < limit
    ensures var s := AddrMan.SwapRandom(m, n, Partner(n, |m.random|, picks(n)));
            var i := Get(s, s.random[n]);
            AddrMan.GetAddr(m, n, limit, picks, wanted, now, got)
            == AddrMan.GetAddr(s, n + 1, limit, picks, wanted, now, if wanted(i.service.ip) && !IsTerrible(i, now) then got + [i] else got)
  {
  }

  lemma GetAddrEnd(m: Manager, n: nat, limit: nat, picks: nat -> nat, wanted: nat -> bool, now: int, got: seq<Info>)
    requires n >= |m.random| || |got| >= limit
    ensures AddrMan.GetAddr(m, n, limit, picks, wanted, now, got) == (m, got)
  {
  }

  /** Add_ on values. */
  function AddAll(env: Env, m: Manager, addrs: seq<Address>, source: nat, timePenalty: int, now: int, rnd: nat -> nat): (Manager, bool)
    requires EnvOk(env)
  {
    if addrs == [] then (m, false)
    else
      var n := |addrs| - 1;
      var (r, any) := AddAll(env, m, addrs[..n], source, timePenalty, now, rnd);
      var (r', added) := AddrMan.AddSingle(env, r, addrs[n], source, timePenalty, now, rnd(n));
      (r', any || added)
  }

  lemma {:induction false} ResolveAllSnoc(env: Env, m: Manager, order: seq<int>, id: int, clock: int -> Readings)
    requires EnvOk(env)
    ensures ResolveAll(env, m, order + [id], clock) == AddrMan.ResolveOne(env, ResolveAll(env, m, order, clock), id, clock(id))
    decreases |order|
  {
    if order != [] {
      assert (order + [id])[1..] == order[1..] + [id];
      ResolveAllSnoc(env, AddrMan.ResolveOne(env, m, order[0], clock(order[0])), order[1..], id, clock);
    }
  }

  lemma {:induction false} ExistsLeast(s: set<int>)
    requires s != {}
    ensures exists x :: x in s && forall y :: y in s ==> x <= y
    decreases |s|
  {
    assert (forall a :: a !in s) ==> s == {};
    var a :| a in s;
    var t := s - {a};
    if exists b :: b in t {
      ExistsLeast(t);
      var b :| b in t && forall y :: y in t ==> b <= y;
      assert forall y :: y in s ==> y == a || y in t;
      var x := if a < b then a else b;
      assert x in s && forall y :: y in s ==> x <= y;
    } else {
      assert forall y :: y in s ==> y == a || y in t;
      assert a in s && forall y :: y in s ==> a <= y;
    }
  }

  lemma PositionKnown(env: Env, m: Manager, n: nat)
    requires Consistent(env, m, {}, {}) && n < |m.random|
    ensures m.random[n] in m.info
  {
    var id := m.random[n];
    assert id in m.info;
  }

  lemma NewTableFacts(env: Env, m: Manager, id: int)
    requires Consistent(env, m, {}, {}) && id in m.info && !m.info[id].inTried
    ensures NewOk(env, m.key, m.info, m.newTable, {}) && m.info[id].refCount == |SlotsOf(m.newTable, id)| && id >= 0
  {
  }

  lemma RemovedEntry(m: Manager, id: int)
    requires id in m.info
    ensures var r := RemoveFromNew(m, id);
            r == m.(info := m.info[id := m.info[id].(refCount := 0)], newTable := r.newTable)
  {
  }
}
