/**
 * Every operation of the address manager keeps the structures in agreement, never empties an
 * occupied tried slot, and keeps the queue of tried collisions meaningful.
 */
module AddrManOps {
  import opened Common
  import opened AddrMan
  import opened AddrManInvariant
  import opened AddrManSteps

  ghost predicate Sound(env: Env, m: Manager) {
    Consistent(env, m, {}, {}) && QueueOk(env, m)
  }

  /** Between operations: no tried slot is emptied, and ids are never handed out again. */
  ghost predicate Onward(m: Manager, m': Manager) {
    && (forall slot :: slot in m.triedTable ==> slot in m'.triedTable)
    && m.idCount <= m'.idCount && m'.key == m.key
    && (forall id :: id in m'.info && id < m.idCount ==> id in m.info && m'.info[id].service == m.info[id].service)
  }

  // ---------- MakeTried ----------

  ghost predicate Moved(m: Manager, t: Manager, id: int) {
    && (forall slot :: slot in m.triedTable ==> slot in t.triedTable)
    && (forall o :: o in t.info ==> o in m.info && t.info[o].service == m.info[o].service
                                    && (t.info[o].inTried ==> o == id || m.info[o].inTried))
    && id in t.info && t.info[id].inTried
    && t.collisions == m.collisions && t.idCount == m.idCount && t.key == m.key && t.lastGood == m.lastGood
  }

  function EnteredTried(e: Manager, id: int, slot: Slot): Manager {
    Put(e, id, Get(e, id).(inTried := true)).(triedTable := e.triedTable[slot := id], nTried := e.nTried + 1)
  }

  lemma MovedDirectly(m: Manager, id: int, slot: Slot)
    requires id in m.info
    ensures var r := RemoveFromNew(m, id);
            Moved(m, EnteredTried(r.(nNew := r.nNew - 1), id, slot), id)
  {
  }

  lemma MovedEvicting(m: Manager, e: Manager, id: int, slot: Slot)
    requires id in m.info
    requires var r := RemoveFromNew(m, id); Evicted(r.(nNew := r.nNew - 1), e, slot, id)
    ensures Moved(m, EnteredTried(e, id, slot), id)
  {
  }

  lemma MakeTriedKeeps(env: Env, m: Manager, id: int)
    requires EnvOk(env)
    requires Consistent(env, m, {}, {}) && id in m.info && !m.info[id].inTried && m.info[id].lastSuccess > 0
    ensures Consistent(env, MakeTried(env, m, id), {}, {})
    ensures Moved(m, MakeTried(env, m, id), id)
  {
    hide Consistent, EvictTried, Moved, Evicted;
    RemoveFromNewKeeps(env, m, id);
    var r := RemoveFromNew(m, id).(nNew := RemoveFromNew(m, id).nNew - 1);
    var slot := TriedSlot(env, m.key, m.info[id].service);
    assert r.info[id] == m.info[id].(refCount := 0) && r.key == m.key;
    assert {id} - {id} == {};
    if slot in r.triedTable {
      EvictTriedKeeps(env, r, slot, id);
      var e := EvictTried(env, r, slot);
      EvictedEntry(r, e, slot, id);
      EnterTriedKeeps(env, e, id, {id}, {id});
      MovedEvicting(m, e, id, slot);
    } else {
      EnterTriedKeeps(env, r, id, {id}, {id});
      MovedDirectly(m, id, slot);
    }
  }

  lemma EvictedEntry(m: Manager, e: Manager, slot: Slot, id: int)
    requires Evicted(m, e, slot, id) && id in m.info
    ensures id in e.info && e.info[id] == m.info[id].(randomPos := e.info[id].randomPos) && slot !in e.triedTable && e.key == m.key
  {
  }

  // ---------- AddSingle ----------

  /** The placement of an entry in new touches no role but its own and that of a displaced entry. */
  ghost predicate Placed(m: Manager, r: Manager) {
    && r.triedTable == m.triedTable && r.collisions == m.collisions && r.idCount == m.idCount && r.key == m.key
    && (forall o :: o in r.info ==> o in m.info && r.info[o].service == m.info[o].service && r.info[o].inTried == m.info[o].inTried)
  }

  lemma PlacedCleared(m: Manager, slot: Slot, id: int, loose: set<int>)
    requires Cleared(m, ClearNew(m, slot), slot, loose) && id in m.info && !m.info[id].inTried
    requires id in loose || !(slot in m.newTable && m.newTable[slot] == id)
    ensures var c := ClearNew(m, slot);
            && slot !in c.newTable && id in c.info && c.key == m.key
            && c.info[id] == m.info[id].(randomPos := c.info[id].randomPos)
            && Placed(m, Put(c, id, c.info[id].(refCount := c.info[id].refCount + 1)).(newTable := c.newTable[slot := id]))
  {
    hide ClearNew;
  }

  lemma PlacedSelf(m: Manager)
    ensures Placed(m, m)
  {
  }

  lemma PlacedTwice(a: Manager, b: Manager, c: Manager)
    requires Placed(a, b) && Placed(b, c)
    ensures Placed(a, c)
  {
  }

  /** A change of statistics only. */
  lemma PlacedStats(m: Manager, id: int, i: Info, lastGood: int)
    requires id in m.info && i.service == m.info[id].service && i.inTried == m.info[id].inTried
    ensures Placed(m, Put(m, id, i)) && Placed(m, Put(m.(lastGood := lastGood), id, i))
  {
  }

  lemma PlacedDeleted(m: Manager, id: int)
    requires RandomOk(m.info, m.random) && id in m.info
    ensures Placed(m, Delete(m, id))
  {
    DeleteRandom(m, id);
    hide Delete, RandomOk;
  }

  lemma InsertKeeps(env: Env, m: Manager, id: int, loose: set<int>, slot: Slot)
    requires Consistent(env, m, loose, {}) && loose <= {id} && id in m.info && !m.info[id].inTried
    requires m.info[id].refCount < NEW_BUCKETS_PER_ADDRESS && EnvOk(env)
    requires id in loose || !(slot in m.newTable && m.newTable[slot] == id)
    requires slot.bucket < env.newCount && slot == SlotInNew(env, m.key, m.info[id].service, slot.bucket)
    ensures var c := ClearNew(m, slot);
            && id in c.info
            && var r := Put(c, id, c.info[id].(refCount := c.info[id].refCount + 1)).(newTable := c.newTable[slot := id]);
               Consistent(env, r, {}, {}) && Placed(m, r)
  {
    hide Consistent, ClearNew, Placed, Cleared;
    ClearNewKeeps(env, m, slot, loose, {});
    PlacedCleared(m, slot, id, loose);
    assert loose - {id} == {};
    GiveSlotKeeps(env, ClearNew(m, slot), id, slot, loose, {});
  }

  /** The facts about a loose or newly wanted entry that its placement relies on. */
  lemma PlacementFacts(env: Env, m: Manager, id: int, loose: set<int>)
    requires Consistent(env, m, loose, {}) && loose <= {id} && id in m.info && !m.info[id].inTried
    ensures EnvOk(env) && (m.info[id].refCount == 0 <==> id in loose) && RandomOk(m.info, m.random) && id >= 0
    ensures id in loose ==> forall slot :: slot in m.newTable ==> m.newTable[slot] != id
    ensures id !in loose ==> loose == {}
  {
    if id in loose { NoSlots(env, m.key, m.info, m.newTable, loose, id); }
  }

  lemma PlaceNewKeeps(env: Env, m: Manager, id: int, loose: set<int>, source: nat, now: int)
    requires EnvOk(env)
    requires Consistent(env, m, loose, {}) && loose <= {id} && id in m.info && !m.info[id].inTried
    requires m.info[id].refCount < NEW_BUCKETS_PER_ADDRESS
    ensures Consistent(env, PlaceNew(env, m, id, source, now).0, {}, {})
    ensures Placed(m, PlaceNew(env, m, id, source, now).0)
  {
    hide Consistent, ClearNew, Delete, IsTerrible, RandomOk, Placed;
    PlacementFacts(env, m, id, loose);
    var slot := NewSlot(env, m.key, m.info[id].service, source);
    if slot in m.newTable && m.newTable[slot] == id {
      PlacedSelf(m);
    } else if PlaceNew(env, m, id, source, now).1 {
      InsertKeeps(env, m, id, loose, slot);
    } else if m.info[id].refCount == 0 {
      DeleteKeeps(env, m, id, loose, {});
      assert loose - {id} == {};
      PlacedDeleted(m, id);
    } else {
      PlacedSelf(m);
    }
  }

  /** A new entry, counted and not yet in any bucket. */
  function Introduced(m: Manager, a: Address, source: nat, time: nat): Manager {
    var c := Create(m, a, source);
    Put(c, m.idCount, Get(c, m.idCount).(time := time)).(nNew := c.nNew + 1)
  }

  lemma IntroducedIndexes(m: Manager, a: Address, source: nat, time: nat)
    requires RandomOk(m.info, m.random) && AddrOk(m.info, m.addr) && m.idCount !in m.info && a.service !in m.addr
    ensures var n := Introduced(m, a, source, time);
            RandomOk(n.info, n.random) && AddrOk(n.info, n.addr)
  {
    var n := Introduced(m, a, source, time);
    assert n.info == m.info[m.idCount := n.info[m.idCount]] && n.info[m.idCount].service == a.service;
  }

  lemma IntroducedTables(env: Env, key: nat, info: map<int, Info>, tried: Table, table: Table, id: int, i: Info)
    requires EnvOk(env) && TriedOk(env, key, info, tried) && NewOk(env, key, info, table, {}) && id !in info
    requires !i.inTried && i.refCount == 0
    ensures TriedOk(env, key, info[id := i], tried) && NewOk(env, key, info[id := i], table, {id})
  {
    assert forall slot :: slot !in SlotsOf(table, id);
    assert SlotsOf(table, id) == {};
  }

  lemma IntroducedCounts(info: map<int, Info>, id: int, i: Info, nTried: int, nNew: int)
    requires CountsOk(info, nTried, nNew, {}) && id !in info && !i.inTried
    ensures CountsOk(info[id := i], nTried, nNew + 1, {})
  {
    var info' := info[id := i];
    assert forall o :: o in TriedIds(info') <==> o in TriedIds(info);
    assert TriedIds(info') == TriedIds(info);
    assert forall o :: o in NewIds(info') - {} <==> o in (NewIds(info) - {}) + {id};
    assert NewIds(info') - {} == (NewIds(info) - {}) + {id};
  }

  lemma IntroducedFrame(m: Manager, a: Address, source: nat, time: nat)
    ensures var n, id := Introduced(m, a, source, time), m.idCount;
            var i := NO_INFO.(service := a.service, time := time, services := a.services, source := source, randomPos := |m.random|);
            n == m.(idCount := id + 1, info := m.info[id := i], addr := m.addr[a.service := id], random := m.random + [id], nNew := m.nNew + 1)
  {
    var n, id := Introduced(m, a, source, time), m.idCount;
    var i := NO_INFO.(service := a.service, time := time, services := a.services, source := source, randomPos := |m.random|);
    assert forall o :: o in n.info <==> o in m.info[id := i];
    assert n.info == m.info[id := i];
  }

  lemma FreshId(env: Env, m: Manager)
    requires Consistent(env, m, {}, {})
    ensures m.idCount !in m.info && EnvOk(env)
  {
  }

  lemma IntroducedEntries(env: Env, info: map<int, Info>, id: int, i: Info)
    requires EntriesOk(env, info, id) && id >= 0 && i.lastTry >= 0 && i.lastSuccess >= 0 && env.routable(i.service.ip)
    ensures EntriesOk(env, info[id := i], id + 1)
  {
  }

  lemma IntroduceKeeps(env: Env, m: Manager, a: Address, source: nat, time: nat)
    requires Consistent(env, m, {}, {}) && a.service !in m.addr && env.routable(a.service.ip) && m.idCount >= 0
    ensures Consistent(env, Introduced(m, a, source, time), {m.idCount}, {})
  {
    hide RandomOk, AddrOk, TriedOk, NewOk, CountsOk, EntriesOk, Introduced;
    var id := m.idCount;
    FreshId(env, m);
    IntroducedFrame(m, a, source, time);
    var i := Introduced(m, a, source, time).info[id];
    IntroducedIndexes(m, a, source, time);
    IntroducedTables(env, m.key, m.info, m.triedTable, m.newTable, id, i);
    IntroducedCounts(m.info, id, i, m.nTried, m.nNew);
    IntroducedEntries(env, m.info, id, i);
  }

  lemma PlacedQueue(env: Env, m: Manager, r: Manager)
    requires EnvOk(env) && QueueOk(env, m) && Placed(m, r)
    ensures QueueOk(env, r)
  {
  }

  lemma PlacedOnward(m: Manager, r: Manager)
    requires Placed(m, r)
    ensures Onward(m, r)
  {
  }

  lemma RefreshedRole(i: Info, a: Address, penalty: int, now: int)
    ensures var r := Refreshed(i, a, penalty, now);
            r == i.(time := r.time, services := r.services)
  {
  }

  lemma AddKnownKeeps(env: Env, m: Manager, a: Address, source: nat, penalty: int, now: int, rnd: nat)
    requires EnvOk(env) && Sound(env, m) && Found(m, a.service)
    ensures var id := m.addr[a.service];
            && id in m.info
            && var i := Refreshed(m.info[id], a, penalty, now);
               var r := if WantsAnotherSlot(i, a, rnd) then PlaceNew(env, Put(m, id, i), id, source, now).0 else Put(m, id, i);
               Sound(env, r) && Onward(m, r)
  {
    hide Consistent, PlaceNew, Refreshed, Placed, QueueOk, Onward;
    KnownEntry(env, m, a.service);
    var id := m.addr[a.service];
    RefreshedRole(m.info[id], a, penalty, now);
    var i := Refreshed(m.info[id], a, penalty, now);
    var u := Put(m, id, i);
    StatsUpdateKeeps(env, m, id, i, {}, {});
    PlacedStats(m, id, i, 0);
    var r := if WantsAnotherSlot(i, a, rnd) then PlaceNew(env, u, id, source, now).0 else u;
    if WantsAnotherSlot(i, a, rnd) {
      PlaceNewKeeps(env, u, id, {}, source, now);
      PlacedTwice(m, u, r);
    }
    PlacedQueue(env, m, r);
    PlacedOnward(m, r);
  }

  lemma IntroducedOnward(env: Env, m: Manager, a: Address, source: nat, time: nat)
    requires EnvOk(env) && QueueOk(env, m) && m.idCount !in m.info
    ensures var n := Introduced(m, a, source, time);
            && QueueOk(env, n) && Onward(m, n) && m.idCount in n.info
            && !n.info[m.idCount].inTried && n.info[m.idCount].refCount == 0
  {
    hide Introduced;
    IntroducedFrame(m, a, source, time);
  }

  lemma UnknownAddress(env: Env, m: Manager, s: Service)
    requires Consistent(env, m, {}, {}) && !Found(m, s)
    ensures s !in m.addr && m.idCount >= 0
  {
  }

  lemma AddUnknownKeeps(env: Env, m: Manager, a: Address, source: nat, time: nat, now: int)
    requires EnvOk(env) && Sound(env, m) && !Found(m, a.service) && env.routable(a.service.ip)
    ensures var r := PlaceNew(env, Introduced(m, a, source, time), m.idCount, source, now).0;
            Sound(env, r) && Onward(m, r)
  {
    hide Consistent, PlaceNew, Introduced, QueueOk, Onward, Placed;
    UnknownAddress(env, m, a.service);
    FreshId(env, m);
    IntroduceKeeps(env, m, a, source, time);
    IntroducedOnward(env, m, a, source, time);
    var n := Introduced(m, a, source, time);
    PlaceNewKeeps(env, n, m.idCount, {m.idCount}, source, now);
    var r := PlaceNew(env, n, m.idCount, source, now).0;
    PlacedQueue(env, n, r);
    PlacedOnward(n, r);
    OnwardTwice(m, n, r);
  }

  lemma AddSingleKeeps(env: Env, m: Manager, a: Address, source: nat, timePenalty: int, now: int, rnd: nat)
    requires EnvOk(env) && Sound(env, m)
    ensures var r := AddSingle(env, m, a, source, timePenalty, now, rnd).0;
            Sound(env, r) && Onward(m, r)
  {
    hide Sound, PlaceNew, Refreshed, WantsAnotherSlot;
    var penalty := if a.service.ip == source then 0 else timePenalty;
    if env.routable(a.service.ip) {
      if Found(m, a.service) {
        AddKnownKeeps(env, m, a, source, penalty, now, rnd);
      } else {
        AddUnknownKeeps(env, m, a, source, Max(0, a.time - penalty), now);
      }
    }
  }

  lemma KnownEntry(env: Env, m: Manager, s: Service)
    requires Consistent(env, m, {}, {}) && Found(m, s)
    ensures var id := m.addr[s];
            && id in m.info && m.info[id].service == s && m.info[id].lastTry >= 0 && m.info[id].lastSuccess >= 0
            && (m.info[id].inTried ==> m.info[id].lastSuccess > 0)
            && 0 <= m.info[id].refCount <= NEW_BUCKETS_PER_ADDRESS && (m.info[id].inTried || m.info[id].refCount > 0)
            && 0 <= id < m.idCount && env.routable(s.ip)
  {
  }

  // ---------- Good ----------

  /** The entry a peer proved good, with its statistics updated. */
  function Marked(m: Manager, s: Service, time: int): Manager
    requires Found(m, s)
  {
    var id := m.addr[s];
    Put(m.(lastGood := time), id, m.info[id].(lastSuccess := time, lastTry := time, attempts := 0))
  }

  lemma MarkedKeeps(env: Env, m: Manager, s: Service, time: int)
    requires Sound(env, m) && Found(m, s) && time > 0
    ensures Sound(env, Marked(m, s, time)) && Onward(m, Marked(m, s, time))
  {
    hide Consistent, QueueOk, Placed, Onward;
    KnownEntry(env, m, s);
    var id := m.addr[s];
    var i := m.info[id].(lastSuccess := time, lastTry := time, attempts := 0);
    StatsUpdateKeeps(env, m, id, i, {}, {});
    LastGoodKeeps(env, Put(m, id, i), time);
    PlacedStats(m, id, i, time);
    KnownEnv(env, m);
    PlacedQueue(env, m, Marked(m, s, time));
    PlacedOnward(m, Marked(m, s, time));
  }

  lemma KnownEnv(env: Env, m: Manager)
    requires Consistent(env, m, {}, {})
    ensures EnvOk(env) && RandomOk(m.info, m.random)
  {
  }

  lemma MovedOnward(m: Manager, t: Manager, id: int)
    requires Moved(m, t, id)
    ensures Onward(m, t)
  {
  }

  /** The move into tried: sound, except that the moved id must not be queued any more. */
  lemma MoveKeeps(env: Env, m: Manager, id: int)
    requires EnvOk(env) && Sound(env, m) && id in m.info && !m.info[id].inTried && m.info[id].lastSuccess > 0
    ensures var t := MakeTried(env, m, id);
            && Consistent(env, t, {}, {}) && Onward(m, t) && id in t.info && t.info[id].inTried
            && QueueOk(env, t.(collisions := t.collisions - {id}))
            && (id !in m.collisions ==> QueueOk(env, t))
  {
    hide Consistent, MakeTried;
    MakeTriedKeeps(env, m, id);
    MovedQueue(env, m, MakeTried(env, m, id), id);
    MovedOnward(m, MakeTried(env, m, id), id);
  }

  /** Good_ in general: sound once the id it may have moved is out of the queue. */
  lemma GoodKeeps(env: Env, m: Manager, s: Service, testBeforeEvict: bool, time: int)
    requires EnvOk(env) && Sound(env, m) && time > 0
    ensures var g := Good(env, m, s, testBeforeEvict, time);
            && Consistent(env, g.0, {}, {}) && Onward(m, g.0)
            && (testBeforeEvict ==> QueueOk(env, g.0))
            && (Found(m, s) ==> QueueOk(env, g.0.(collisions := g.0.collisions - {m.addr[s]})))
            && (g.1 ==> Found(m, s))
            && (Found(m, s) ==> m.addr[s] in g.0.info && (g.0.info[m.addr[s]].inTried <==> m.info[m.addr[s]].inTried || g.1))
  {
    if Found(m, s) {
      KnownEntry(env, m, s);
      MarkedKeeps(env, m, s, time);
      hide Consistent, MakeTried, QueueOk;
      GoodFound(env, m, s, testBeforeEvict, time);
    } else {
      LastGoodKeeps(env, m, time);
    }
  }

  lemma GoodFound(env: Env, m: Manager, s: Service, testBeforeEvict: bool, time: int)
    requires EnvOk(env) && time > 0 && Found(m, s) && Sound(env, m) && Sound(env, Marked(m, s, time)) && Onward(m, Marked(m, s, time))
    requires m.info[m.addr[s]].service == s && 0 <= m.addr[s] < m.idCount
    requires m.info[m.addr[s]].inTried || m.info[m.addr[s]].refCount > 0
    ensures var g, id := Good(env, m, s, testBeforeEvict, time), m.addr[s];
            && Consistent(env, g.0, {}, {}) && Onward(m, g.0)
            && (testBeforeEvict ==> QueueOk(env, g.0))
            && QueueOk(env, g.0.(collisions := g.0.collisions - {id}))
            && id in g.0.info && (g.0.info[id].inTried <==> m.info[id].inTried || g.1)
  {
    hide Consistent, QueueOk, MakeTried, Onward;
    var id, u := m.addr[s], Marked(m, s, time);
    QueueShrinks(env, u, id);
    if u.info[id].inTried {
    } else if testBeforeEvict && TriedSlot(env, m.key, s) in m.triedTable {
      QueueGrows(env, u, id);
      var q := if |m.collisions| < SET_TRIED_COLLISION_SIZE then m.collisions + {id} else m.collisions;
      QueueIrrelevant(env, u, q);
      OnwardAlso(m, u, q);
    } else {
      NotQueued(env, m, id);
      MoveKeeps(env, u, id);
      OnwardTwice(m, u, MakeTried(env, u, id));
    }
  }

  /** An entry whose tried slot is free is not queued. */
  lemma NotQueued(env: Env, m: Manager, id: int)
    requires EnvOk(env) && QueueOk(env, m) && id in m.info
    ensures TriedSlot(env, m.key, m.info[id].service) !in m.triedTable ==> id !in m.collisions
  {
  }

  lemma OnwardTwice(a: Manager, b: Manager, c: Manager)
    requires Onward(a, b) && Onward(b, c)
    ensures Onward(a, c)
  {
  }

  lemma QueueShrinks(env: Env, m: Manager, id: int)
    requires EnvOk(env) && QueueOk(env, m)
    ensures QueueOk(env, m.(collisions := m.collisions - {id}))
  {
    SubsetSize(m.collisions - {id}, m.collisions);
  }

  lemma LastGoodKeeps(env: Env, m: Manager, time: int)
    requires Consistent(env, m, {}, {})
    ensures Consistent(env, m.(lastGood := time), {}, {})
  {
  }

  lemma QueueGrows(env: Env, m: Manager, id: int)
    requires EnvOk(env) && QueueOk(env, m) && id in m.info && !m.info[id].inTried && 0 <= id < m.idCount
    requires TriedSlot(env, m.key, m.info[id].service) in m.triedTable
    ensures var q := if |m.collisions| < SET_TRIED_COLLISION_SIZE then m.collisions + {id} else m.collisions;
            QueueOk(env, m.(collisions := q)) && QueueOk(env, m.(collisions := q - {id}))
  {
    var q := if |m.collisions| < SET_TRIED_COLLISION_SIZE then m.collisions + {id} else m.collisions;
    SubsetSize(q - {id}, q);
  }

  lemma MovedQueue(env: Env, m: Manager, t: Manager, id: int)
    requires EnvOk(env) && QueueOk(env, m) && Moved(m, t, id)
    ensures QueueOk(env, t.(collisions := t.collisions - {id}))
    ensures id !in m.collisions ==> QueueOk(env, t)
  {
    SubsetSize(t.collisions - {id}, t.collisions);
  }

  // ---------- the collision queue ----------

  lemma ReplaceKeeps(env: Env, m: Manager, id: int, now: int)
    requires EnvOk(env) && Sound(env, m) && now > 0 && id in m.info
    ensures var g := Good(env, m, m.info[id].service, false, now).0;
            Sound(env, g.(collisions := g.collisions - {id})) && Onward(m, g) && g.collisions == m.collisions
  {
    var s := m.info[id].service;
    assert Found(m, s) && m.addr[s] == id;
    GoodCollisions(env, m, s, now);
    GoodKeeps(env, m, s, false, now);
    hide Good, QueueOk;
    var g := Good(env, m, s, false, now).0;
    QueueIrrelevant(env, g, g.collisions - {id});
  }

  lemma ResolveOneKeeps(env: Env, m: Manager, id: int, now: Readings)
    requires EnvOk(env) && Sound(env, m) && now.good > 0
    ensures Sound(env, ResolveOne(env, m, id, now)) && Onward(m, ResolveOne(env, m, id, now))
    ensures ResolveOne(env, m, id, now).collisions <= m.collisions
  {
    match Decide(env, m, id, now)
    case Keep =>
    case Erase =>
      hide Consistent, QueueOk;
      QueueShrinks(env, m, id);
      QueueIrrelevant(env, m, m.collisions - {id});
    case Replace =>
      assert id in m.info;
      hide Sound, Good;
      ReplaceKeeps(env, m, id, now.good);
      var g := Good(env, m, m.info[id].service, false, now.good).0;
      OnwardAlso(m, g, g.collisions - {id});
  }

  lemma OnwardAlso(m: Manager, g: Manager, q: set<int>)
    requires Onward(m, g)
    ensures Onward(m, g.(collisions := q))
  {
  }

  lemma QueueIrrelevant(env: Env, m: Manager, q: set<int>)
    requires Consistent(env, m, {}, {})
    ensures Consistent(env, m.(collisions := q), {}, {})
  {
  }

  lemma GoodCollisions(env: Env, m: Manager, s: Service, time: int)
    requires EnvOk(env)
    ensures Good(env, m, s, false, time).0.collisions == m.collisions
  {
  }

  lemma {:induction false} ResolveAllKeeps(env: Env, m: Manager, order: seq<int>, clock: int -> Readings)
    requires EnvOk(env) && Sound(env, m) && forall id :: id in order ==> clock(id).good > 0
    ensures Sound(env, ResolveAll(env, m, order, clock)) && Onward(m, ResolveAll(env, m, order, clock))
    decreases |order|
  {
    hide Sound, ResolveOne;
    if order != [] {
      ResolveOneKeeps(env, m, order[0], clock(order[0]));
      ResolveAllKeeps(env, ResolveOne(env, m, order[0], clock(order[0])), order[1..], clock);
    }
  }

  /**
   * A queued id that is still known always has somebody to test: its tried slot is occupied by
   * another, known, tried entry.  So the lookup of id -1 cannot happen, and neither can the
   * branch for a collision that is not one any more.
   */
  lemma QueuedCollision(env: Env, m: Manager, id: int)
    requires Sound(env, m) && id in m.collisions && id in m.info
    ensures var slot := TriedSlot(env, m.key, m.info[id].service);
            && slot in m.triedTable && m.triedTable[slot] != id && m.triedTable[slot] != -1
            && m.triedTable[slot] in m.info && m.info[m.triedTable[slot]].inTried
    ensures env.valid(m.info[id].service.ip)
    ensures SelectTriedCollision(env, m, id).0 == m && SelectTriedCollision(env, m, id).1.inTried
  {
    var slot := TriedSlot(env, m.key, m.info[id].service);
    var held := m.triedTable[slot];
    assert held in m.info && m.info[held].inTried && 0 <= held;
  }

  lemma SelectTriedCollisionKeeps(env: Env, m: Manager, pick: int)
    requires Sound(env, m)
    ensures var r := SelectTriedCollision(env, m, pick).0;
            Sound(env, r) && Onward(m, r)
  {
    hide Consistent, QueueOk, Onward, TriedSlot;
    KnownEnv(env, m);
    SameOnward(m);
    Dequeued(env, m, pick);
  }

  lemma Dequeued(env: Env, m: Manager, pick: int)
    requires Sound(env, m)
    ensures var r := m.(collisions := m.collisions - {pick});
            Sound(env, r) && Onward(m, r)
  {
    SubsetSize(m.collisions - {pick}, m.collisions);
    QueueIrrelevant(env, m, m.collisions - {pick});
  }

  // ---------- the statistics ----------

  lemma StatsKeep(env: Env, m: Manager, s: Service, i: Info)
    requires Sound(env, m) && Found(m, s)
    requires var held := m.info[m.addr[s]];
             SameRole(held, i) && i.randomPos == held.randomPos && i.lastSuccess == held.lastSuccess && i.lastTry >= 0
    ensures Sound(env, Put(m, m.addr[s], i)) && Onward(m, Put(m, m.addr[s], i))
  {
    KnownEntry(env, m, s);
    StatsUpdateKeeps(env, m, m.addr[s], i, {}, {});
    assert Placed(m, Put(m, m.addr[s], i));
    PlacedQueue(env, m, Put(m, m.addr[s], i));
  }

  lemma SameOnward(m: Manager)
    ensures Onward(m, m)
  {
  }

  lemma StatisticsKeep(env: Env, m: Manager, s: Service, countFailure: bool, time: nat, services: set<nat>)
    requires Sound(env, m)
    ensures Sound(env, Attempt(m, s, countFailure, time)) && Onward(m, Attempt(m, s, countFailure, time))
    ensures Sound(env, Connected(m, s, time)) && Onward(m, Connected(m, s, time))
    ensures Sound(env, SetServices(m, s, services)) && Onward(m, SetServices(m, s, services))
  {
    hide Consistent, QueueOk, Onward;
    if Found(m, s) {
      KnownEntry(env, m, s);
      var id := m.addr[s];
      StatsKeep(env, m, s, Attempt(m, s, countFailure, time).info[id]);
      StatsKeep(env, m, s, Connected(m, s, time).info[id]);
      StatsKeep(env, m, s, SetServices(m, s, services).info[id]);
    } else {
      SameOnward(m);
    }
  }

  // ---------- GetAddr ----------

  lemma SwapSound(env: Env, m: Manager, i: nat, j: nat)
    requires Sound(env, m) && i < |m.random| && j < |m.random|
    ensures Sound(env, SwapRandom(m, i, j)) && Onward(m, SwapRandom(m, i, j))
  {
    hide SwapRandom, Consistent, QueueOk, RandomOk, Onward;
    KnownEnv(env, m);
    SwapRandomOk(m, i, j);
    SwapRandomKeeps(env, m, i, j, {}, {});
    assert Placed(m, SwapRandom(m, i, j));
    PlacedQueue(env, m, SwapRandom(m, i, j));
    PlacedOnward(m, SwapRandom(m, i, j));
  }

  /** The same entry, wherever it stands in vRandom. */
  predicate SameEntry(a: Info, b: Info) {
    a == b.(randomPos := a.randomPos)
  }

  ghost predicate SameEntries(m: Manager, m': Manager) {
    (forall id :: id in m.info <==> id in m'.info) && forall id :: id in m.info ==> SameEntry(m'.info[id], m.info[id])
  }

  /** GetAddr_ hands out an entry of the wanted network that is not terrible. */
  predicate Offered(i: Info, now: int, wanted: nat -> bool) {
    wanted(i.service.ip) && !IsTerrible(i, now)
  }

  /** The entry sits among the first n of vRandom. */
  ghost predicate InPrefix(m: Manager, n: nat, i: Info) {
    exists p :: 0 <= p < n && p < |m.random| && var id := m.random[p]; id in m.info && SameEntry(i, m.info[id])
  }

  ghost predicate Has(got: seq<Info>, i: Info) {
    exists k :: 0 <= k < |got| && SameEntry(got[k], i)
  }

  /** What has been gathered: entries on offer among the first n, and no address twice. */
  ghost predicate Gathered(m: Manager, n: nat, got: seq<Info>, now: int, wanted: nat -> bool) {
    && (forall k :: 0 <= k < |got| ==> Offered(got[k], now, wanted) && InPrefix(m, n, got[k]))
    && (forall j, k :: 0 <= j < k < |got| ==> got[j].service != got[k].service)
  }

  /** Nothing on offer among the first n has been missed. */
  ghost predicate NothingMissed(m: Manager, n: nat, got: seq<Info>, now: int, wanted: nat -> bool) {
    forall p :: 0 <= p < n && p < |m.random| ==>
      var id := m.random[p]; id in m.info && Offered(m.info[id], now, wanted) ==> Has(got, m.info[id])
  }

  lemma SwapPrefix(m: Manager, n: nat, j: nat)
    requires RandomOk(m.info, m.random) && n <= j < |m.random|
    ensures var r := SwapRandom(m, n, j);
            && SameEntries(m, r) && |r.random| == |m.random|
            && forall p :: 0 <= p < n ==> r.random[p] == m.random[p]
  {
    SwapRandomOk(m, n, j);
  }

  lemma NextNotInPrefix(m: Manager, n: nat, i: Info)
    requires RandomOk(m.info, m.random) && AddrOk(m.info, m.addr) && n < |m.random| && InPrefix(m, n, i)
    ensures i.service != Get(m, m.random[n]).service
  {
    var p :| 0 <= p < n && p < |m.random| && var id := m.random[p]; id in m.info && SameEntry(i, m.info[id]);
    var a, b := m.random[p], m.random[n];
    assert m.info[a].randomPos == p && b in m.info && m.info[b].randomPos == n;
  }

  lemma KnownIndexes(env: Env, m: Manager)
    requires Consistent(env, m, {}, {})
    ensures RandomOk(m.info, m.random) && AddrOk(m.info, m.addr)
  {
  }

  /** The prefix of the shuffled list looks the same after the next swap. */
  lemma PrefixKept(m: Manager, s: Manager, n: nat, i: Info)
    requires SameEntries(m, s) && |s.random| == |m.random| && n < |m.random|
    requires forall p :: 0 <= p < n ==> s.random[p] == m.random[p]
    ensures InPrefix(m, n, i) ==> InPrefix(s, n, i) && InPrefix(s, n + 1, i)
  {
    if InPrefix(m, n, i) {
      var p :| 0 <= p < n && p < |m.random| && var id := m.random[p]; id in m.info && SameEntry(i, m.info[id]);
      var id := s.random[p];
      assert id in s.info && SameEntry(i, s.info[id]);
    }
  }

  lemma GatherMore(m: Manager, s: Manager, n: nat, got: seq<Info>, now: int, wanted: nat -> bool)
    requires Gathered(m, n, got, now, wanted) && RandomOk(s.info, s.random) && AddrOk(s.info, s.addr) && n < |s.random|
    requires forall x :: InPrefix(m, n, x) ==> InPrefix(s, n, x) && InPrefix(s, n + 1, x)
    ensures var i := Get(s, s.random[n]);
            Gathered(s, n + 1, if Offered(i, now, wanted) then got + [i] else got, now, wanted)
  {
    hide RandomOk, AddrOk, InPrefix, Offered, Get;
    var i := Get(s, s.random[n]);
    MetNow(s, n);
    forall k | 0 <= k < |got| ensures got[k].service != i.service {
      NextNotInPrefix(s, n, got[k]);
    }
  }

  lemma MetNow(m: Manager, n: nat)
    requires RandomOk(m.info, m.random) && n < |m.random|
    ensures InPrefix(m, n + 1, Get(m, m.random[n]))
  {
    var id := m.random[n];
    assert id in m.info;
  }

  lemma NothingMissedNext(m: Manager, s: Manager, n: nat, got: seq<Info>, now: int, wanted: nat -> bool)
    requires NothingMissed(m, n, got, now, wanted) && SameEntries(m, s) && |s.random| == |m.random| && n < |m.random|
    requires forall p :: 0 <= p < n ==> s.random[p] == m.random[p]
    ensures var i := Get(s, s.random[n]);
            NothingMissed(s, n + 1, if Offered(i, now, wanted) then got + [i] else got, now, wanted)
  {
    hide IsTerrible;
    var i := Get(s, s.random[n]);
    var got' := if Offered(i, now, wanted) then got + [i] else got;
    forall p | 0 <= p < n + 1 && s.random[p] in s.info && Offered(s.info[s.random[p]], now, wanted) ensures Has(got', s.info[s.random[p]]) {
      var id := s.random[p];
      if p < n {
        assert id == m.random[p] && id in m.info && SameEntry(s.info[id], m.info[id]);
        SameOffer(s.info[id], m.info[id], now, wanted);
        assert Has(got, m.info[id]);
        var k :| 0 <= k < |got| && SameEntry(got[k], m.info[id]);
        assert SameEntry(got'[k], s.info[id]);
      } else {
        assert i == s.info[id] && SameEntry(got'[|got|], s.info[id]);
      }
    }
  }

  lemma SameOffer(a: Info, b: Info, now: int, wanted: nat -> bool)
    requires SameEntry(a, b)
    ensures Offered(a, now, wanted) <==> Offered(b, now, wanted)
  {
  }

  lemma GatherOne(env: Env, m: Manager, n: nat, j: nat, got: seq<Info>, now: int, wanted: nat -> bool)
    requires Consistent(env, m, {}, {}) && n <= j < |m.random| && Gathered(m, n, got, now, wanted) && NothingMissed(m, n, got, now, wanted)
    ensures var s := SwapRandom(m, n, j);
            var i := Get(s, s.random[n]);
            var got' := if Offered(i, now, wanted) then got + [i] else got;
            Gathered(s, n + 1, got', now, wanted) && NothingMissed(s, n + 1, got', now, wanted) && SameEntries(m, s)
  {
    hide Consistent, SwapRandom, Offered, RandomOk, AddrOk, InPrefix, Gathered, NothingMissed, Get, SameEntries;
    SwapRandomKeeps(env, m, n, j, {}, {});
    KnownIndexes(env, m);
    KnownIndexes(env, SwapRandom(m, n, j));
    SwapPrefix(m, n, j);
    forall x ensures InPrefix(m, n, x) ==> InPrefix(SwapRandom(m, n, j), n, x) && InPrefix(SwapRandom(m, n, j), n + 1, x) {
      PrefixKept(m, SwapRandom(m, n, j), n, x);
    }
    GatherMore(m, SwapRandom(m, n, j), n, got, now, wanted);
    NothingMissedNext(m, SwapRandom(m, n, j), n, got, now, wanted);
  }

  lemma SameEntriesTwice(a: Manager, b: Manager, c: Manager)
    requires SameEntries(a, b) && SameEntries(b, c)
    ensures SameEntries(a, c)
  {
  }

  lemma SameEntriesSelf(m: Manager)
    ensures SameEntries(m, m)
  {
  }

  /**
   * GetAddr_: only vRandom changes; the result holds at most `limit` entries, all on offer, all
   * known, and no address twice.  If it holds fewer than `limit`, or the limit is no limit,
   * nothing on offer is missing.
   */
  lemma {:induction false} GetAddrKeeps(env: Env, m: Manager, n: nat, limit: nat, picks: nat -> nat, wanted: nat -> bool, now: int, got: seq<Info>)
    requires EnvOk(env) && Sound(env, m) && Gathered(m, n, got, now, wanted) && NothingMissed(m, n, got, now, wanted)
    requires |got| <= limit && |got| <= n
    ensures var r := GetAddr(m, n, limit, picks, wanted, now, got);
            && Sound(env, r.0) && Onward(m, r.0) && SameEntries(m, r.0) && |r.0.random| == |m.random|
            && |r.1| <= limit && Gathered(r.0, |r.0.random|, r.1, now, wanted)
            && (|r.1| < limit || limit >= |m.random| ==> NothingMissed(r.0, |r.0.random|, r.1, now, wanted))
    decreases |m.random| - n
  {
    hide Consistent, QueueOk, Gathered, NothingMissed, SwapRandom, IsTerrible, Onward, Partner, SameEntries;
    if n < |m.random| && |got| < limit {
      var j := Partner(n, |m.random|, picks(n));
      SwapSound(env, m, n, j);
      GatherOne(env, m, n, j, got, now, wanted);
      var s := SwapRandom(m, n, j);
      var i := Get(s, s.random[n]);
      var got' := if Offered(i, now, wanted) then got + [i] else got;
      GetAddrKeeps(env, s, n + 1, limit, picks, wanted, now, got');
      var r := GetAddr(m, n, limit, picks, wanted, now, got).0;
      OnwardTwice(m, s, r);
      SameEntriesTwice(m, s, r);
    } else {
      GatheredWider(m, n, got, now, wanted);
      PlacedSelf(m);
      PlacedOnward(m, m);
      SameEntriesSelf(m);
    }
  }

  lemma GatheredWider(m: Manager, n: nat, got: seq<Info>, now: int, wanted: nat -> bool)
    requires Gathered(m, n, got, now, wanted)
    ensures Gathered(m, |m.random|, got, now, wanted)
    ensures n >= |m.random| && NothingMissed(m, n, got, now, wanted) ==> NothingMissed(m, |m.random|, got, now, wanted)
  {
    hide IsTerrible;
    forall k | 0 <= k < |got| ensures InPrefix(m, |m.random|, got[k]) {
      assert InPrefix(m, n, got[k]);
      var p :| 0 <= p < n && p < |m.random| && var id := m.random[p]; id in m.info && SameEntry(got[k], m.info[id]);
    }
  }

  /** Exactly one of the gathered entries has this address. */
  ghost predicate Once(got: seq<Info>, i: Info) {
    Has(got, i) && forall j, k :: 0 <= j < |got| && 0 <= k < |got| && got[j].service == i.service && got[k].service == i.service ==> j == k
  }

  /**
   * Without a limit, or when fewer than the limit come back, GetAddr_ returns every entry on
   * offer exactly once, and in any case nothing else.
   */
  lemma GetAddrComplete(env: Env, m: Manager, maxAddresses: nat, maxPct: nat, picks: nat -> nat, wanted: nat -> bool, now: int)
    requires EnvOk(env) && Sound(env, m)
    ensures var limit := AddrLimit(|m.random|, maxAddresses, maxPct);
            var got := GetAddr(m, 0, limit, picks, wanted, now, []).1;
            && |got| <= limit
            && (forall k :: 0 <= k < |got| ==> Offered(got[k], now, wanted) && exists id :: id in m.info && SameEntry(got[k], m.info[id]))
            && ((maxAddresses == 0 && maxPct == 0) || |got| < limit ==>
                  forall id :: id in m.info && Offered(m.info[id], now, wanted) ==> Once(got, m.info[id]))
  {
    hide Consistent, QueueOk, Onward, IsTerrible, RandomOk, AddrLimit, GetAddr, Has;
    var limit := AddrLimit(|m.random|, maxAddresses, maxPct);
    var (r, got) := GetAddr(m, 0, limit, picks, wanted, now, []);
    GetAddrKeeps(env, m, 0, limit, picks, wanted, now, []);
    NoLimit(|m.random|);
    KnownIndexes(env, r);
    forall k | 0 <= k < |got| ensures exists id :: id in m.info && SameEntry(got[k], m.info[id]) {
      assert InPrefix(r, |r.random|, got[k]);
      var p :| 0 <= p < |r.random| && var id := r.random[p]; id in r.info && SameEntry(got[k], r.info[id]);
      assert SameEntry(got[k], m.info[r.random[p]]);
    }
    if (maxAddresses == 0 && maxPct == 0) || |got| < limit {
      forall id | id in m.info && Offered(m.info[id], now, wanted) ensures Once(got, m.info[id]) {
        SameOffer(r.info[id], m.info[id], now, wanted);
        PositionOf(r.info, r.random, id);
        var p := r.info[id].randomPos;
        assert r.random[p] == id && Has(got, r.info[id]);
        SameHas(got, r.info[id], m.info[id]);
      }
    }
  }

  lemma NoLimit(size: nat)
    ensures AddrLimit(size, 0, 0) == size
  {
  }

  lemma SameHas(got: seq<Info>, a: Info, b: Info)
    requires SameEntry(a, b) && Has(got, a)
    ensures Has(got, b)
  {
    var k :| 0 <= k < |got| && SameEntry(got[k], a);
    assert SameEntry(got[k], b);
  }
}
