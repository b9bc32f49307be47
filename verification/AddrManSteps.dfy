/** Slots given and taken: ClearNew, MakeTried with its eviction, and placement in new. */
module AddrManSteps {
  import opened AddrMan
  import opened AddrManInvariant

  // ---------- one entry changes ----------

  /** Replacing an entry by one with the same address and position leaves the indexes alone. */
  lemma IndexesKeep(env: Env, m: Manager, id: int, i: Info)
    requires RandomOk(m.info, m.random) && AddrOk(m.info, m.addr) && EntriesOk(env, m.info, m.idCount) && id in m.info
    requires i.service == m.info[id].service && i.randomPos == m.info[id].randomPos && i.lastTry >= 0 && i.lastSuccess >= 0
    ensures RandomOk(m.info[id := i], m.random) && AddrOk(m.info[id := i], m.addr) && EntriesOk(env, m.info[id := i], m.idCount)
  {
  }

  /** A change of an entry that is and stays outside tried. */
  lemma OutsideTriedKeeps(env: Env, m: Manager, id: int, i: Info, uncounted: set<int>)
    requires EnvOk(env) && TriedOk(env, m.key, m.info, m.triedTable) && CountsOk(m.info, m.nTried, m.nNew, uncounted)
    requires id in m.info && !m.info[id].inTried && !i.inTried
    ensures TriedOk(env, m.key, m.info[id := i], m.triedTable) && CountsOk(m.info[id := i], m.nTried, m.nNew, uncounted)
  {
    SameIds(m.info, m.info[id := i]);
  }

  // ---------- slots of the new table ----------

  lemma OtherSlots(table: Table, table': Table, id: int)
    requires forall slot :: (slot in table && table[slot] == id) <==> (slot in table' && table'[slot] == id)
    ensures SlotsOf(table', id) == SlotsOf(table, id)
  {
    assert forall slot :: slot in SlotsOf(table', id) <==> slot in SlotsOf(table, id);
  }

  lemma TakeSlotNew(env: Env, key: nat, info: map<int, Info>, table: Table, loose: set<int>, slot: Slot)
    requires EnvOk(env) && NewOk(env, key, info, table, loose) && slot in table
    ensures var id := table[slot];
            && id in info && !info[id].inTried && info[id].refCount > 0 && id !in loose
            && var i := info[id].(refCount := info[id].refCount - 1);
               NewOk(env, key, info[id := i], table - {slot}, if i.refCount == 0 then loose + {id} else loose)
  {
    var id, table' := table[slot], table - {slot};
    assert slot in SlotsOf(table, id);
    var i := info[id].(refCount := info[id].refCount - 1);
    var info' := info[id := i];
    assert forall s :: s in SlotsOf(table', id) <==> s in SlotsOf(table, id) - {slot};
    assert SlotsOf(table', id) == SlotsOf(table, id) - {slot};
    forall o | o in info' && !info'[o].inTried && o != id ensures SlotsOf(table', o) == SlotsOf(table, o) {
      OtherSlots(table, table', o);
    }
  }

  lemma GiveSlotNew(env: Env, key: nat, info: map<int, Info>, table: Table, loose: set<int>, id: int, slot: Slot)
    requires EnvOk(env) && NewOk(env, key, info, table, loose) && slot !in table
    requires id in info && !info[id].inTried && info[id].refCount < NEW_BUCKETS_PER_ADDRESS
    requires slot.bucket < env.newCount && slot == SlotInNew(env, key, info[id].service, slot.bucket)
    ensures NewOk(env, key, info[id := info[id].(refCount := info[id].refCount + 1)], table[slot := id], loose - {id})
  {
    var table' := table[slot := id];
    var info' := info[id := info[id].(refCount := info[id].refCount + 1)];
    hide SlotsOf, SlotInNew;
    OneMoreSlot(table, id, slot);
    forall o | o in info' && !info'[o].inTried && o != id ensures SlotsOf(table', o) == SlotsOf(table, o) {
      OtherSlots(table, table', o);
    }
  }

  lemma OneMoreSlot(table: Table, id: int, slot: Slot)
    requires slot !in table
    ensures |SlotsOf(table[slot := id], id)| == |SlotsOf(table, id)| + 1
  {
    assert forall s :: s in SlotsOf(table[slot := id], id) <==> s in SlotsOf(table, id) + {slot};
    assert SlotsOf(table[slot := id], id) == SlotsOf(table, id) + {slot};
  }

  lemma GiveSlotKeeps(env: Env, m: Manager, id: int, slot: Slot, loose: set<int>, uncounted: set<int>)
    requires Consistent(env, m, loose, uncounted) && slot !in m.newTable
    requires id in m.info && !m.info[id].inTried && m.info[id].refCount < NEW_BUCKETS_PER_ADDRESS
    requires slot.bucket < env.newCount && slot == SlotInNew(env, m.key, m.info[id].service, slot.bucket)
    ensures Consistent(env, Put(m, id, m.info[id].(refCount := m.info[id].refCount + 1)).(newTable := m.newTable[slot := id]),
                       loose - {id}, uncounted)
  {
    var i := m.info[id].(refCount := m.info[id].refCount + 1);
    GiveSlotNew(env, m.key, m.info, m.newTable, loose, id, slot);
    assert m.info[id].lastTry >= 0 && m.info[id].lastSuccess >= 0;
    hide RandomOk, AddrOk, TriedOk, NewOk, CountsOk, EntriesOk;
    IndexesKeep(env, m, id, i);
    OutsideTriedKeeps(env, m, id, i, uncounted);
  }

  /** What ClearNew leaves: a free slot, and every loose entry as it was. */
  ghost predicate Cleared(m: Manager, c: Manager, slot: Slot, loose: set<int>) {
    && slot !in c.newTable
    && (forall s :: s in c.newTable ==> s in m.newTable && c.newTable[s] == m.newTable[s])
    && (forall o :: o in c.info ==> o in m.info)
    && (forall o :: o in c.info ==> c.info[o] == m.info[o].(randomPos := c.info[o].randomPos, refCount := c.info[o].refCount))
    && (forall o :: o in m.info && (o in loose || m.info[o].inTried) ==>
          o in c.info && c.info[o].refCount == m.info[o].refCount)
    && (forall o :: o in m.info && o !in loose && !m.info[o].inTried && !(slot in m.newTable && m.newTable[slot] == o) ==>
          o in c.info && c.info[o].refCount == m.info[o].refCount)
    && c == m.(info := c.info, addr := c.addr, random := c.random, nNew := c.nNew, newTable := c.newTable)
  }

  /** ClearNew up to the deletion. */
  function Taken(m: Manager, slot: Slot): Manager
    requires slot in m.newTable
  {
    var id := m.newTable[slot];
    Put(m, id, Get(m, id).(refCount := Get(m, id).refCount - 1)).(newTable := m.newTable - {slot})
  }

  lemma TakeSlotKeeps(env: Env, m: Manager, slot: Slot, loose: set<int>, uncounted: set<int>)
    requires Consistent(env, m, loose, uncounted) && slot in m.newTable
    ensures var id, c := m.newTable[slot], Taken(m, slot);
            && id in m.info && !m.info[id].inTried && m.info[id].refCount > 0 && id !in loose
            && Consistent(env, c, if c.info[id].refCount == 0 then loose + {id} else loose, uncounted)
  {
    TakeSlotNew(env, m.key, m.info, m.newTable, loose, slot);
    var id := m.newTable[slot];
    var i := m.info[id].(refCount := m.info[id].refCount - 1);
    assert i.lastTry >= 0 && i.lastSuccess >= 0;
    hide RandomOk, AddrOk, TriedOk, NewOk, CountsOk, EntriesOk, Delete;
    IndexesKeep(env, m, id, i);
    OutsideTriedKeeps(env, m, id, i, uncounted);
  }

  lemma ClearNewKeeps(env: Env, m: Manager, slot: Slot, loose: set<int>, uncounted: set<int>)
    requires Consistent(env, m, loose, uncounted) && uncounted <= loose
    ensures Consistent(env, ClearNew(m, slot), loose, uncounted)
    ensures Cleared(m, ClearNew(m, slot), slot, loose)
  {
    hide Consistent, Delete;
    if slot in m.newTable {
      TakeSlotKeeps(env, m, slot, loose, uncounted);
      var id, c := m.newTable[slot], Taken(m, slot);
      if c.info[id].refCount == 0 {
        DeleteKeeps(env, c, id, loose + {id}, uncounted);
        DeleteFrame(c, id);
        assert (loose + {id}) - {id} == loose;
        assert ClearNew(m, slot) == Delete(c, id);
      } else {
        assert ClearNew(m, slot) == c;
      }
    }
  }

  lemma DeleteFrame(m: Manager, id: int)
    ensures var d := Delete(m, id);
            d == m.(info := d.info, addr := d.addr, random := d.random, nNew := d.nNew)
  {
  }

  // ---------- into tried ----------

  lemma RemoveFromNewTable(env: Env, key: nat, info: map<int, Info>, table: Table, id: int)
    requires EnvOk(env) && NewOk(env, key, info, table, {}) && id in info && !info[id].inTried
    ensures NewOk(env, key, info[id := info[id].(refCount := 0)],
                  map slot | slot in table && table[slot] != id :: table[slot], {id})
  {
    var table' := map slot | slot in table && table[slot] != id :: table[slot];
    var info' := info[id := info[id].(refCount := 0)];
    assert forall slot :: slot !in SlotsOf(table', id);
    assert SlotsOf(table', id) == {};
    forall o | o in info' && !info'[o].inTried && o != id ensures SlotsOf(table', o) == SlotsOf(table, o) {
      OtherSlots(table, table', o);
    }
  }

  lemma RemoveFromNewKeeps(env: Env, m: Manager, id: int)
    requires Consistent(env, m, {}, {}) && id in m.info && !m.info[id].inTried
    ensures var r := RemoveFromNew(m, id);
            Consistent(env, r.(nNew := r.nNew - 1), {id}, {id})
  {
    var r := RemoveFromNew(m, id);
    var i := m.info[id].(refCount := 0);
    assert m.info[id].lastTry >= 0 && m.info[id].lastSuccess >= 0;
    RemoveFromNewTable(env, m.key, m.info, m.newTable, id);
    assert |NewIds(m.info) - {}| == |NewIds(m.info) - {id}| + 1 by {
      assert id in NewIds(m.info);
      assert NewIds(m.info) - {} == (NewIds(m.info) - {id}) + {id};
    }
    assert CountsOk(m.info, m.nTried, m.nNew - 1, {id});
    hide RandomOk, AddrOk, TriedOk, NewOk, CountsOk, EntriesOk;
    IndexesKeep(env, m, id, i);
    OutsideTriedKeeps(env, m.(nNew := m.nNew - 1), id, i, {id});
  }

  /** An entry leaves tried and is loose and uncounted for the moment. */
  lemma LeaveTriedKeeps(env: Env, m: Manager, slot: Slot, loose: set<int>, uncounted: set<int>)
    requires Consistent(env, m, loose, uncounted) && slot in m.triedTable
    ensures var id := m.triedTable[slot];
            && id in m.info && m.info[id].inTried && m.info[id].refCount == 0
            && Consistent(env, Put(m, id, m.info[id].(inTried := false)).(triedTable := m.triedTable - {slot}, nTried := m.nTried - 1),
                          loose + {id}, uncounted + {id})
  {
    var id := m.triedTable[slot];
    var i := m.info[id].(inTried := false);
    var info' := m.info[id := i];
    LeaveTriedTables(env, m.key, m.info, m.triedTable, m.newTable, slot, loose);
    LeaveTriedCounts(m.info, id, m.nTried, m.nNew, uncounted);
    assert i.lastTry >= 0 && i.lastSuccess >= 0;
    hide TriedOk, NewOk, CountsOk;
    IndexesKeep(env, m, id, i);
  }

  lemma LeaveTriedTables(env: Env, key: nat, info: map<int, Info>, tried: Table, table: Table, slot: Slot, loose: set<int>)
    requires EnvOk(env) && TriedOk(env, key, info, tried) && NewOk(env, key, info, table, loose) && slot in tried
    ensures var id := tried[slot];
            && id in info && info[id].inTried && info[id].refCount == 0
            && TriedOk(env, key, info[id := info[id].(inTried := false)], tried - {slot})
            && NewOk(env, key, info[id := info[id].(inTried := false)], table, loose + {id})
  {
    var id := tried[slot];
    NoSlots(env, key, info, table, loose, id);
  }

  lemma LeaveTriedCounts(info: map<int, Info>, id: int, nTried: int, nNew: int, uncounted: set<int>)
    requires CountsOk(info, nTried, nNew, uncounted) && id in info && info[id].inTried
    ensures CountsOk(info[id := info[id].(inTried := false)], nTried - 1, nNew, uncounted + {id})
  {
    var info' := info[id := info[id].(inTried := false)];
    assert forall o :: o in TriedIds(info') <==> o in TriedIds(info) - {id};
    assert TriedIds(info') == TriedIds(info) - {id};
    assert forall o :: o in NewIds(info') - (uncounted + {id}) <==> o in NewIds(info) - uncounted;
    assert NewIds(info') - (uncounted + {id}) == NewIds(info) - uncounted;
  }

  /** A loose, uncounted entry takes its own free slot in tried. */
  lemma EnterTriedKeeps(env: Env, m: Manager, id: int, loose: set<int>, uncounted: set<int>)
    requires Consistent(env, m, loose, uncounted) && id in m.info && !m.info[id].inTried && id in loose && id in uncounted
    requires m.info[id].lastSuccess > 0 && TriedSlot(env, m.key, m.info[id].service) !in m.triedTable
    ensures Consistent(env, Put(m, id, m.info[id].(inTried := true)).(
                              triedTable := m.triedTable[TriedSlot(env, m.key, m.info[id].service) := id], nTried := m.nTried + 1),
                       loose - {id}, uncounted - {id})
  {
    var i := m.info[id].(inTried := true);
    var info' := m.info[id := i];
    hide TriedOk, NewOk, CountsOk;
    EnterTriedTables(env, m.key, m.info, m.triedTable, m.newTable, id, loose);
    EnterTriedCounts(m.info, id, m.nTried, m.nNew, uncounted);
    assert i.lastTry >= 0 && i.lastSuccess >= 0;
    IndexesKeep(env, m, id, i);
  }

  lemma EnterTriedCounts(info: map<int, Info>, id: int, nTried: int, nNew: int, uncounted: set<int>)
    requires CountsOk(info, nTried, nNew, uncounted) && id in info && !info[id].inTried && id in uncounted
    ensures CountsOk(info[id := info[id].(inTried := true)], nTried + 1, nNew, uncounted - {id})
  {
    var info' := info[id := info[id].(inTried := true)];
    assert forall o :: o in TriedIds(info') <==> o in TriedIds(info) + {id};
    assert TriedIds(info') == TriedIds(info) + {id};
    assert forall o :: o in NewIds(info') - (uncounted - {id}) <==> o in NewIds(info) - uncounted;
    assert NewIds(info') - (uncounted - {id}) == NewIds(info) - uncounted;
  }

  lemma EnterTriedTables(env: Env, key: nat, info: map<int, Info>, tried: Table, table: Table, id: int, loose: set<int>)
    requires EnvOk(env) && TriedOk(env, key, info, tried) && NewOk(env, key, info, table, loose)
    requires id in info && !info[id].inTried && id in loose && info[id].lastSuccess > 0
    requires TriedSlot(env, key, info[id].service) !in tried
    ensures TriedOk(env, key, info[id := info[id].(inTried := true)], tried[TriedSlot(env, key, info[id].service) := id])
    ensures NewOk(env, key, info[id := info[id].(inTried := true)], table, loose - {id})
  {
    NoSlots(env, key, info, table, loose, id);
  }

  lemma CountKeeps(env: Env, m: Manager, id: int, loose: set<int>, uncounted: set<int>)
    requires Consistent(env, m, loose, uncounted) && id in m.info && !m.info[id].inTried && id in uncounted
    ensures Consistent(env, m.(nNew := m.nNew + 1), loose, uncounted - {id})
  {
    assert CountsOk(m.info, m.nTried, m.nNew + 1, uncounted - {id}) by {
      assert forall o :: o in NewIds(m.info) - (uncounted - {id}) <==> o in (NewIds(m.info) - uncounted) + {id};
      assert NewIds(m.info) - (uncounted - {id}) == (NewIds(m.info) - uncounted) + {id};
    }
    hide RandomOk, AddrOk, TriedOk, NewOk, CountsOk, EntriesOk;
  }

  /** What an eviction leaves: the tried slot free, the victim in new, others as they were or gone. */
  ghost predicate Evicted(m: Manager, e: Manager, slot: Slot, id: int) {
    && slot !in e.triedTable && e.triedTable == m.triedTable - {slot}
    && (forall o :: o in e.info ==> o in m.info && e.info[o].service == m.info[o].service
                                    && (e.info[o].inTried ==> m.info[o].inTried))
    && id in e.info && e.info[id] == m.info[id].(randomPos := e.info[id].randomPos)
    && e.collisions == m.collisions && e.idCount == m.idCount && e.key == m.key && e.lastGood == m.lastGood
  }

  /** The evicted entry is given its new slot and counted again. */
  function Rehoused(c: Manager, v: int, u: Slot): Manager {
    Put(c, v, Get(c, v).(refCount := 1)).(newTable := c.newTable[u := v], nNew := c.nNew + 1)
  }

  lemma RehouseKeeps(env: Env, c: Manager, id: int, v: int, u: Slot)
    requires Consistent(env, c, {id} + {v}, {id} + {v}) && v in c.info && c.info[v].refCount == 0 && !c.info[v].inTried && id != v
    requires u !in c.newTable && u.bucket < env.newCount && u == SlotInNew(env, c.key, c.info[v].service, u.bucket)
    ensures Consistent(env, Rehoused(c, v, u), {id}, {id})
  {
    hide Consistent;
    GiveSlotKeeps(env, c, v, u, {id} + {v}, {id} + {v}) by { assert Consistent(env, c, {id} + {v}, {id} + {v}); }
    var g := Put(c, v, c.info[v].(refCount := c.info[v].refCount + 1)).(newTable := c.newTable[u := v]);
    assert ({id} + {v}) - {v} == {id};
    CountKeeps(env, g, v, {id}, {id} + {v});
  }

  function LeftTried(m: Manager, slot: Slot): Manager
    requires slot in m.triedTable
  {
    var v := m.triedTable[slot];
    Put(m, v, Get(m, v).(inTried := false)).(triedTable := m.triedTable - {slot}, nTried := m.nTried - 1)
  }

  /** The state of the eviction after ClearNew, before the victim is rehoused. */
  lemma EvictionCleared(env: Env, m: Manager, slot: Slot, id: int)
    requires Consistent(env, m, {id}, {id}) && id in m.info && !m.info[id].inTried && slot in m.triedTable
    ensures var v, e := m.triedTable[slot], LeftTried(m, slot);
            && v in m.info && m.info[v].inTried && m.info[v].refCount == 0
            && var u := NewSlot(env, m.key, m.info[v].service, m.info[v].source);
               var c := ClearNew(e, u);
               Consistent(env, c, {id} + {v}, {id} + {v}) && Cleared(e, c, u, {id} + {v}) && e.info == m.info[v := m.info[v].(inTried := false)]
               && EvictTried(env, m, slot) == Rehoused(c, v, u)
  {
    hide Cleared, ClearNew, Consistent;
    KnownEnvironment(env, m, {id}, {id});
    LeaveTriedKeeps(env, m, slot, {id}, {id});
    var v := m.triedTable[slot];
    ClearNewKeeps(env, LeftTried(m, slot), NewSlot(env, m.key, m.info[v].service, m.info[v].source), {id} + {v}, {id} + {v});
  }

  lemma KnownEnvironment(env: Env, m: Manager, loose: set<int>, uncounted: set<int>)
    requires Consistent(env, m, loose, uncounted)
    ensures EnvOk(env)
  {
  }

  lemma EvictedFrame(m: Manager, c: Manager, slot: Slot, u: Slot, id: int)
    requires slot in m.triedTable && id in m.info && !m.info[id].inTried
    requires m.triedTable[slot] in m.info && m.info[m.triedTable[slot]].inTried && m.info[m.triedTable[slot]].refCount == 0
    requires Cleared(LeftTried(m, slot), c, u, {id} + {m.triedTable[slot]})
    ensures var v := m.triedTable[slot];
            v in c.info && c.info[v].refCount == 0 && !c.info[v].inTried && c.info[v].service == m.info[v].service
    ensures u !in c.newTable && c.key == m.key
    ensures Evicted(m, Rehoused(c, m.triedTable[slot], u), slot, id)
  {
    var v := m.triedTable[slot];
    var e := LeftTried(m, slot);
    assert v in e.info && id in e.info && id != v;
    assert forall o :: o in c.info ==> o in m.info && c.info[o].service == m.info[o].service;
  }

  lemma EvictTriedKeeps(env: Env, m: Manager, slot: Slot, id: int)
    requires Consistent(env, m, {id}, {id}) && id in m.info && !m.info[id].inTried && slot in m.triedTable
    ensures Consistent(env, EvictTried(env, m, slot), {id}, {id})
    ensures Evicted(m, EvictTried(env, m, slot), slot, id)
  {
    EvictionCleared(env, m, slot, id);
    var v := m.triedTable[slot];
    var u := NewSlot(env, m.key, m.info[v].service, m.info[v].source);
    var c := ClearNew(LeftTried(m, slot), u);
    hide Consistent, ClearNew, EvictTried, Cleared, Evicted, LeftTried, Rehoused;
    EvictedFrame(m, c, slot, u, id);
    RehouseKeeps(env, c, id, v, u);
  }
}
