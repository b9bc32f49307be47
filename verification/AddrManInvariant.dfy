/**
 * The agreement of the address manager's six structures, and its preservation by the
 * primitives.  Inside an operation some entries are "loose": known, in no table, with
 * refCount 0; and some are not counted in nNew at the moment.
 */
module AddrManInvariant {
  import opened AddrMan

  // ---------- the invariant, structure by structure ----------

  /** vRandom and nRandomPos are inverse to each other. */
  ghost predicate RandomOk(info: map<int, Info>, random: seq<int>) {
    && (forall i :: 0 <= i < |random| ==> var id := random[i]; id in info && info[id].randomPos == i)
    && (forall id :: id in info ==> 0 <= info[id].randomPos < |random| && random[info[id].randomPos] == id)
  }

  /** mapAddr and the addresses in mapInfo are inverse to each other. */
  ghost predicate AddrOk(info: map<int, Info>, addr: map<Service, int>) {
    && (forall id :: id in info ==> var s := info[id].service; s in addr && addr[s] == id)
    && (forall s :: s in addr ==> var id := addr[s]; id in info && info[id].service == s)
  }

  /** A tried entry occupies exactly its own slot, and nothing else occupies tried slots. */
  ghost predicate TriedOk(env: Env, key: nat, info: map<int, Info>, tried: Table)
    requires EnvOk(env)
  {
    && (forall slot :: slot in tried ==>
          var id := tried[slot];
          id in info && info[id].inTried && slot == TriedSlot(env, key, info[id].service))
    && (forall id :: id in info && info[id].inTried ==>
          && info[id].refCount == 0 && info[id].lastSuccess > 0
          && TriedSlot(env, key, info[id].service) in tried && tried[TriedSlot(env, key, info[id].service)] == id)
  }

  ghost function SlotsOf(table: Table, id: int): set<Slot> {
    set slot | slot in table && table[slot] == id
  }

  /** An entry outside tried sits in as many new slots as its refCount says, each the right one. */
  ghost predicate NewOk(env: Env, key: nat, info: map<int, Info>, table: Table, loose: set<int>)
    requires EnvOk(env)
  {
    && (forall slot :: slot in table ==>
          var id := table[slot];
          && id in info && !info[id].inTried
          && slot.bucket < env.newCount && slot == SlotInNew(env, key, info[id].service, slot.bucket))
    && (forall id :: id in info && !info[id].inTried ==>
          && info[id].refCount == |SlotsOf(table, id)| <= NEW_BUCKETS_PER_ADDRESS
          && (info[id].refCount == 0 <==> id in loose))
  }

  ghost function TriedIds(info: map<int, Info>): set<int> {
    set id | id in info && info[id].inTried
  }

  ghost function NewIds(info: map<int, Info>): set<int> {
    set id | id in info && !info[id].inTried
  }

  ghost predicate CountsOk(info: map<int, Info>, nTried: int, nNew: int, uncounted: set<int>) {
    nTried == |TriedIds(info)| && nNew == |NewIds(info) - uncounted|
  }

  ghost predicate EntriesOk(env: Env, info: map<int, Info>, idCount: int) {
    forall id :: id in info ==>
      0 <= id < idCount && info[id].lastTry >= 0 && info[id].lastSuccess >= 0 && env.routable(info[id].service.ip)
  }

  ghost predicate Consistent(env: Env, m: Manager, loose: set<int>, uncounted: set<int>) {
    && EnvOk(env)
    && RandomOk(m.info, m.random)
    && AddrOk(m.info, m.addr)
    && TriedOk(env, m.key, m.info, m.triedTable)
    && NewOk(env, m.key, m.info, m.newTable, loose)
    && CountsOk(m.info, m.nTried, m.nNew, uncounted)
    && m.idCount >= 0 && EntriesOk(env, m.info, m.idCount)
  }

  /** Every queued collision that is still known waits in new for an occupied tried slot. */
  ghost predicate QueueOk(env: Env, m: Manager)
    requires EnvOk(env)
  {
    && |m.collisions| <= SET_TRIED_COLLISION_SIZE
    && (forall id :: id in m.collisions ==> 0 <= id < m.idCount)
    && (forall id :: id in m.collisions && id in m.info ==>
          !m.info[id].inTried && TriedSlot(env, m.key, m.info[id].service) in m.triedTable)
  }

  // ---------- changes that leave the tables alone ----------

  predicate SameRole(a: Info, b: Info) {
    a.service == b.service && a.inTried == b.inTried && a.refCount == b.refCount
  }

  /** The same entries in the same places; only statistics and vRandom positions may differ. */
  ghost predicate SameRoles(info: map<int, Info>, info': map<int, Info>) {
    (forall id :: id in info <==> id in info') && forall id :: id in info ==> SameRole(info[id], info'[id])
  }

  ghost predicate StatsOk(info: map<int, Info>) {
    forall id :: id in info ==>
      info[id].lastTry >= 0 && info[id].lastSuccess >= 0 && (info[id].inTried ==> info[id].lastSuccess > 0)
  }

  lemma TriedFrame(env: Env, key: nat, info: map<int, Info>, info': map<int, Info>, tried: Table)
    requires EnvOk(env) && TriedOk(env, key, info, tried) && SameRoles(info, info') && StatsOk(info')
    ensures TriedOk(env, key, info', tried)
  {
  }

  lemma AddrFrame(info: map<int, Info>, info': map<int, Info>, addr: map<Service, int>)
    requires AddrOk(info, addr) && SameRoles(info, info')
    ensures AddrOk(info', addr)
  {
  }

  lemma NewFrame(env: Env, key: nat, info: map<int, Info>, info': map<int, Info>, table: Table, loose: set<int>)
    requires EnvOk(env) && NewOk(env, key, info, table, loose) && SameRoles(info, info')
    ensures NewOk(env, key, info', table, loose)
  {
  }

  lemma SameRolesKeep(env: Env, m: Manager, info: map<int, Info>, random: seq<int>, loose: set<int>, uncounted: set<int>)
    requires Consistent(env, m, loose, uncounted)
    requires SameRoles(m.info, info) && StatsOk(info) && RandomOk(info, random)
    ensures Consistent(env, m.(info := info, random := random), loose, uncounted)
  {
    SameIds(m.info, info);
    TriedFrame(env, m.key, m.info, info, m.triedTable);
    AddrFrame(m.info, info, m.addr);
    NewFrame(env, m.key, m.info, info, m.newTable, loose);
    hide RandomOk, AddrOk, TriedOk, NewOk;
    assert EntriesOk(env, info, m.idCount) by {
      assert forall id :: id in info ==> SameRole(m.info[id], info[id]);
    }
  }

  lemma SameIds(info: map<int, Info>, info': map<int, Info>)
    requires forall id :: id in info <==> id in info'
    requires forall id :: id in info ==> info[id].inTried == info'[id].inTried
    ensures TriedIds(info) == TriedIds(info') && NewIds(info) == NewIds(info')
  {
    assert forall id :: id in TriedIds(info) <==> id in TriedIds(info');
    assert forall id :: id in NewIds(info) <==> id in NewIds(info');
  }

  lemma ConsistentStats(env: Env, m: Manager, loose: set<int>, uncounted: set<int>)
    requires Consistent(env, m, loose, uncounted)
    ensures StatsOk(m.info)
  {
  }

  lemma OnlyPositions(info: map<int, Info>, info': map<int, Info>)
    requires StatsOk(info) && forall id :: id in info <==> id in info'
    requires forall id :: id in info ==> info'[id] == info[id].(randomPos := info'[id].randomPos)
    ensures SameRoles(info, info') && StatsOk(info')
  {
  }

  /** An update of one entry's statistics. */
  lemma StatsUpdateKeeps(env: Env, m: Manager, id: int, i: Info, loose: set<int>, uncounted: set<int>)
    requires Consistent(env, m, loose, uncounted) && id in m.info
    requires SameRole(m.info[id], i) && i.randomPos == m.info[id].randomPos
    requires i.lastTry >= 0 && i.lastSuccess >= 0 && (i.inTried ==> i.lastSuccess > 0)
    ensures Consistent(env, Put(m, id, i), loose, uncounted)
  {
    assert StatsOk(m.info[id := i]);
    assert RandomOk(m.info[id := i], m.random);
    SameRolesKeep(env, m, m.info[id := i], m.random, loose, uncounted);
  }

  lemma SwapRandomOk(m: Manager, i: nat, j: nat)
    requires RandomOk(m.info, m.random) && i < |m.random| && j < |m.random|
    ensures var s := SwapRandom(m, i, j);
            && RandomOk(s.info, s.random) && s == m.(info := s.info, random := s.random)
            && (forall id :: id in s.info <==> id in m.info)
            && (forall id :: id in m.info ==> s.info[id] == m.info[id].(randomPos := s.info[id].randomPos))
  {
  }

  lemma SwapRandomKeeps(env: Env, m: Manager, i: nat, j: nat, loose: set<int>, uncounted: set<int>)
    requires Consistent(env, m, loose, uncounted) && i < |m.random| && j < |m.random|
    ensures Consistent(env, SwapRandom(m, i, j), loose, uncounted)
  {
    hide SwapRandom, RandomOk, AddrOk, TriedOk, NewOk, CountsOk, EntriesOk, StatsOk;
    SwapRandomOk(m, i, j);
    var s := SwapRandom(m, i, j);
    ConsistentStats(env, m, loose, uncounted);
    OnlyPositions(m.info, s.info);
    SameRolesKeep(env, m, s.info, s.random, loose, uncounted);
  }

  // ---------- deletion ----------

  lemma DeleteRandom(m: Manager, id: int)
    requires RandomOk(m.info, m.random) && id in m.info
    ensures var d := Delete(m, id);
            && RandomOk(d.info, d.random) && (forall o :: o in d.info <==> o in m.info && o != id)
            && (forall o :: o in d.info ==> d.info[o] == m.info[o].(randomPos := d.info[o].randomPos))
            && d == m.(info := d.info, random := d.random, addr := m.addr - {m.info[id].service}, nNew := m.nNew - 1)
  {
    hide SwapRandom, RandomOk;
    var p, last := m.info[id].randomPos, |m.random| - 1;
    SwapToEnd(m, id);
    var s := SwapRandom(m, p, last);
    DropLast(s.info, s.random, id);
  }

  lemma SwapToEnd(m: Manager, id: int)
    requires RandomOk(m.info, m.random) && id in m.info
    ensures 0 <= m.info[id].randomPos < |m.random|
    ensures var s := SwapRandom(m, m.info[id].randomPos, |m.random| - 1);
            && RandomOk(s.info, s.random) && s == m.(info := s.info, random := s.random)
            && (forall o :: o in s.info <==> o in m.info)
            && (forall o :: o in m.info ==> s.info[o] == m.info[o].(randomPos := s.info[o].randomPos))
            && |s.random| == |m.random| && s.random[|m.random| - 1] == id
  {
    hide SwapRandom, RandomOk;
    PositionOf(m.info, m.random, id);
    SwapRandomOk(m, m.info[id].randomPos, |m.random| - 1);
    SwapLands(m, m.info[id].randomPos, |m.random| - 1);
  }

  lemma PositionOf(info: map<int, Info>, random: seq<int>, id: int)
    requires RandomOk(info, random) && id in info
    ensures 0 <= info[id].randomPos < |random| && random[info[id].randomPos] == id
  {
  }

  lemma SwapLands(m: Manager, i: nat, j: nat)
    requires i < |m.random| && j < |m.random|
    ensures SwapRandom(m, i, j).random[j] == m.random[i]
  {
  }

  lemma DropLast(info: map<int, Info>, random: seq<int>, id: int)
    requires RandomOk(info, random) && |random| > 0 && random[|random| - 1] == id
    ensures RandomOk(info - {id}, random[..|random| - 1])
  {
  }

  lemma DeleteCounts(info: map<int, Info>, info': map<int, Info>, id: int, nTried: int, nNew: int, uncounted: set<int>)
    requires CountsOk(info, nTried, nNew, uncounted)
    requires id in info && !info[id].inTried && id !in uncounted
    requires forall o :: o in info' <==> o in info && o != id
    requires forall o :: o in info' ==> info'[o].inTried == info[o].inTried
    ensures CountsOk(info', nTried, nNew - 1, uncounted)
  {
    assert forall o :: o in TriedIds(info') <==> o in TriedIds(info);
    assert TriedIds(info') == TriedIds(info);
    assert forall o :: o in NewIds(info') - uncounted <==> o in (NewIds(info) - uncounted) - {id};
    assert NewIds(info') - uncounted == (NewIds(info) - uncounted) - {id};
  }

  lemma DeleteAddr(info: map<int, Info>, info': map<int, Info>, id: int, addr: map<Service, int>)
    requires AddrOk(info, addr) && id in info
    requires forall o :: o in info' <==> o in info && o != id
    requires forall o :: o in info' ==> info'[o].service == info[o].service
    ensures AddrOk(info', addr - {info[id].service})
  {
  }

  lemma DeleteTables(env: Env, key: nat, info: map<int, Info>, info': map<int, Info>, id: int, tried: Table, table: Table, loose: set<int>)
    requires EnvOk(env) && TriedOk(env, key, info, tried) && NewOk(env, key, info, table, loose)
    requires id in info && !info[id].inTried && id in loose
    requires forall o :: o in info' <==> o in info && o != id
    requires forall o :: o in info' ==> info'[o] == info[o].(randomPos := info'[o].randomPos)
    ensures TriedOk(env, key, info', tried) && NewOk(env, key, info', table, loose - {id})
  {
    NoSlots(env, key, info, table, loose, id);
  }

  lemma DeleteKeeps(env: Env, m: Manager, id: int, loose: set<int>, uncounted: set<int>)
    requires Consistent(env, m, loose, uncounted) && id in m.info && !m.info[id].inTried && id in loose && id !in uncounted
    ensures Consistent(env, Delete(m, id), loose - {id}, uncounted)
    ensures forall o :: o in Delete(m, id).info <==> o in m.info && o != id
    ensures forall o :: o in Delete(m, id).info ==> Delete(m, id).info[o] == m.info[o].(randomPos := Delete(m, id).info[o].randomPos)
  {
    hide Delete, RandomOk, AddrOk, TriedOk, NewOk, CountsOk;
    var d := Delete(m, id);
    DeleteRandom(m, id);
    DeleteCounts(m.info, d.info, id, m.nTried, m.nNew, uncounted);
    DeleteAddr(m.info, d.info, id, m.addr);
    DeleteTables(env, m.key, m.info, d.info, id, m.triedTable, m.newTable, loose);
  }

  /** An entry whose refCount is 0 is in no slot. */
  lemma NoSlots(env: Env, key: nat, info: map<int, Info>, table: Table, loose: set<int>, id: int)
    requires EnvOk(env) && NewOk(env, key, info, table, loose) && id in info && (info[id].inTried || id in loose)
    ensures SlotsOf(table, id) == {}
    ensures forall slot :: slot in table ==> table[slot] != id
  {
    assert forall slot :: slot in table && table[slot] == id ==> slot in SlotsOf(table, id);
  }

  lemma KnownRandom(env: Env, m: Manager, loose: set<int>, uncounted: set<int>)
    requires Consistent(env, m, loose, uncounted)
    ensures RandomOk(m.info, m.random)
  {
  }
}
