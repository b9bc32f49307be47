/**
 * What the operations of the address manager do, stated on slots, times and the fields of
 * entries, with all thresholds in seconds.
 */
module AddrManEffects {
  import Bits
  import opened Common
  import opened AddrMan
  import opened AddrManInvariant
  import opened AddrManSteps
  import opened AddrManOps

  /** What an entry says about its peer, leaving out where the manager keeps it. */
  predicate SameFacts(a: Info, b: Info) {
    a == b.(refCount := a.refCount, inTried := a.inTried, randomPos := a.randomPos)
  }

  /** The entries of r, apart from one, are entries of m that say the same. */
  ghost predicate FactsKept(m: Manager, r: Manager, but: int) {
    forall o :: o in r.info && o != but ==> o in m.info && SameFacts(r.info[o], m.info[o])
  }

  // ---------- into tried ----------

  ghost function WithoutId(table: Table, id: int): Table {
    map slot | slot in table && table[slot] != id :: table[slot]
  }

  lemma ClearedTables(m: Manager, slot: Slot)
    ensures ClearNew(m, slot).newTable == m.newTable - {slot} && ClearNew(m, slot).triedTable == m.triedTable
  {
  }

  /** What evicting the holder of a tried slot does. */
  ghost predicate Rehomed(env: Env, m: Manager, e: Manager, slot: Slot)
    requires EnvOk(env)
  {
    && slot in m.triedTable && m.triedTable[slot] in m.info
    && var v := m.triedTable[slot];
       var u := NewSlot(env, m.key, m.info[v].service, m.info[v].source);
       && e.triedTable == m.triedTable - {slot} && e.newTable == m.newTable[u := v]
       && v in e.info && !e.info[v].inTried && e.info[v].refCount == 1
       && (forall o :: o in e.info ==> o in m.info && SameFacts(e.info[o], m.info[o]))
       && (forall o :: o in m.info && o !in e.info ==> u in m.newTable && m.newTable[u] == o)
  }

  lemma RehousedEffect(env: Env, m: Manager, c: Manager, slot: Slot, id: int)
    requires EnvOk(env) && slot in m.triedTable && id in m.info && !m.info[id].inTried
    requires m.triedTable[slot] in m.info && m.info[m.triedTable[slot]].inTried && m.info[m.triedTable[slot]].refCount == 0
    requires var v := m.triedTable[slot];
             var u := NewSlot(env, m.key, m.info[v].service, m.info[v].source);
             Cleared(LeftTried(m, slot), c, u, {id} + {v}) && c.newTable == m.newTable - {u} && c.triedTable == m.triedTable - {slot}
    ensures var v := m.triedTable[slot];
            Rehomed(env, m, Rehoused(c, v, NewSlot(env, m.key, m.info[v].service, m.info[v].source)), slot)
  {
    hide NewSlot;
    var v, e := m.triedTable[slot], LeftTried(m, slot);
    var u := NewSlot(env, m.key, m.info[v].service, m.info[v].source);
    assert m.newTable[u := v] == (m.newTable - {u})[u := v];
    assert v in e.info && forall o :: o in m.info <==> o in e.info;
  }

  lemma EvictTriedEffect(env: Env, m: Manager, slot: Slot, id: int)
    requires Consistent(env, m, {id}, {id}) && id in m.info && !m.info[id].inTried && slot in m.triedTable
    ensures EnvOk(env) && Rehomed(env, m, EvictTried(env, m, slot), slot)
  {
    hide Consistent, ClearNew, EvictTried, NewSlot, Rehomed, Cleared, Rehoused;
    KnownEnvironment(env, m, {id}, {id});
    EvictionCleared(env, m, slot, id);
    var v := m.triedTable[slot];
    var u := NewSlot(env, m.key, m.info[v].service, m.info[v].source);
    ClearedTables(LeftTried(m, slot), u);
    RehousedEffect(env, m, ClearNew(LeftTried(m, slot), u), slot, id);
  }

  /**
   * MakeTried: the entry holds its tried slot and no new slot; a former holder of that slot is
   * rehoused in new; no entry says anything else than before, and the only one that can be lost is
   * the one whose new slot the former holder takes.
   */
  lemma MakeTriedEffect(env: Env, m: Manager, id: int)
    requires EnvOk(env) && Consistent(env, m, {}, {}) && id in m.info && !m.info[id].inTried && m.info[id].lastSuccess > 0
    ensures var t, slot := MakeTried(env, m, id), TriedSlot(env, m.key, m.info[id].service);
            && t.triedTable == m.triedTable[slot := id] && id in t.info && t.info[id].inTried
            && (forall o :: o in t.info ==> o in m.info && SameFacts(t.info[o], m.info[o]))
            && (slot !in m.triedTable ==> t.newTable == WithoutId(m.newTable, id) && t.info.Keys == m.info.Keys)
            && (slot in m.triedTable ==> m.triedTable[slot] in m.info)
            && (slot in m.triedTable ==>
                  (var v := m.triedTable[slot];
                   var u := NewSlot(env, m.key, m.info[v].service, m.info[v].source);
                   && t.newTable == WithoutId(m.newTable, id)[u := v] && v in t.info && !t.info[v].inTried && t.info[v].refCount == 1
                   && forall o :: o in m.info && o !in t.info ==> u in m.newTable && m.newTable[u] == o))
  {
    hide Consistent, EvictTried, NewSlot, TriedSlot;
    RemoveFromNewKeeps(env, m, id);
    var r := RemoveFromNew(m, id).(nNew := RemoveFromNew(m, id).nNew - 1);
    var slot := TriedSlot(env, m.key, m.info[id].service);
    if slot in m.triedTable {
      EvictTriedEffect(env, r, slot, id);
      EvictTriedKeeps(env, r, slot, id);
      var e := EvictTried(env, r, slot);
      EvictedEntry(r, e, slot, id);
    }
  }

  // ---------- Good ----------

  /** What Good_ does about a known address. */
  ghost predicate ProvedGood(env: Env, m: Manager, s: Service, testBeforeEvict: bool, time: int, r: Manager, answer: bool)
    requires EnvOk(env) && Found(m, s)
  {
    var id, slot := m.addr[s], TriedSlot(env, m.key, s);
    && r.lastGood == time && FactsKept(m, r, id) && id in r.info
    && SameFacts(r.info[id], m.info[id].(lastSuccess := time, lastTry := time, attempts := 0))
    && (answer <==> !m.info[id].inTried && !(testBeforeEvict && slot in m.triedTable))
    && (answer ==> r.triedTable == m.triedTable[slot := id] && r.info[id].inTried && r.collisions == m.collisions)
    && (answer && slot in m.triedTable ==> var v := m.triedTable[slot]; v in r.info && !r.info[v].inTried && r.info[v].refCount == 1)
    && (!answer ==> r.triedTable == m.triedTable && r.newTable == m.newTable && r.info.Keys == m.info.Keys && r.info[id].inTried == m.info[id].inTried)
    && (!answer ==> r.collisions == if m.info[id].inTried || |m.collisions| >= 10 then m.collisions else m.collisions + {id})
  }

  lemma MovedGood(env: Env, m: Manager, s: Service, testBeforeEvict: bool, time: int, t: Manager)
    requires EnvOk(env) && Found(m, s) && m.info[m.addr[s]].service == s && !m.info[m.addr[s]].inTried
    requires !(testBeforeEvict && TriedSlot(env, m.key, s) in m.triedTable)
    requires var u, id := Marked(m, s, time), m.addr[s];
             && t.triedTable == u.triedTable[TriedSlot(env, m.key, s) := id] && id in t.info && t.info[id].inTried
             && (forall o :: o in t.info ==> o in u.info && SameFacts(t.info[o], u.info[o]))
             && t.collisions == m.collisions && t.lastGood == time
             && (TriedSlot(env, m.key, s) in m.triedTable ==>
                   var v := m.triedTable[TriedSlot(env, m.key, s)]; v in t.info && !t.info[v].inTried && t.info[v].refCount == 1)
    ensures ProvedGood(env, m, s, testBeforeEvict, time, t, true)
  {
    hide TriedSlot;
  }

  /**
   * Good_ on a known address: its times and attempts, and only its, are set; it is moved into its
   * tried slot at once unless the slot is taken and is to be tested first; then it is queued if
   * fewer than ten wait.
   */
  lemma GoodEffect(env: Env, m: Manager, s: Service, testBeforeEvict: bool, time: int)
    requires EnvOk(env) && Sound(env, m) && time > 0
    ensures var g := Good(env, m, s, testBeforeEvict, time);
            if Found(m, s) then ProvedGood(env, m, s, testBeforeEvict, time, g.0, g.1) else g == (m.(lastGood := time), false)
  {
    hide Consistent, MakeTried, QueueOk, TriedSlot, Moved, Onward;
    if !Found(m, s) {
      return;
    }
    KnownEntry(env, m, s);
    var id, u := m.addr[s], Marked(m, s, time);
    if !m.info[id].inTried && !(testBeforeEvict && TriedSlot(env, m.key, s) in m.triedTable) {
      hide ProvedGood, SameFacts;
      MarkedKeeps(env, m, s, time);
      MakeTriedEffect(env, u, id);
      MakeTriedFrame(env, u, id);
      MovedGood(env, m, s, testBeforeEvict, time, MakeTried(env, u, id));
    }
  }

  lemma MakeTriedFrame(env: Env, m: Manager, id: int)
    requires EnvOk(env)
    ensures MakeTried(env, m, id).collisions == m.collisions && MakeTried(env, m, id).lastGood == m.lastGood
  {
  }

  // ---------- resolving collisions ----------

  /**
   * Whether a queued entry replaces the holder of its tried slot.  The holder must not have
   * succeeded in the last four hours.  If it was tried in that time, a minute must have passed
   * without success; if it was not, the queued entry must have waited forty minutes for the test.
   */
  predicate Replaces(queued: Info, holder: Info, now: Readings) {
    && now.success - holder.lastSuccess >= 4 * 60 * 60
    && (if now.attempt - holder.lastTry < 4 * 60 * 60 then now.patience - holder.lastTry > 60
        else now.window - queued.lastSuccess > 40 * 60)
  }

  /** What ResolveCollisions_ does about one queued id. */
  lemma ResolveOneEffect(env: Env, m: Manager, id: int, now: Readings)
    requires EnvOk(env) && Sound(env, m) && id in m.collisions && now.good > 0
    ensures id !in m.info ==> ResolveOne(env, m, id, now) == m.(collisions := m.collisions - {id})
    ensures id in m.info ==>
              (var r, slot := ResolveOne(env, m, id, now), TriedSlot(env, m.key, m.info[id].service);
               && slot in m.triedTable && m.triedTable[slot] in m.info && m.triedTable[slot] != id
               && (var holder := m.triedTable[slot];
                   if now.success - m.info[holder].lastSuccess < 4 * 60 * 60 then
                     r == m.(collisions := m.collisions - {id})
                   else if Replaces(m.info[id], m.info[holder], now) then
                     && r.triedTable == m.triedTable[slot := id] && id in r.info && r.info[id].inTried && r.collisions == m.collisions - {id}
                     && holder in r.info && !r.info[holder].inTried && FactsKept(m, r, id) && r.lastGood == now.good
                   else r == m))
  {
    hide Consistent, QueueOk, TriedSlot, Good;
    if id in m.info {
      QueuedCollision(env, m, id);
      var slot := TriedSlot(env, m.key, m.info[id].service);
      var holder := m.triedTable[slot];
      if Replaces(m.info[id], m.info[holder], now) {
        ReplaceEffect(env, m, id, now.good);
      }
    }
  }

  lemma ReplaceEffect(env: Env, m: Manager, id: int, time: int)
    requires EnvOk(env) && Sound(env, m) && id in m.collisions && id in m.info && time > 0
    ensures var g, slot := Good(env, m, m.info[id].service, false, time).0, TriedSlot(env, m.key, m.info[id].service);
            && slot in m.triedTable && g.triedTable == m.triedTable[slot := id] && id in g.info && g.info[id].inTried && g.collisions == m.collisions
            && m.triedTable[slot] in g.info && !g.info[m.triedTable[slot]].inTried && FactsKept(m, g, id) && g.lastGood == time
  {
    QueuedCollision(env, m, id);
    var s, slot := m.info[id].service, TriedSlot(env, m.key, m.info[id].service);
    var holder := m.triedTable[slot];
    assert Found(m, s) && m.addr[s] == id && !m.info[id].inTried;
    hide Consistent, QueueOk, TriedSlot, Good;
    GoodEffect(env, m, s, false, time);
  }

  ghost predicate NoRepeats(order: seq<int>) {
    forall i, j :: 0 <= i < j < |order| ==> order[i] != order[j]
  }

  /** An entry that succeeded less than four hours before every reading keeps its tried slot. */
  lemma {:induction false} ResolveSpares(env: Env, m: Manager, order: seq<int>, clock: int -> Readings, slot: Slot)
    requires EnvOk(env) && Sound(env, m) && (forall id :: id in order ==> id in m.collisions && clock(id).good > 0) && NoRepeats(order)
    requires slot in m.triedTable && m.triedTable[slot] in m.info
    requires forall id :: id in order ==> clock(id).success - m.info[m.triedTable[slot]].lastSuccess < 4 * 60 * 60
    ensures var r, holder := ResolveAll(env, m, order, clock), m.triedTable[slot];
            && slot in r.triedTable && r.triedTable[slot] == holder
            && holder in r.info && r.info[holder].inTried && SameFacts(r.info[holder], m.info[holder])
    decreases |order|
  {
    var holder := m.triedTable[slot];
    HolderTried(env, m, slot);
    if order != [] {
      hide Sound, ResolveOne, NoRepeats, SameFacts, EnvOk;
      LaterIds(order);
      var id, rest := order[0], order[1..];
      var n := ResolveOne(env, m, id, clock(id));
      SparedOnce(env, m, id, clock(id), slot);
      ResolveOneKeeps(env, m, id, clock(id));
      assert n.info[holder].lastSuccess == m.info[holder].lastSuccess by { SameTimes(n.info[holder], m.info[holder]); }
      ResolveSpares(env, n, rest, clock, slot);
      SameFactsTwice(ResolveAll(env, n, rest, clock).info[holder], n.info[holder], m.info[holder]);
    }
  }

  lemma LaterIds(order: seq<int>)
    requires order != [] && NoRepeats(order)
    ensures NoRepeats(order[1..]) && forall id :: id in order[1..] ==> id in order && id != order[0]
  {
  }

  lemma SameTimes(a: Info, b: Info)
    requires SameFacts(a, b)
    ensures a.lastSuccess == b.lastSuccess
  {
  }

  lemma SameFactsTwice(a: Info, b: Info, c: Info)
    requires SameFacts(a, b) && SameFacts(b, c)
    ensures SameFacts(a, c)
  {
  }

  lemma HolderTried(env: Env, m: Manager, slot: Slot)
    requires EnvOk(env) && Sound(env, m) && slot in m.triedTable
    ensures m.triedTable[slot] in m.info && m.info[m.triedTable[slot]].inTried
  {
  }

  lemma SparedOnce(env: Env, m: Manager, id: int, now: Readings, slot: Slot)
    requires EnvOk(env) && Sound(env, m) && id in m.collisions && now.good > 0
    requires slot in m.triedTable && m.triedTable[slot] in m.info && now.success - m.info[m.triedTable[slot]].lastSuccess < 4 * 60 * 60
    ensures var r, holder := ResolveOne(env, m, id, now), m.triedTable[slot];
            && slot in r.triedTable && r.triedTable[slot] == holder && holder in r.info && SameFacts(r.info[holder], m.info[holder])
            && forall o :: o in m.collisions && o != id ==> o in r.collisions
  {
    hide Sound, ResolveOne, TriedSlot;
    ResolveOneEffect(env, m, id, now);
    ResolveOneKeeps(env, m, id, now);
    HolderTried(env, m, slot);
    HolderTried(env, ResolveOne(env, m, id, now), slot);
    if id in m.info { QueuedNotTried(env, m, id); }
  }

  lemma QueuedNotTried(env: Env, m: Manager, id: int)
    requires EnvOk(env) && Sound(env, m) && id in m.collisions && id in m.info
    ensures !m.info[id].inTried
  {
  }

  // ---------- announcements ----------

  /** Whether a new slot may be given to another entry: free, held by a terrible one, or by one with other slots when the other has none. */
  ghost predicate Overwritable(m: Manager, slot: Slot, now: int, newcomer: bool) {
    slot in m.newTable ==>
      && m.newTable[slot] in m.info
      && var held := m.info[m.newTable[slot]];
         IsTerrible(held, now) || (newcomer && held.refCount > 1)
  }

  lemma ClearedEffect(env: Env, m: Manager, slot: Slot, id: int, loose: set<int>)
    requires Consistent(env, m, loose, {}) && id in m.info && !m.info[id].inTried && !(slot in m.newTable && m.newTable[slot] == id)
    ensures var c := ClearNew(m, slot);
            && id in c.info && c.info[id].refCount == m.info[id].refCount && c.newTable == m.newTable - {slot}
            && (forall o :: o in c.info ==> o in m.info && SameFacts(c.info[o], m.info[o]))
            && (forall o :: o in m.info && o !in c.info ==> slot in m.newTable && m.newTable[slot] == o)
  {
    hide Consistent, ClearNew;
    ClearNewKeeps(env, m, slot, loose, {});
    ClearedTables(m, slot);
  }

  lemma HolderKnown(env: Env, m: Manager, slot: Slot, loose: set<int>)
    requires Consistent(env, m, loose, {})
    ensures slot in m.newTable ==> m.newTable[slot] in m.info
  {
  }

  lemma SwappedFacts(m: Manager, i: nat, j: nat)
    requires RandomOk(m.info, m.random) && i < |m.random| && j < |m.random|
    ensures var w := SwapRandom(m, i, j);
            && (forall o :: o in w.info <==> o in m.info) && (forall o :: o in m.info ==> SameFacts(w.info[o], m.info[o]))
            && w == m.(info := w.info, random := w.random)
  {
    SwapRandomOk(m, i, j);
  }

  /** The second half of AddSingle. */
  ghost predicate GivenSlot(m: Manager, id: int, slot: Slot, now: int, r: Manager, added: bool)
    requires id in m.info
  {
    && (added <==> !(slot in m.newTable && m.newTable[slot] == id) && Overwritable(m, slot, now, m.info[id].refCount == 0))
    && (forall o :: o in r.info ==> o in m.info && SameFacts(r.info[o], m.info[o]))
    && (added ==> r.newTable == m.newTable[slot := id] && id in r.info && r.info[id].refCount == m.info[id].refCount + 1)
    && (added ==> forall o :: o in m.info && o !in r.info ==> slot in m.newTable && m.newTable[slot] == o)
    && (!added ==> r.newTable == m.newTable && (id in r.info <==> m.info[id].refCount > 0) && forall o :: o in m.info && o != id ==> o in r.info)
  }

  lemma PlaceNewEffect(env: Env, m: Manager, id: int, loose: set<int>, source: nat, now: int)
    requires EnvOk(env) && Consistent(env, m, loose, {}) && loose <= {id} && id in m.info && !m.info[id].inTried && m.info[id].refCount >= 0
    ensures var (r, added) := PlaceNew(env, m, id, source, now);
            GivenSlot(m, id, NewSlot(env, m.key, m.info[id].service, source), now, r, added)
  {
    hide Consistent, ClearNew, Delete, IsTerrible, RandomOk, NewSlot;
    PlacementFacts(env, m, id, loose);
    var slot := NewSlot(env, m.key, m.info[id].service, source);
    HolderKnown(env, m, slot, loose);
    if !(slot in m.newTable && m.newTable[slot] == id) {
      if PlaceNew(env, m, id, source, now).1 {
        ClearedEffect(env, m, slot, id, loose);
        assert m.newTable[slot := id] == (m.newTable - {slot})[slot := id];
      } else if m.info[id].refCount == 0 {
        DeleteRandom(m, id);
      }
    }
  }

  /** The time of a known entry after an announcement: moved on only when it lags by an hour, or by a day for a peer not seen today. */
  function LaterTime(i: Info, a: Address, penalty: int, now: int): nat {
    var interval := if now - a.time < 24 * 60 * 60 then 60 * 60 else 24 * 60 * 60;
    if a.time != 0 && (i.time == 0 || i.time + interval + penalty < a.time) then Max(0, a.time - penalty) else i.time
  }

  /** An announcement of a known address. */
  ghost predicate Reannounced(env: Env, m: Manager, a: Address, source: nat, penalty: int, now: int, rnd: nat, r: Manager, added: bool)
    requires EnvOk(env) && Found(m, a.service)
  {
    var id, slot := m.addr[a.service], NewSlot(env, m.key, a.service, source);
    var i := m.info[id];
    var time := LaterTime(i, a, penalty, now);
    && id in r.info && SameFacts(r.info[id], i.(time := time, services := i.services + a.services)) && FactsKept(m, r, id)
    && (added <==> && a.time > time && !i.inTried && i.refCount < 8 && i.refCount >= 0 && rnd % Bits.Pow2(i.refCount) == 0
                   && !(slot in m.newTable && m.newTable[slot] == id) && Overwritable(m, slot, now, false))
    && (added ==> r.newTable == m.newTable[slot := id] && r.info[id].refCount == i.refCount + 1)
    && (!added ==> r.newTable == m.newTable && r.info.Keys == m.info.Keys)
    && forall o :: o in m.info && o !in r.info ==> slot in m.newTable && m.newTable[slot] == o
  }

  /** An announcement of an unknown address: a new entry if the slot can be had, nothing otherwise. */
  ghost predicate Discovered(env: Env, m: Manager, a: Address, source: nat, penalty: int, now: int, r: Manager, added: bool)
    requires EnvOk(env)
  {
    var id, slot := m.idCount, NewSlot(env, m.key, a.service, source);
    && (added <==> Overwritable(m, slot, now, true)) && FactsKept(m, r, id)
    && (added ==> && r.newTable == m.newTable[slot := id] && id in r.info && r.info[id].refCount == 1
                  && SameFacts(r.info[id], Info(a.service, Max(0, a.time - penalty), a.services, source, 0, 0, 0, 0, 0, false, 0)))
    && (!added ==> r.newTable == m.newTable && id !in r.info)
    && (forall o :: o in m.info && o !in r.info ==> added && slot in m.newTable && m.newTable[slot] == o)
  }

  lemma ReannouncedPlaced(env: Env, m: Manager, a: Address, source: nat, penalty: int, now: int, rnd: nat, i: Info, r: Manager, added: bool)
    requires EnvOk(env) && Found(m, a.service) && m.info[m.addr[a.service]].service == a.service && m.info[m.addr[a.service]].refCount > 0
    requires i == Refreshed(m.info[m.addr[a.service]], a, penalty, now) && WantsAnotherSlot(i, a, rnd) && i.refCount <= 8
    requires GivenSlot(Put(m, m.addr[a.service], i), m.addr[a.service], NewSlot(env, m.key, a.service, source), now, r, added)
    ensures Reannounced(env, m, a, source, penalty, now, rnd, r, added)
  {
    hide NewSlot, IsTerrible;
    var id, slot := m.addr[a.service], NewSlot(env, m.key, a.service, source);
    var p := Put(m, id, i);
    assert !(slot in m.newTable && m.newTable[slot] == id) ==> (Overwritable(p, slot, now, false) <==> Overwritable(m, slot, now, false));
    if !added { assert forall o :: o in r.info <==> o in m.info; }
  }

  lemma ReannouncedOnly(env: Env, m: Manager, a: Address, source: nat, penalty: int, now: int, rnd: nat, i: Info)
    requires EnvOk(env) && Found(m, a.service) && 0 <= m.info[m.addr[a.service]].refCount <= 8
    requires i == Refreshed(m.info[m.addr[a.service]], a, penalty, now) && !WantsAnotherSlot(i, a, rnd)
    ensures Reannounced(env, m, a, source, penalty, now, rnd, Put(m, m.addr[a.service], i), false)
  {
    hide NewSlot, IsTerrible;
    var id := m.addr[a.service];
    assert forall o :: o in Put(m, id, i).info <==> o in m.info;
  }

  lemma DiscoveredPlaced(env: Env, m: Manager, a: Address, source: nat, penalty: int, now: int, r: Manager, added: bool)
    requires EnvOk(env) && m.idCount !in m.info && forall slot :: slot in m.newTable ==> m.newTable[slot] in m.info
    requires GivenSlot(Introduced(m, a, source, Max(0, a.time - penalty)), m.idCount, NewSlot(env, m.key, a.service, source), now, r, added)
    ensures Discovered(env, m, a, source, penalty, now, r, added)
  {
    hide NewSlot, IsTerrible;
    var slot, n := NewSlot(env, m.key, a.service, source), Introduced(m, a, source, Max(0, a.time - penalty));
    assert forall o :: o in m.info ==> o in n.info && n.info[o] == m.info[o];
    assert Overwritable(n, slot, now, true) <==> Overwritable(m, slot, now, true);
  }

  lemma NewHolders(env: Env, m: Manager)
    requires EnvOk(env) && Sound(env, m)
    ensures m.idCount !in m.info && forall slot :: slot in m.newTable ==> m.newTable[slot] in m.info
  {
  }

  /** AddSingle: when it adds, what it adds, and what it leaves. */
  lemma AddSingleEffect(env: Env, m: Manager, a: Address, source: nat, timePenalty: int, now: int, rnd: nat)
    requires EnvOk(env) && Sound(env, m)
    ensures var (r, added) := AddSingle(env, m, a, source, timePenalty, now, rnd);
            var penalty := if a.service.ip == source then 0 else timePenalty;
            if !env.routable(a.service.ip) then r == m && !added
            else if Found(m, a.service) then Reannounced(env, m, a, source, penalty, now, rnd, r, added)
            else Discovered(env, m, a, source, penalty, now, r, added)
  {
    hide Consistent, QueueOk, Refreshed, WantsAnotherSlot, PlaceNew, NewSlot, Reannounced, Discovered, GivenSlot;
    if env.routable(a.service.ip) {
      var penalty := if a.service.ip == source then 0 else timePenalty;
      if Found(m, a.service) {
        KnownEntry(env, m, a.service);
        var id := m.addr[a.service];
        var i := Refreshed(m.info[id], a, penalty, now);
        RefreshedRole(m.info[id], a, penalty, now);
        if WantsAnotherSlot(i, a, rnd) {
          StatsUpdateKeeps(env, m, id, i, {}, {});
          Wanting(i, a, rnd);
          PlaceNewEffect(env, Put(m, id, i), id, {}, source, now);
          var (r, added) := PlaceNew(env, Put(m, id, i), id, source, now);
          ReannouncedPlaced(env, m, a, source, penalty, now, rnd, i, r, added);
        } else {
          ReannouncedOnly(env, m, a, source, penalty, now, rnd, i);
        }
      } else {
        UnknownAddress(env, m, a.service);
        IntroduceKeeps(env, m, a, source, Max(0, a.time - penalty));
        IntroducedFrame(m, a, source, Max(0, a.time - penalty));
        var n := Introduced(m, a, source, Max(0, a.time - penalty));
        NewHolders(env, m);
        PlaceNewEffect(env, n, m.idCount, {m.idCount}, source, now);
        var (r, added) := PlaceNew(env, n, m.idCount, source, now);
        DiscoveredPlaced(env, m, a, source, penalty, now, r, added);
      }
    }
  }

  lemma Wanting(i: Info, a: Address, rnd: nat)
    requires WantsAnotherSlot(i, a, rnd)
    ensures !i.inTried && i.refCount != 8
  {
  }

  // ---------- statistics ----------

  /** Only the entry of the address changes, and nothing outside the entries. */
  ghost predicate OnlyEntry(m: Manager, s: Service, r: Manager)
    requires Found(m, s)
  {
    r == m.(info := r.info) && r.info.Keys == m.info.Keys && forall o :: o in m.info && o != m.addr[s] ==> r.info[o] == m.info[o]
  }

  /** A connection attempt: a failure counts only if none was counted since some peer last proved good. */
  lemma AttemptEffect(m: Manager, s: Service, countFailure: bool, time: int)
    ensures var r := Attempt(m, s, countFailure, time);
            if !Found(m, s) then r == m
            else
              var i, j := m.info[m.addr[s]], (if m.addr[s] in r.info then r.info[m.addr[s]] else NO_INFO);
              && OnlyEntry(m, s, r) && j == i.(lastTry := time, attempts := j.attempts, lastCountAttempt := j.lastCountAttempt)
              && (countFailure && i.lastCountAttempt < m.lastGood ==> j.attempts == i.attempts + 1 && j.lastCountAttempt == time)
              && (!countFailure || i.lastCountAttempt >= m.lastGood ==> j.attempts == i.attempts && j.lastCountAttempt == i.lastCountAttempt)
  {
  }

  /** However often an address is tried, one failure counts until a peer proves good again. */
  lemma OneFailureCounts(m: Manager, s: Service, time: int, again: int)
    requires Found(m, s) && time >= m.lastGood
    ensures var r := Attempt(m, s, true, time);
            var r' := Attempt(r, s, true, again);
            m.addr[s] in r.info && m.addr[s] in r'.info && r'.info[m.addr[s]].attempts == r.info[m.addr[s]].attempts
  {
    AttemptEffect(m, s, true, time);
    AttemptEffect(Attempt(m, s, true, time), s, true, again);
  }

  /** A live connection refreshes the time, at most every twenty minutes. */
  lemma ConnectedEffect(m: Manager, s: Service, time: nat)
    ensures var r := Connected(m, s, time);
            if !Found(m, s) then r == m
            else OnlyEntry(m, s, r) && m.addr[s] in r.info
                 && r.info[m.addr[s]] == m.info[m.addr[s]].(time := if time > m.info[m.addr[s]].time + 1200 then time else m.info[m.addr[s]].time)
  {
  }

  lemma SetServicesEffect(m: Manager, s: Service, services: set<nat>)
    ensures var r := SetServices(m, s, services);
            if !Found(m, s) then r == m
            else OnlyEntry(m, s, r) && m.addr[s] in r.info && r.info[m.addr[s]] == m.info[m.addr[s]].(services := services)
  {
  }

  /** The entry tested for a queued id is the holder of the tried slot the id waits for. */
  lemma SelectTriedCollisionEffect(env: Env, m: Manager, pick: int)
    requires EnvOk(env) && Sound(env, m) && pick in m.collisions
    ensures var (r, i) := SelectTriedCollision(env, m, pick);
            if pick in m.info then
              var slot := TriedSlot(env, m.key, m.info[pick].service);
              r == m && slot in m.triedTable && m.triedTable[slot] in m.info && i == m.info[m.triedTable[slot]]
            else r == m.(collisions := m.collisions - {pick}) && i == NO_INFO
  {
    if pick in m.info { QueuedCollision(env, m, pick); }
  }

  /** The limit of GetAddr_: the percentage, rounded down, and the number, each only if given. */
  lemma AddrLimitIs(size: nat, maxAddresses: nat, maxPct: nat)
    ensures var n := AddrLimit(size, maxAddresses, maxPct);
            && (maxAddresses != 0 ==> n <= maxAddresses)
            && (maxPct != 0 ==> n * 100 <= maxPct * size)
            && (maxPct == 0 ==> n <= size)
            && (n == maxAddresses != 0 || (if maxPct != 0 then maxPct * size < (n + 1) * 100 else n == size))
  {
  }

  /**
   * A terrible entry was not tried in the last minute, and is from the future, older than thirty
   * days or without a time, failed three times without ever succeeding, or failed ten times since a
   * success more than a week ago.
   */
  lemma TerribleIff(i: Info, now: int)
    ensures IsTerrible(i, now) <==>
            && (i.lastTry == 0 || now - i.lastTry > 60)
            && (|| i.time > now + 600 || i.time == 0 || now - i.time > 2592000
                || (i.lastSuccess == 0 && i.attempts >= 3)
                || (now - i.lastSuccess > 604800 && i.attempts >= 10))
  {
  }

  // ---------- the shuffle of GetAddr_ ----------

  function Swapped(s: seq<int>, i: nat, j: nat): (r: seq<int>)
    requires i < |s| && j < |s|
    ensures |r| == |s|
  {
    s[i := s[j]][j := s[i]]
  }

  /** Positions n to n + k - 1 are drawn, one after the other, from the positions not yet drawn. */
  function Shuffled(s: seq<int>, n: nat, k: nat, picks: nat -> nat): (r: seq<int>)
    requires n + k <= |s|
    ensures |r| == |s|
    decreases k
  {
    if k == 0 then s else Shuffled(Swapped(s, n, Partner(n, |s|, picks(n))), n + 1, k - 1, picks)
  }

  function Services(got: seq<Info>): seq<Service> {
    if got == [] then [] else Services(got[..|got| - 1]) + [got[|got| - 1].service]
  }

  /** The addresses on offer among a list of ids, in order. */
  function Selected(info: map<int, Info>, ids: seq<int>, wanted: nat -> bool, now: int): seq<Service> {
    if ids == [] then []
    else
      (if ids[0] in info && Offered(info[ids[0]], now, wanted) then [info[ids[0]].service] else []) + Selected(info, ids[1..], wanted, now)
  }

  lemma {:induction false} SelectedSame(a: map<int, Info>, b: map<int, Info>, ids: seq<int>, wanted: nat -> bool, now: int)
    requires (forall o :: o in a <==> o in b) && forall o :: o in a ==> SameFacts(a[o], b[o])
    ensures Selected(a, ids, wanted, now) == Selected(b, ids, wanted, now)
  {
    if ids != [] { SelectedSame(a, b, ids[1..], wanted, now); }
  }

  lemma ShuffledBefore(s: seq<int>, n: nat, k: nat, picks: nat -> nat)
    requires n + k <= |s|
    ensures forall i :: 0 <= i < n ==> Shuffled(s, n, k, picks)[i] == s[i]
    decreases k
  {
    if k > 0 { ShuffledBefore(Swapped(s, n, Partner(n, |s|, picks(n))), n + 1, k - 1, picks); }
  }

  /**
   * GetAddr_ draws ids without replacement, each by its own pick among those left, and returns the
   * addresses on offer among them in the order drawn, until the limit is reached or none is left.
   */
  lemma {:induction false} GetAddrDraws(m: Manager, n: nat, limit: nat, picks: nat -> nat, wanted: nat -> bool, now: int, got: seq<Info>) returns (k: nat)
    requires RandomOk(m.info, m.random) && n <= |m.random|
    ensures var (r, all) := GetAddr(m, n, limit, picks, wanted, now, got);
            && n + k <= |m.random| && (n + k == |m.random| || |all| >= limit) && (k > 0 ==> |got| < limit)
            && r.random == Shuffled(m.random, n, k, picks)
            && Services(all) == Services(got) + Selected(m.info, Shuffled(m.random, n, k, picks)[n..n + k], wanted, now)
    decreases |m.random| - n
  {
    hide IsTerrible, RandomOk, SwapRandom, Shuffled, Selected, Services, Offered;
    ShuffledStart(m.random, n, picks);
    SelectedNone(m.info, wanted, now);
    if n >= |m.random| || |got| >= limit {
      k := 0;
      assert m.random[n..n + k] == [];
    } else {
      hide GetAddr;
      var j := Partner(n, |m.random|, picks(n));
      var s := SwapRandom(m, n, j);
      SwappedIs(m, n, j);
      SwappedFacts(m, n, j);
      var i := s.info[s.random[n]];
      var got' := if Offered(i, now, wanted) then got + [i] else got;
      GetAddrStep(m, n, limit, picks, wanted, now, got);
      k := GetAddrDraws(s, n + 1, limit, picks, wanted, now, got');
      DrawnStep(m, s, n, k, picks, wanted, now, i, got, got');
      k := k + 1;
    }
  }

  lemma GetAddrStep(m: Manager, n: nat, limit: nat, picks: nat -> nat, wanted: nat -> bool, now: int, got: seq<Info>)
    requires n < |m.random| && |got| < limit
    ensures var s := SwapRandom(m, n, Partner(n, |m.random|, picks(n)));
            var i := Get(s, s.random[n]);
            GetAddr(m, n, limit, picks, wanted, now, got) == GetAddr(s, n + 1, limit, picks, wanted, now, if Offered(i, now, wanted) then got + [i] else got)
  {
    hide IsTerrible, SwapRandom;
  }

  lemma ShuffledStart(s: seq<int>, n: nat, picks: nat -> nat)
    requires n <= |s|
    ensures Shuffled(s, n, 0, picks) == s
  {
  }

  lemma SelectedNone(info: map<int, Info>, wanted: nat -> bool, now: int)
    ensures Selected(info, [], wanted, now) == []
  {
  }

  /** One draw. */
  lemma DrawnStep(m: Manager, s: Manager, n: nat, k: nat, picks: nat -> nat, wanted: nat -> bool, now: int, i: Info, got: seq<Info>, got': seq<Info>)
    requires n + 1 + k <= |m.random| == |s.random| && s.random == Swapped(m.random, n, Partner(n, |m.random|, picks(n)))
    requires (forall o :: o in s.info <==> o in m.info) && (forall o :: o in m.info ==> SameFacts(s.info[o], m.info[o]))
    requires s.random[n] in s.info && i == s.info[s.random[n]] && got' == if Offered(i, now, wanted) then got + [i] else got
    ensures Shuffled(m.random, n, k + 1, picks) == Shuffled(s.random, n + 1, k, picks)
    ensures Services(got') + Selected(s.info, Shuffled(s.random, n + 1, k, picks)[n + 1..n + 1 + k], wanted, now)
            == Services(got) + Selected(m.info, Shuffled(m.random, n, k + 1, picks)[n..n + (k + 1)], wanted, now)
  {
    hide Offered;
    var drawn := Shuffled(s.random, n + 1, k, picks);
    ShuffledBefore(s.random, n + 1, k, picks);
    var later := drawn[n + 1..n + 1 + k];
    SelectedSame(s.info, m.info, later, wanted, now);
    assert drawn[n..n + (k + 1)] == [drawn[n]] + later;
    SelectedFirst(m.info, drawn[n], later, wanted, now);
    OfferedSame(i, m.info[s.random[n]], now, wanted);
    if got' != got { assert got'[..|got|] == got; }
  }

  lemma SelectedFirst(info: map<int, Info>, id: int, later: seq<int>, wanted: nat -> bool, now: int)
    requires id in info
    ensures Selected(info, [id] + later, wanted, now) == (if Offered(info[id], now, wanted) then [info[id].service] else []) + Selected(info, later, wanted, now)
  {
    assert ([id] + later)[1..] == later;
  }

  lemma OfferedSame(a: Info, b: Info, now: int, wanted: nat -> bool)
    requires SameFacts(a, b)
    ensures Offered(a, now, wanted) == Offered(b, now, wanted) && a.service == b.service
  {
  }

  lemma SwappedIs(m: Manager, i: nat, j: nat)
    requires RandomOk(m.info, m.random) && i < |m.random| && j < |m.random|
    ensures var w := SwapRandom(m, i, j);
            w.random == Swapped(m.random, i, j) && RandomOk(w.info, w.random) && w.random[i] in m.info
  {
    SwapRandomOk(m, i, j);
    assert m.random[i] in m.info && m.random[j] in m.info;
  }
}
