/**
 * Unserialize undoes Serialize: nothing is lost, and the rebuilt manager is the original one
 * with its ids renumbered.
 */
module AddrManRoundTrip {
  import opened Common
  import opened AddrMan
  import opened AddrManInvariant
  import opened AddrManOps
  import opened AddrManCheck
  import opened AddrManDisk

  // ---------- the order in which entries are written ----------

  ghost predicate Distinct(s: seq<int>) {
    forall i, j :: 0 <= i < j < |s| ==> s[i] != s[j]
  }

  /** A walk over mapInfo: every id once. */
  ghost predicate IsWalk(m: Manager, order: seq<int>) {
    Distinct(order) && forall id :: id in order <==> id in m.info
  }

  lemma {:induction false} NewOrderElements(m: Manager, order: seq<int>)
    requires Distinct(order)
    ensures Distinct(NewOrder(m, order))
    ensures forall id :: id in NewOrder(m, order) <==> id in order && Get(m, id).refCount != 0
    decreases |order|
  {
    if order != [] {
      var rest, id := order[..|order| - 1], order[|order| - 1];
      NewOrderElements(m, rest);
      assert order == rest + [id] && id !in rest;
    }
  }

  lemma {:induction false} TriedOrderElements(m: Manager, order: seq<int>)
    requires Distinct(order)
    ensures Distinct(TriedOrder(m, order))
    ensures forall id :: id in TriedOrder(m, order) <==> id in order && Get(m, id).inTried
    decreases |order|
  {
    if order != [] {
      var rest, id := order[..|order| - 1], order[|order| - 1];
      TriedOrderElements(m, rest);
      assert order == rest + [id] && id !in rest;
    }
  }

  lemma {:induction false} DistinctSize(s: seq<int>, ids: set<int>)
    requires Distinct(s) && forall id :: id in s <==> id in ids
    ensures |s| == |ids|
    decreases |s|
  {
    if s == [] {
      assert forall id :: id !in ids;
      assert ids == {};
    } else {
      var rest, id := s[..|s| - 1], s[|s| - 1];
      assert s == rest + [id] && id !in rest;
      assert forall o :: o in rest <==> o in ids - {id};
      DistinctSize(rest, ids - {id});
    }
  }

  /** All entries in the order in which loading numbers them. */
  ghost function Numbering(m: Manager, order: seq<int>): seq<int> {
    NewOrder(m, order) + TriedOrder(m, order)
  }

  lemma NumberingSizes(env: Env, m: Manager, order: seq<int>)
    requires Consistent(env, m, {}, {}) && IsWalk(m, order)
    ensures var ns, ts := NewOrder(m, order), TriedOrder(m, order);
            && |ns| == m.nNew && |ts| == m.nTried && Distinct(ns) && Distinct(ts)
            && (forall id :: id in ns <==> id in m.info && !m.info[id].inTried)
            && (forall id :: id in ts <==> id in m.info && m.info[id].inTried)
  {
    hide Consistent, NewOrder, TriedOrder;
    var ns, ts := NewOrder(m, order), TriedOrder(m, order);
    NewOrderElements(m, order);
    TriedOrderElements(m, order);
    RolesSplit(env, m);
    assert forall id :: id in ns <==> id in NewIds(m.info) - {};
    DistinctSize(ns, NewIds(m.info) - {});
    assert forall id :: id in ts <==> id in TriedIds(m.info);
    DistinctSize(ts, TriedIds(m.info));
  }

  lemma Concatenated(a: seq<int>, b: seq<int>)
    requires Distinct(a) && Distinct(b) && forall x :: x in a ==> x !in b
    ensures Distinct(a + b) && forall x :: x in a + b <==> x in a || x in b
    ensures forall i :: 0 <= i < |a + b| ==> if i < |a| then (a + b)[i] in a else (a + b)[i] in b
  {
    forall i, j | 0 <= i < j < |a + b| ensures (a + b)[i] != (a + b)[j] {
      if i < |a| <= j { assert a[i] in a && b[j - |a|] in b; }
    }
  }

  lemma NumberingFacts(env: Env, m: Manager, order: seq<int>)
    requires Consistent(env, m, {}, {}) && IsWalk(m, order)
    ensures var all := Numbering(m, order);
            && |NewOrder(m, order)| == m.nNew && |TriedOrder(m, order)| == m.nTried
            && Distinct(all) && (forall id :: id in all <==> id in m.info)
            && (forall x :: 0 <= x < |all| ==> var id := all[x]; id in m.info && (m.info[id].inTried <==> x >= m.nNew))
  {
    hide Consistent, NewOrder, TriedOrder, Distinct;
    NumberingSizes(env, m, order);
    Concatenated(NewOrder(m, order), TriedOrder(m, order));
  }

  lemma RolesSplit(env: Env, m: Manager)
    requires Consistent(env, m, {}, {})
    ensures forall id :: id in m.info ==> (m.info[id].inTried <==> m.info[id].refCount == 0)
    ensures m.nTried == |TriedIds(m.info)| && m.nNew == |NewIds(m.info) - {}|
  {
  }

  // ---------- what has been loaded so far ----------

  ghost function PlacedOf(m: Manager, slots: set<Slot>, id: int): (r: set<Slot>)
    ensures forall slot :: slot in r <==> slot in slots && slot in m.newTable && m.newTable[slot] == id
  {
    set slot | slot in slots && slot in m.newTable && m.newTable[slot] == id
  }

  ghost function Image(i: Info, x: int, refs: int): Info {
    Fresh(Save(i), x).(inTried := i.inTried, refCount := refs)
  }

  /** Entries 0..size-1 of `l` mirror the entries all[0..size-1] of `m`. */
  ghost predicate EntriesMirror(m: Manager, all: seq<int>, l: Manager, size: nat, slots: set<Slot>) {
    && size <= |all|
    && (forall x :: x in l.info <==> 0 <= x < size)
    && (forall x :: 0 <= x < size ==> all[x] in m.info && l.info[x] == Image(m.info[all[x]], x, |PlacedOf(m, slots, all[x])|))
    && |l.random| == size && (forall i :: 0 <= i < size ==> l.random[i] == i)
  }

  ghost predicate AddrMirror(m: Manager, all: seq<int>, l: Manager, size: nat) {
    && size <= |all|
    && (forall x :: 0 <= x < size ==> all[x] in m.info && var s := m.info[all[x]].service; s in l.addr && l.addr[s] == x)
    && (forall s :: s in l.addr ==> var x := l.addr[s]; 0 <= x < size && all[x] in m.info && m.info[all[x]].service == s)
  }

  ghost predicate TriedMirror(env: Env, m: Manager, all: seq<int>, l: Manager, size: nat)
    requires EnvOk(env)
  {
    && size <= |all|
    && (forall slot :: slot in l.triedTable ==>
          var x := l.triedTable[slot]; 0 <= x < size && slot in m.triedTable && m.triedTable[slot] == all[x])
    && (forall x :: 0 <= x < size && all[x] in m.info && m.info[all[x]].inTried ==>
          var slot := TriedSlot(env, m.key, m.info[all[x]].service); slot in l.triedTable && l.triedTable[slot] == x)
  }

  ghost predicate NewMirror(m: Manager, all: seq<int>, l: Manager, size: nat, slots: set<Slot>) {
    && size <= |all|
    && (forall slot :: slot in l.newTable <==> slot in slots)
    && (forall slot :: slot in slots ==> slot in m.newTable)
    && (forall slot :: slot in l.newTable ==> var x := l.newTable[slot]; 0 <= x < size && all[x] == m.newTable[slot])
  }

  ghost predicate Mirror(env: Env, m: Manager, all: seq<int>, l: Manager, size: nat, slots: set<Slot>)
    requires EnvOk(env)
  {
    && l.key == m.key && l.nNew == m.nNew && l.nTried == m.nTried && l.collisions == {} && l.lastGood == 1
    && EntriesMirror(m, all, l, size, slots)
    && AddrMirror(m, all, l, size)
    && TriedMirror(env, m, all, l, size)
    && NewMirror(m, all, l, size, slots)
  }

  lemma NothingPlaced(m: Manager, id: int)
    ensures |PlacedOf(m, {}, id)| == 0
  {
    assert forall slot :: slot !in PlacedOf(m, {}, id);
    assert PlacedOf(m, {}, id) == {};
  }

  // ---------- loading the entries ----------

  /** Two ids with one address are one id. */
  lemma OneAddress(env: Env, m: Manager, a: int, b: int)
    requires Consistent(env, m, {}, {}) && a in m.info && b in m.info && m.info[a].service == m.info[b].service
    ensures a == b
  {
  }

  lemma EntriesStep(m: Manager, all: seq<int>, l: Manager, l': Manager, size: nat)
    requires EntriesMirror(m, all, l, size, {}) && size < |all| && all[size] in m.info
    requires l'.info == l.info[size := Fresh(Save(m.info[all[size]]), size).(inTried := m.info[all[size]].inTried)]
    requires l'.random == l.random + [size]
    ensures EntriesMirror(m, all, l', size + 1, {})
  {
    NothingPlaced(m, all[size]);
  }

  lemma LoadNewStep(env: Env, m: Manager, all: seq<int>, l: Manager, l': Manager, size: nat)
    requires EnvOk(env) && Consistent(env, m, {}, {}) && Distinct(all) && Mirror(env, m, all, l, size, {})
    requires size < |all| && all[size] in m.info && !m.info[all[size]].inTried
    requires l' == l.(info := l.info[size := Fresh(Save(m.info[all[size]]), size)],
                      addr := l.addr[m.info[all[size]].service := size], random := l.random + [size])
    ensures Mirror(env, m, all, l', size + 1, {})
  {
    hide Consistent, EntriesMirror, AddrMirror, Distinct;
    AddrStep(env, m, all, l, l', size);
    EntriesStep(m, all, l, l', size);
  }

  lemma AddrStep(env: Env, m: Manager, all: seq<int>, l: Manager, l': Manager, size: nat)
    requires Consistent(env, m, {}, {}) && Distinct(all) && AddrMirror(m, all, l, size) && size < |all| && all[size] in m.info
    requires l'.addr == l.addr[m.info[all[size]].service := size]
    ensures AddrMirror(m, all, l', size + 1)
  {
    forall x | 0 <= x < size ensures m.info[all[x]].service != m.info[all[size]].service {
      if m.info[all[x]].service == m.info[all[size]].service { OneAddress(env, m, all[x], all[size]); }
    }
  }

  lemma {:induction false} LoadNewMirrors(env: Env, m: Manager, order: seq<int>, start: Manager, n: nat)
    requires EnvOk(env) && Consistent(env, m, {}, {}) && IsWalk(m, order) && n <= m.nNew
    requires start == Empty(m.key).(nNew := m.nNew, nTried := m.nTried, idCount := m.nNew)
    requires |NewOrder(m, order)| == m.nNew
    ensures var l := LoadNew(start, SaveAll(m, NewOrder(m, order)), n);
            Mirror(env, m, Numbering(m, order), l, n, {}) && l.idCount == m.nNew
  {
    NumberingFacts(env, m, order);
    var all := Numbering(m, order);
    hide Consistent, NewOrder, TriedOrder, Mirror;
    if n == 0 {
      MirrorStart(env, m, all, start);
    } else {
      LoadNewMirrors(env, m, order, start, n - 1);
      var l := LoadNew(start, SaveAll(m, NewOrder(m, order)), n - 1);
      MirrorSize(env, m, all, l, n - 1);
      assert all[n - 1] == NewOrder(m, order)[n - 1];
      LoadNewStep(env, m, all, l, LoadNew(start, SaveAll(m, NewOrder(m, order)), n), n - 1);
    }
  }

  lemma MirrorStart(env: Env, m: Manager, all: seq<int>, start: Manager)
    requires EnvOk(env) && start == Empty(m.key).(nNew := m.nNew, nTried := m.nTried, idCount := m.nNew)
    ensures Mirror(env, m, all, start, 0, {})
  {
  }

  lemma MirrorSize(env: Env, m: Manager, all: seq<int>, l: Manager, size: nat)
    requires EnvOk(env) && Mirror(env, m, all, l, size, {})
    ensures |l.random| == size && l.key == m.key
  {
  }

  /** No other entry has taken the tried slot before its owner is read. */
  lemma TriedSlotFree(env: Env, m: Manager, all: seq<int>, l: Manager, size: nat)
    requires EnvOk(env) && Distinct(all) && TriedMirror(env, m, all, l, size) && size < |all| && all[size] in m.info
    requires var slot := TriedSlot(env, m.key, m.info[all[size]].service); slot in m.triedTable && m.triedTable[slot] == all[size]
    ensures TriedSlot(env, m.key, m.info[all[size]].service) !in l.triedTable
  {
  }

  lemma TriedStep(env: Env, m: Manager, all: seq<int>, l: Manager, l': Manager, size: nat)
    requires EnvOk(env) && TriedMirror(env, m, all, l, size) && size < |all| && all[size] in m.info
    requires var slot := TriedSlot(env, m.key, m.info[all[size]].service);
             slot in m.triedTable && m.triedTable[slot] == all[size] && slot !in l.triedTable && l'.triedTable == l.triedTable[slot := size]
    ensures TriedMirror(env, m, all, l', size + 1)
  {
  }

  lemma LoadTriedStep(env: Env, m: Manager, all: seq<int>, l: Manager, size: nat)
    requires EnvOk(env) && Consistent(env, m, {}, {}) && Distinct(all) && Mirror(env, m, all, l, size, {}) && l.idCount == size
    requires size < |all| && all[size] in m.info && m.info[all[size]].inTried
    ensures var l' := LoadOneTried(env, l, Save(m.info[all[size]]));
            Mirror(env, m, all, l', size + 1, {}) && l'.idCount == size + 1
  {
    var l' := LoadOneTried(env, l, Save(m.info[all[size]]));
    assert |l.random| == size;
    hide Consistent, EntriesMirror, AddrMirror, TriedMirror, Distinct;
    TriedEntry(env, m, all[size]);
    TriedSlotFree(env, m, all, l, size);
    AddrStep(env, m, all, l, l', size);
    EntriesStep(m, all, l, l', size);
    TriedStep(env, m, all, l, l', size);
  }

  lemma TriedEntry(env: Env, m: Manager, id: int)
    requires Consistent(env, m, {}, {}) && id in m.info
    ensures env.valid(m.info[id].service.ip) && id >= 0
    ensures m.info[id].inTried ==> var slot := TriedSlot(env, m.key, m.info[id].service); slot in m.triedTable && m.triedTable[slot] == id
  {
  }

  lemma {:induction false} LoadTriedMirrors(env: Env, m: Manager, order: seq<int>, l: Manager, n: nat)
    requires EnvOk(env) && Consistent(env, m, {}, {}) && IsWalk(m, order) && n <= m.nTried
    requires |NewOrder(m, order)| == m.nNew && |TriedOrder(m, order)| == m.nTried
    requires Mirror(env, m, Numbering(m, order), l, m.nNew, {}) && l.idCount == m.nNew
    ensures var t := LoadTried(env, l, SaveAll(m, TriedOrder(m, order)), n);
            Mirror(env, m, Numbering(m, order), t, m.nNew + n, {}) && t.idCount == m.nNew + n
  {
    hide Consistent, NewOrder, TriedOrder, Mirror, LoadOneTried;
    if n > 0 {
      NumberingFacts(env, m, order);
      LoadTriedMirrors(env, m, order, l, n - 1);
      var all, t := Numbering(m, order), LoadTried(env, l, SaveAll(m, TriedOrder(m, order)), n - 1);
      assert all[m.nNew + n - 1] == TriedOrder(m, order)[n - 1];
      LoadTriedStep(env, m, all, t, m.nNew + n - 1);
    }
  }

  // ---------- loading the buckets ----------

  lemma PlacedMore(m: Manager, slots: set<Slot>, slot: Slot, id: int)
    requires slot in m.newTable && slot !in slots
    ensures |PlacedOf(m, slots + {slot}, id)| == |PlacedOf(m, slots, id)| + (if m.newTable[slot] == id then 1 else 0)
  {
    var more := if m.newTable[slot] == id then {slot} else {};
    assert forall s :: s in PlacedOf(m, slots + {slot}, id) <==> s in PlacedOf(m, slots, id) + more;
    assert PlacedOf(m, slots + {slot}, id) == PlacedOf(m, slots, id) + more;
  }

  /** An entry has fewer than its references placed while one of its slots is missing. */
  lemma RoomLeft(env: Env, m: Manager, slots: set<Slot>, slot: Slot)
    requires Consistent(env, m, {}, {}) && slot in m.newTable && slot !in slots
    ensures var id := m.newTable[slot];
            && id in m.info && !m.info[id].inTried && |PlacedOf(m, slots, id)| < NEW_BUCKETS_PER_ADDRESS
            && slot.bucket < env.newCount && slot == SlotInNew(env, m.key, m.info[id].service, slot.bucket)
            && env.valid(m.info[id].service.ip)
  {
    var id := m.newTable[slot];
    assert forall s :: s in PlacedOf(m, slots, id) ==> s in SlotsOf(m.newTable, id) - {slot};
    SubsetSize(PlacedOf(m, slots, id), SlotsOf(m.newTable, id) - {slot});
    assert slot in SlotsOf(m.newTable, id);
  }

  lemma PlaceEntriesStep(m: Manager, all: seq<int>, l: Manager, size: nat, slots: set<Slot>, slot: Slot, x: nat)
    requires EntriesMirror(m, all, l, size, slots) && slot in m.newTable && slot !in slots && Distinct(all)
    requires x < size && all[x] == m.newTable[slot]
    ensures EntriesMirror(m, all, TakeSlotFor(l, x, slot), size, slots + {slot})
  {
    forall y | 0 <= y < size
      ensures |PlacedOf(m, slots + {slot}, all[y])| == |PlacedOf(m, slots, all[y])| + (if y == x then 1 else 0)
    {
      PlacedMore(m, slots, slot, all[y]);
    }
  }

  lemma PlaceEntryTakes(env: Env, l: Manager, slot: Slot, x: int)
    requires EnvOk(env) && x in l.info && slot !in l.newTable && env.valid(l.info[x].service.ip)
    requires l.info[x].refCount < NEW_BUCKETS_PER_ADDRESS && slot == SlotInNew(env, l.key, l.info[x].service, slot.bucket)
    ensures PlaceEntry(env, l, true, BucketEntry(slot.bucket, x)) == TakeSlotFor(l, x, slot)
  {
  }

  lemma NewStep(m: Manager, all: seq<int>, l: Manager, size: nat, slots: set<Slot>, slot: Slot, x: nat)
    requires NewMirror(m, all, l, size, slots) && slot in m.newTable && x < size && all[x] == m.newTable[slot]
    ensures NewMirror(m, all, TakeSlotFor(l, x, slot), size, slots + {slot})
  {
  }

  lemma MirrorEntry(m: Manager, all: seq<int>, l: Manager, size: nat, slots: set<Slot>, x: nat)
    requires EntriesMirror(m, all, l, size, slots) && x < size
    ensures x in l.info && all[x] in m.info && l.info[x] == Image(m.info[all[x]], x, |PlacedOf(m, slots, all[x])|)
  {
  }

  lemma PlaceStep(env: Env, m: Manager, all: seq<int>, l: Manager, size: nat, slots: set<Slot>, slot: Slot, x: nat)
    requires EnvOk(env) && Consistent(env, m, {}, {}) && Distinct(all) && Mirror(env, m, all, l, size, slots)
    requires slot in m.newTable && slot !in slots && x < size && all[x] == m.newTable[slot]
    ensures Mirror(env, m, all, PlaceEntry(env, l, true, BucketEntry(slot.bucket, x)), size, slots + {slot})
  {
    hide Consistent, EntriesMirror, AddrMirror, TriedMirror, PlaceEntry, Distinct;
    RoomLeft(env, m, slots, slot);
    MirrorEntry(m, all, l, size, slots, x);
    assert slot !in l.newTable;
    PlaceEntryTakes(env, l, slot, x);
    PlaceEntriesStep(m, all, l, size, slots, slot, x);
    NewStep(m, all, l, size, slots, slot, x);
    SameAddrTried(env, m, all, l, TakeSlotFor(l, x, slot), size);
  }

  lemma SameAddrTried(env: Env, m: Manager, all: seq<int>, l: Manager, l': Manager, size: nat)
    requires EnvOk(env) && AddrMirror(m, all, l, size) && TriedMirror(env, m, all, l, size)
    requires l'.addr == l.addr && l'.triedTable == l.triedTable
    ensures AddrMirror(m, all, l', size) && TriedMirror(env, m, all, l', size)
  {
  }

  lemma {:induction false} PlaceAppend(env: Env, l: Manager, restore: bool, a: seq<BucketEntry>, b: seq<BucketEntry>, n: nat)
    requires EnvOk(env) && n <= |b|
    ensures PlaceEntries(env, l, restore, a + b, |a| + n) == PlaceEntries(env, PlaceEntries(env, l, restore, a, |a|), restore, b, n)
  {
    if n == 0 {
      PlacePrefix(env, l, restore, a, b, |a|);
    } else {
      PlaceAppend(env, l, restore, a, b, n - 1);
      assert (a + b)[|a| + n - 1] == b[n - 1];
    }
  }

  lemma {:induction false} PlacePrefix(env: Env, l: Manager, restore: bool, a: seq<BucketEntry>, b: seq<BucketEntry>, n: nat)
    requires EnvOk(env) && n <= |a|
    ensures PlaceEntries(env, l, restore, a + b, n) == PlaceEntries(env, l, restore, a, n)
  {
    if n > 0 { PlacePrefix(env, l, restore, a, b, n - 1); }
  }

  /** The occupied slots met before position p of bucket b. */
  ghost function Met(m: Manager, b: nat, p: nat): (r: set<Slot>)
    ensures forall slot :: slot in r <==> slot in m.newTable && Visited(slot, b, p)
  {
    set slot | slot in m.newTable && Visited(slot, b, p)
  }

  lemma MetNext(m: Manager, b: nat, p: nat)
    ensures Met(m, b, p + 1) == if Slot(b, p) in m.newTable then Met(m, b, p) + {Slot(b, p)} else Met(m, b, p)
    ensures Slot(b, p) !in Met(m, b, p)
  {
    var r := if Slot(b, p) in m.newTable then Met(m, b, p) + {Slot(b, p)} else Met(m, b, p);
    forall slot ensures slot in Met(m, b, p + 1) <==> slot in r {
      assert Visited(slot, b, p + 1) <==> Visited(slot, b, p) || slot == Slot(b, p);
    }
  }

  lemma MetEdges(env: Env, m: Manager, b: nat)
    requires forall slot :: slot in m.newTable ==> slot.bucket < env.newCount && slot.pos < env.bucketSize
    ensures Met(m, 0, 0) == {}
    ensures Met(m, b, env.bucketSize) == Met(m, b + 1, 0)
    ensures forall slot :: slot in Met(m, env.newCount, 0) <==> slot in m.newTable
  {
    assert forall slot :: slot !in Met(m, 0, 0);
    assert forall slot :: slot in Met(m, b, env.bucketSize) <==> slot in Met(m, b + 1, 0);
  }

  /** A row read back: one entry for each occupied position. */
  lemma {:induction false} RowRead(m: Manager, ids: seq<int>, b: nat, p: nat)
    requires forall slot :: slot in m.newTable ==> m.newTable[slot] in ids
    ensures var row := Row(m, ids, b, p);
            p > 0 ==>
              RowEntries(b, row, |ids|, |row|)
              == RowEntries(b, Row(m, ids, b, p - 1), |ids|, |Row(m, ids, b, p - 1)|)
                 + (if Slot(b, p - 1) in m.newTable then [BucketEntry(b, IndexOf(ids, m.newTable[Slot(b, p - 1)]))] else [])
  {
    if p > 0 {
      var before, row := Row(m, ids, b, p - 1), Row(m, ids, b, p);
      if Slot(b, p - 1) in m.newTable {
        assert m.newTable[Slot(b, p - 1)] in ids;
        assert row == before + [IndexOf(ids, m.newTable[Slot(b, p - 1)])];
        RowPrefix(b, before, row, |ids|, |before|);
      } else {
        assert row == before;
      }
    }
  }

  lemma {:induction false} RowPrefix(b: nat, before: seq<int>, row: seq<int>, nNew: int, k: nat)
    requires before <= row && k <= |before|
    ensures RowEntries(b, before, nNew, k) == RowEntries(b, row, nNew, k)
  {
    if k > 0 { RowPrefix(b, before, row, nNew, k - 1); }
  }

  /** What placing needs to know about the numbering of the new entries. */
  ghost predicate Numbered(m: Manager, all: seq<int>, ids: seq<int>) {
    Distinct(all) && ids <= all && forall slot :: slot in m.newTable ==> m.newTable[slot] in ids
  }

  lemma {:induction false} PlaceRow(env: Env, m: Manager, all: seq<int>, ids: seq<int>, l: Manager, b: nat, p: nat)
    requires EnvOk(env) && Consistent(env, m, {}, {}) && Numbered(m, all, ids) && Mirror(env, m, all, l, |all|, Met(m, b, 0))
    ensures var row := Row(m, ids, b, p);
            var es := RowEntries(b, row, |ids|, |row|);
            Mirror(env, m, all, PlaceEntries(env, l, true, es, |es|), |all|, Met(m, b, p))
  {
    hide Consistent, Mirror, Row, RowEntries, PlaceEntry;
    if p == 0 {
      EmptyRow(env, m, ids, l, b);
    } else {
      PlaceRow(env, m, all, ids, l, b, p - 1);
      RowRead(m, ids, b, p);
      MetNext(m, b, p - 1);
      var row0 := Row(m, ids, b, p - 1);
      var es0 := RowEntries(b, row0, |ids|, |row0|);
      var l0 := PlaceEntries(env, l, true, es0, |es0|);
      if Slot(b, p - 1) in m.newTable {
        var x := IndexOf(ids, m.newTable[Slot(b, p - 1)]);
        assert all[x] == ids[x];
        PlaceStep(env, m, all, l0, |all|, Met(m, b, p - 1), Slot(b, p - 1), x);
        PlacePrefix(env, l, true, es0, [BucketEntry(b, x)], |es0|);
      } else {
        assert es0 + [] == es0;
      }
    }
  }

  lemma EmptyRow(env: Env, m: Manager, ids: seq<int>, l: Manager, b: nat)
    requires EnvOk(env)
    ensures var row := Row(m, ids, b, 0);
            var es := RowEntries(b, row, |ids|, |row|);
            PlaceEntries(env, l, true, es, |es|) == l
  {
  }

  lemma {:induction false} PlaceRows(env: Env, m: Manager, all: seq<int>, ids: seq<int>, l: Manager, b: nat)
    requires EnvOk(env) && Consistent(env, m, {}, {}) && Numbered(m, all, ids) && Mirror(env, m, all, l, |all|, {}) && b <= env.newCount
    requires forall slot :: slot in m.newTable ==> slot.bucket < env.newCount && slot.pos < env.bucketSize
    ensures var es := AllEntries(Rows(env, m, ids), |ids|, b);
            Mirror(env, m, all, PlaceEntries(env, l, true, es, |es|), |all|, Met(m, b, 0))
  {
    hide Consistent, Mirror, Row, RowEntries, PlaceEntry, Numbered, Met;
    if b == 0 {
      MetEdges(env, m, 0);
    } else {
      PlaceRows(env, m, all, ids, l, b - 1);
      MetEdges(env, m, b - 1);
      var es0 := AllEntries(Rows(env, m, ids), |ids|, b - 1);
      var row := Row(m, ids, b - 1, env.bucketSize);
      var es1 := RowEntries(b - 1, row, |ids|, |row|);
      PlaceRow(env, m, all, ids, PlaceEntries(env, l, true, es0, |es0|), b - 1, env.bucketSize);
      PlaceAppend(env, l, true, es0, es1, |es1|);
    }
  }

  // ---------- the rebuilt manager ----------

  /** `l` is `m` with entry all[x] renumbered x: same entries, same slots, same counts. */
  ghost predicate Renumbered(m: Manager, l: Manager, all: seq<int>) {
    && Distinct(all) && (forall id :: id in all <==> id in m.info)
    && l.key == m.key && l.nNew == m.nNew && l.nTried == m.nTried
    && (forall x :: x in l.info <==> 0 <= x < |all|)
    && (forall x :: 0 <= x < |all| ==> var id := all[x];
          id in m.info && Save(l.info[x]) == Save(m.info[id]) && l.info[x].inTried == m.info[id].inTried
          && l.info[x].refCount == m.info[id].refCount)
    && (forall s :: s in l.addr <==> s in m.addr)
    && (forall s :: s in l.addr ==> var x := l.addr[s]; 0 <= x < |all| && all[x] == m.addr[s])
    && (forall slot :: slot in l.triedTable <==> slot in m.triedTable)
    && (forall slot :: slot in l.triedTable ==> var x := l.triedTable[slot]; 0 <= x < |all| && all[x] == m.triedTable[slot])
    && (forall slot :: slot in l.newTable <==> slot in m.newTable)
    && (forall slot :: slot in l.newTable ==> var x := l.newTable[slot]; 0 <= x < |all| && all[x] == m.newTable[slot])
  }

  /** Everything has been loaded. */
  ghost predicate FullMirror(env: Env, m: Manager, all: seq<int>, l: Manager, slots: set<Slot>)
    requires EnvOk(env)
  {
    && Mirror(env, m, all, l, |all|, slots) && l.idCount == |all|
    && (forall slot :: slot in slots <==> slot in m.newTable)
    && Distinct(all) && (forall id :: id in all <==> id in m.info)
    && (forall x :: 0 <= x < |all| ==> var id := all[x]; id in m.info && (m.info[id].inTried <==> x >= m.nNew))
    && |all| == m.nNew + m.nTried
  }

  lemma AllPlaced(env: Env, m: Manager, slots: set<Slot>, id: int)
    requires Consistent(env, m, {}, {}) && id in m.info && forall slot :: slot in slots <==> slot in m.newTable
    ensures PlacedOf(m, slots, id) == SlotsOf(m.newTable, id) && |PlacedOf(m, slots, id)| == m.info[id].refCount
  {
    assert forall slot :: slot in PlacedOf(m, slots, id) <==> slot in SlotsOf(m.newTable, id);
    if m.info[id].inTried { NoSlots(env, m.key, m.info, m.newTable, {}, id); }
  }

  lemma EntriesRenumbered(env: Env, m: Manager, all: seq<int>, l: Manager, slots: set<Slot>)
    requires EnvOk(env) && Consistent(env, m, {}, {}) && FullMirror(env, m, all, l, slots)
    ensures forall x :: 0 <= x < |all| ==> var id := all[x];
              id in m.info && x in l.info && l.info[x] == Fresh(Save(m.info[id]), x).(inTried := m.info[id].inTried, refCount := m.info[id].refCount)
  {
    forall x | 0 <= x < |all|
      ensures var id := all[x];
              id in m.info && x in l.info && l.info[x] == Fresh(Save(m.info[id]), x).(inTried := m.info[id].inTried, refCount := m.info[id].refCount)
    {
      AllPlaced(env, m, slots, all[x]);
    }
  }

  lemma TablesRenumbered(env: Env, m: Manager, all: seq<int>, l: Manager, slots: set<Slot>)
    requires EnvOk(env) && Consistent(env, m, {}, {}) && FullMirror(env, m, all, l, slots)
    ensures forall slot :: slot in l.triedTable <==> slot in m.triedTable
    ensures forall s :: s in l.addr <==> s in m.addr
    ensures forall s :: s in l.addr ==> var x := l.addr[s]; 0 <= x < |all| && all[x] == m.addr[s]
  {
    forall slot | slot in m.triedTable ensures slot in l.triedTable {
      var id := m.triedTable[slot];
      assert id in m.info && id in all;
      var x :| 0 <= x < |all| && all[x] == id;
    }
    forall s | s in m.addr ensures s in l.addr {
      var id := m.addr[s];
      assert id in m.info && id in all;
      var x :| 0 <= x < |all| && all[x] == id;
    }
    forall s | s in l.addr ensures s in m.addr && var x := l.addr[s]; 0 <= x < |all| && all[x] == m.addr[s] {
      var x := l.addr[s];
      var id := all[x];
      assert id in m.info && m.info[id].service == s;
    }
  }

  lemma IsRenumbered(env: Env, m: Manager, all: seq<int>, l: Manager, slots: set<Slot>)
    requires EnvOk(env) && Consistent(env, m, {}, {}) && FullMirror(env, m, all, l, slots)
    ensures Renumbered(m, l, all)
  {
    hide Consistent, EntriesMirror, AddrMirror, Distinct;
    EntriesRenumbered(env, m, all, l, slots);
    TablesRenumbered(env, m, all, l, slots);
    MirrorKeys(env, m, all, l, slots);
  }

  lemma MirrorKeys(env: Env, m: Manager, all: seq<int>, l: Manager, slots: set<Slot>)
    requires EnvOk(env) && FullMirror(env, m, all, l, slots)
    ensures forall x :: x in l.info <==> 0 <= x < |all|
  {
  }

  // ---------- its structures agree ----------

  lemma RebuiltTables(env: Env, m: Manager, all: seq<int>, l: Manager)
    requires EnvOk(env) && Consistent(env, m, {}, {}) && Renumbered(m, l, all)
    ensures TriedOk(env, l.key, l.info, l.triedTable)
    ensures NewOk(env, l.key, l.info, l.newTable, {})
  {
    assert TriedOk(env, l.key, l.info, l.triedTable) by { RebuiltTried(env, m, all, l); }
    assert NewOk(env, l.key, l.info, l.newTable, {}) by { RebuiltNew(env, m, all, l); }
  }

  lemma RebuiltTried(env: Env, m: Manager, all: seq<int>, l: Manager)
    requires EnvOk(env) && Consistent(env, m, {}, {}) && Renumbered(m, l, all)
    ensures TriedOk(env, l.key, l.info, l.triedTable)
  {
    forall slot | slot in l.triedTable
      ensures var x := l.triedTable[slot]; x in l.info && l.info[x].inTried && slot == TriedSlot(env, l.key, l.info[x].service)
    {
      var x := l.triedTable[slot];
      var id := all[x];
      assert id in m.info && m.info[id].inTried;
    }
    forall x | x in l.info && l.info[x].inTried
      ensures l.info[x].refCount == 0 && l.info[x].lastSuccess > 0
      ensures var slot := TriedSlot(env, l.key, l.info[x].service); slot in l.triedTable && l.triedTable[slot] == x
    {
      var id := all[x];
      var slot := TriedSlot(env, m.key, m.info[id].service);
      assert slot in m.triedTable && m.triedTable[slot] == id;
      var y := l.triedTable[slot];
      assert all[y] == all[x];
    }
  }

  lemma SlotsRenumbered(m: Manager, l: Manager, all: seq<int>, x: nat)
    requires Renumbered(m, l, all) && x < |all|
    ensures SlotsOf(l.newTable, x) == SlotsOf(m.newTable, all[x])
  {
    forall slot ensures slot in SlotsOf(l.newTable, x) <==> slot in SlotsOf(m.newTable, all[x]) {
      if slot in l.newTable {
        var y := l.newTable[slot];
        assert all[y] == all[x] <==> y == x;
      }
    }
  }

  lemma RebuiltNew(env: Env, m: Manager, all: seq<int>, l: Manager)
    requires EnvOk(env) && Consistent(env, m, {}, {}) && Renumbered(m, l, all)
    ensures NewOk(env, l.key, l.info, l.newTable, {})
  {
    forall slot | slot in l.newTable
      ensures var x := l.newTable[slot];
              x in l.info && !l.info[x].inTried && slot.bucket < env.newCount && slot == SlotInNew(env, l.key, l.info[x].service, slot.bucket)
    {
      var x := l.newTable[slot];
      var id := all[x];
      assert id in m.info && !m.info[id].inTried;
    }
    forall x | x in l.info && !l.info[x].inTried
      ensures l.info[x].refCount == |SlotsOf(l.newTable, x)| <= NEW_BUCKETS_PER_ADDRESS && l.info[x].refCount != 0
    {
      var id := all[x];
      assert id in m.info && !m.info[id].inTried;
      SlotsRenumbered(m, l, all, x);
    }
  }

  lemma RebuiltRoles(m: Manager, l: Manager, all: seq<int>)
    requires Renumbered(m, l, all)
    requires forall x :: 0 <= x < |all| ==> var id := all[x]; id in m.info && (m.info[id].inTried <==> x >= m.nNew)
    ensures forall x :: x in l.info <==> 0 <= x < |all|
    ensures forall x :: x in l.info ==> (l.info[x].inTried <==> x >= m.nNew)
  {
    forall x | x in l.info ensures l.info[x].inTried <==> x >= m.nNew { var id := all[x]; }
  }

  lemma RebuiltCounts(info: map<int, Info>, nNew: nat, nTried: nat)
    requires forall x :: x in info <==> 0 <= x < nNew + nTried
    requires forall x :: x in info ==> (info[x].inTried <==> x >= nNew)
    ensures CountsOk(info, nTried, nNew, {})
  {
    hide Range;
    var low, all := Range(nNew), Range(nNew + nTried);
    assert forall x :: x in NewIds(info) - {} <==> x in low;
    assert NewIds(info) - {} == low;
    assert forall x :: x in TriedIds(info) <==> x in all - low;
    assert TriedIds(info) == all - low;
    assert low <= all;
    assert |all - low| == |all| - |low|;
  }

  lemma RebuiltRandom(m: Manager, all: seq<int>, l: Manager, slots: set<Slot>)
    requires EntriesMirror(m, all, l, |all|, slots)
    ensures RandomOk(l.info, l.random)
  {
  }

  lemma RebuiltAddr(m: Manager, all: seq<int>, l: Manager, slots: set<Slot>)
    requires EntriesMirror(m, all, l, |all|, slots) && AddrMirror(m, all, l, |all|)
    ensures AddrOk(l.info, l.addr)
  {
    forall s | s in l.addr ensures var x := l.addr[s]; x in l.info && l.info[x].service == s {
      var x := l.addr[s];
      assert l.info[x] == Image(m.info[all[x]], x, |PlacedOf(m, slots, all[x])|);
    }
  }

  lemma RebuiltEntries(env: Env, m: Manager, all: seq<int>, l: Manager, slots: set<Slot>)
    requires EntriesMirror(m, all, l, |all|, slots) && EntriesOk(env, m.info, m.idCount) && l.idCount == |all|
    ensures EntriesOk(env, l.info, l.idCount)
  {
    forall x | x in l.info ensures x < l.idCount && l.info[x].lastTry >= 0 && l.info[x].lastSuccess >= 0 && env.routable(l.info[x].service.ip) {
      var id := all[x];
      assert id in m.info;
    }
  }

  lemma RebuiltSound(env: Env, m: Manager, all: seq<int>, l: Manager, slots: set<Slot>)
    requires EnvOk(env) && Consistent(env, m, {}, {}) && FullMirror(env, m, all, l, slots)
    ensures Sound(env, l) && Renumbered(m, l, all)
  {
    hide Renumbered, RandomOk, AddrOk, TriedOk, NewOk, CountsOk, EntriesOk, EntriesMirror, AddrMirror, TriedMirror, NewMirror, Distinct;
    IsRenumbered(env, m, all, l, slots);
    RolesSplit(env, m);
    RebuiltRandom(m, all, l, slots);
    RebuiltAddr(m, all, l, slots);
    RebuiltEntries(env, m, all, l, slots);
    RebuiltTables(env, m, all, l);
    RebuiltRoles(m, l, all);
    RebuiltCounts(l.info, m.nNew, m.nTried);
  }

  // ---------- the round trip ----------

  /** Nothing is pruned: every rebuilt entry is in tried or referenced. */
  lemma {:induction false} PruneNothing(env: Env, l: Manager, order: seq<int>)
    requires Consistent(env, l, {}, {})
    ensures Prune(l, order) == l
    decreases |order|
  {
    RolesSplit(env, l);
    hide Consistent;
    if order != [] { PruneNothing(env, l, order[1..]); }
  }

  lemma SlotsInRange(env: Env, m: Manager)
    requires Consistent(env, m, {}, {})
    ensures forall slot :: slot in m.newTable ==> slot.bucket < env.newCount && slot.pos < env.bucketSize
    ensures forall slot :: slot in m.triedTable ==> slot.bucket < env.triedCount && slot.pos < env.bucketSize
  {
  }

  lemma NewNumbered(env: Env, m: Manager, order: seq<int>)
    requires Consistent(env, m, {}, {}) && IsWalk(m, order)
    ensures Numbered(m, Numbering(m, order), NewOrder(m, order))
  {
    NumberingFacts(env, m, order);
    NumberingSizes(env, m, order);
    hide NewOrder, TriedOrder;
    forall slot | slot in m.newTable ensures m.newTable[slot] in NewOrder(m, order) {
      var id := m.newTable[slot];
      assert id in m.info && !m.info[id].inTried;
    }
  }

  lemma RebuiltMirrors(env: Env, m: Manager, order: seq<int>)
    requires EnvOk(env) && Consistent(env, m, {}, {}) && IsWalk(m, order)
    ensures var d := Serialize(env, m, order);
            && d.nNew == |d.newEntries| && d.nTried == |d.triedEntries| && BucketsRead(d) == env.newCount == |d.buckets|
            && FullMirror(env, m, Numbering(m, order), Rebuilt(env, d), Met(m, env.newCount, 0))
  {
    hide Consistent, NewOrder, TriedOrder, Mirror, Numbered, LoadNew, LoadTried, PlaceEntries, AllEntries, Rows, IsWalk, Distinct, Met;
    FlipBit30Twice(env.newCount);
    NumberingFacts(env, m, order);
    NewNumbered(env, m, order);
    SlotsInRange(env, m);
    var d, all, ids := Serialize(env, m, order), Numbering(m, order), NewOrder(m, order);
    var start := Empty(m.key).(nNew := m.nNew, nTried := m.nTried, idCount := m.nNew);
    LoadNewMirrors(env, m, order, start, m.nNew);
    var n := LoadNew(start, d.newEntries, m.nNew);
    LoadTriedMirrors(env, m, order, n, m.nTried);
    var t := LoadTried(env, n, d.triedEntries, m.nTried);
    PlaceRows(env, m, all, ids, t, env.newCount);
    MetEdges(env, m, 0);
    PlaceKeepsIdCount(env, t, true, AllEntries(d.buckets, m.nNew, env.newCount), |AllEntries(d.buckets, m.nNew, env.newCount)|);
  }

  lemma {:induction false} PlaceKeepsIdCount(env: Env, l: Manager, restore: bool, es: seq<BucketEntry>, n: nat)
    requires EnvOk(env) && n <= |es|
    ensures PlaceEntries(env, l, restore, es, n).idCount == l.idCount
  {
    if n > 0 { PlaceKeepsIdCount(env, l, restore, es, n - 1); }
  }

  lemma FlipBit30Twice(n: int)
    ensures FlipBit30(FlipBit30(n)) == n
  {
    if (n / BIT30) % 2 == 0 {
      assert (n + BIT30) / BIT30 == n / BIT30 + 1;
    } else {
      assert (n - BIT30) / BIT30 == n / BIT30 - 1;
    }
  }

  // ---------- the counts fit the tables ----------

  lemma {:induction false} IdsFit(slots: set<Slot>, table: Table, ids: set<int>)
    requires forall slot :: slot in slots ==> slot in table
    requires forall id :: id in ids ==> exists slot :: slot in slots && table[slot] == id
    ensures |ids| <= |slots|
    decreases |ids|
  {
    if ids != {} {
      assert (forall x :: x !in ids) ==> ids == {};
      var id :| id in ids;
      var slot :| slot in slots && table[slot] == id;
      forall o | o in ids - {id} ensures exists s :: s in slots - {slot} && table[s] == o {
        var s :| s in slots && table[s] == o;
        assert s in slots - {slot};
      }
      IdsFit(slots - {slot}, table, ids - {id});
    }
  }

  ghost function Bucket(b: nat, size: nat): (r: set<Slot>)
    ensures forall slot :: slot in r <==> slot.bucket == b && slot.pos < size
    ensures |r| == size
  {
    if size == 0 then {} else Bucket(b, size - 1) + {Slot(b, size - 1)}
  }

  ghost function Buckets(count: nat, size: nat): (r: set<Slot>)
    ensures forall slot :: slot in r <==> slot.bucket < count && slot.pos < size
    ensures |r| == count * size
  {
    if count == 0 then {}
    else
      assert Buckets(count - 1, size) !! Bucket(count - 1, size);
      assert count * size == (count - 1) * size + size;
      Buckets(count - 1, size) + Bucket(count - 1, size)
  }

  lemma TableFits(table: Table, ids: set<int>, count: nat, size: nat)
    requires forall slot :: slot in table ==> slot.bucket < count && slot.pos < size
    requires forall id :: id in ids ==> exists slot :: slot in table && table[slot] == id
    ensures |ids| <= count * size
  {
    var slots := set slot | slot in table;
    forall id | id in ids ensures exists slot :: slot in slots && table[slot] == id {
      var slot :| slot in table && table[slot] == id;
      assert slot in slots;
    }
    IdsFit(slots, table, ids);
    hide Buckets;
    assert slots <= Buckets(count, size);
    SubsetSize(slots, Buckets(count, size));
  }

  lemma CountsFit(env: Env, m: Manager)
    requires EnvOk(env) && Consistent(env, m, {}, {})
    ensures 0 <= m.nNew <= env.newCount * env.bucketSize && 0 <= m.nTried <= env.triedCount * env.bucketSize
  {
    SlotsInRange(env, m);
    RolesSplit(env, m);
    forall id | id in NewIds(m.info) - {} ensures exists slot :: slot in m.newTable && m.newTable[slot] == id {
      NewHasSlot(env, m, id);
    }
    forall id | id in TriedIds(m.info) ensures exists slot :: slot in m.triedTable && m.triedTable[slot] == id {
      TriedEntry(env, m, id);
      assert TriedSlot(env, m.key, m.info[id].service) in m.triedTable;
    }
    hide Consistent;
    TableFits(m.newTable, NewIds(m.info) - {}, env.newCount, env.bucketSize);
    TableFits(m.triedTable, TriedIds(m.info), env.triedCount, env.bucketSize);
  }

  lemma NewHasSlot(env: Env, m: Manager, id: int)
    requires Consistent(env, m, {}, {}) && id in m.info && !m.info[id].inTried
    ensures exists slot :: slot in m.newTable && m.newTable[slot] == id
  {
    var slots := SlotsOf(m.newTable, id);
    assert |slots| > 0;
    var slot :| slot in slots;
    assert slot in m.newTable && m.newTable[slot] == id;
  }

  /**
   * The round trip: with a non-null key, under the same asmap and dimensions, loading what was
   * saved succeeds, whatever the walking orders, and yields the same manager with ids
   * renumbered; its structures agree, so every later run stays sound.
   */
  lemma RoundTrip(env: Env, m: Manager, order: seq<int>, pruneOrder: seq<int>)
    requires EnvOk(env) && Sound(env, m) && m.key != 0 && IsWalk(m, order)
    ensures var r := Unserialize(env, Serialize(env, m, order), pruneOrder);
            r.Loaded? && Renumbered(m, r.m, Numbering(m, order)) && Sound(env, r.m)
  {
    hide Consistent, QueueOk, Renumbered, Numbering, Rebuilt, Prune, Declared, FullMirror, IsWalk, NewOrder, TriedOrder;
    var d := Serialize(env, m, order);
    RebuiltMirrors(env, m, order);
    CountsFit(env, m);
    var l := Rebuilt(env, d);
    RebuiltSound(env, m, Numbering(m, order), l, Met(m, env.newCount, 0));
    PruneNothing(env, l, pruneOrder);
    RenumberedKey(m, l, Numbering(m, order));
    SoundIsDeclared(env, l);
  }

  lemma RenumberedKey(m: Manager, l: Manager, all: seq<int>)
    requires Renumbered(m, l, all)
    ensures l.key == m.key
  {
  }
}
