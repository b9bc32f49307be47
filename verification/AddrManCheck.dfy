/**
 * CheckAddrman, the consistency checker the address manager carries with it: it answers 0
 * exactly when the declared invariant holds.
 */
module AddrManCheck {
  import opened Common
  import opened AddrMan
  import opened AddrManInvariant
  import opened AddrManOps
  import opened AddrManObject

  // ---------- the declared invariant ----------

  /** mapAddr finds every known entry; it may hold other keys as well. */
  ghost predicate AddrFinds(info: map<int, Info>, addr: map<Service, int>) {
    forall id :: id in info ==> var s := info[id].service; s in addr && addr[s] == id
  }

  ghost predicate TimesOk(info: map<int, Info>) {
    forall id :: id in info ==> info[id].lastTry >= 0 && info[id].lastSuccess >= 0
  }

  ghost predicate Declared(env: Env, m: Manager)
    requires EnvOk(env)
  {
    && m.key != 0
    && RandomOk(m.info, m.random)
    && AddrFinds(m.info, m.addr)
    && TriedOk(env, m.key, m.info, m.triedTable)
    && NewOk(env, m.key, m.info, m.newTable, {})
    && CountsOk(m.info, m.nTried, m.nNew, {})
    && TimesOk(m.info)
  }

  // ---------- the same, as the code looks at it ----------

  predicate EntryChecked(id: int, i: Info, addr: map<Service, int>, random: seq<int>) {
    && (if i.inTried then i.lastSuccess != 0 && i.refCount == 0 else 0 < i.refCount <= NEW_BUCKETS_PER_ADDRESS)
    && i.service in addr && addr[i.service] == id
    && 0 <= i.randomPos < |random| && random[i.randomPos] == id
    && i.lastTry >= 0 && i.lastSuccess >= 0
  }

  ghost predicate EntriesChecked(m: Manager) {
    forall id :: id in m.info ==> EntryChecked(id, m.info[id], m.addr, m.random)
  }

  /** Whether one occupied tried slot is right. */
  predicate TriedSlotOk(env: Env, key: nat, info: map<int, Info>, slot: Slot, id: int)
    requires EnvOk(env)
  {
    id in info && info[id].inTried && slot == TriedSlot(env, key, info[id].service)
  }

  predicate InOwnSlot(env: Env, key: nat, info: map<int, Info>, t: Table, id: int)
    requires EnvOk(env) && id in info
  {
    var slot := TriedSlot(env, key, info[id].service);
    slot in t && t[slot] == id
  }

  ghost predicate TriedChecked(env: Env, key: nat, info: map<int, Info>, t: Table)
    requires EnvOk(env)
  {
    && (forall slot :: slot in t ==> TriedSlotOk(env, key, info, slot, t[slot]))
    && (forall id :: id in info && info[id].inTried ==> InOwnSlot(env, key, info, t, id))
  }

  /** Whether one occupied new slot is right. */
  predicate NewSlotOk(env: Env, key: nat, info: map<int, Info>, slot: Slot, id: int)
    requires EnvOk(env)
  {
    id in info && !info[id].inTried && slot == SlotInNew(env, key, info[id].service, slot.bucket)
  }

  ghost predicate NewChecked(env: Env, key: nat, info: map<int, Info>, t: Table)
    requires EnvOk(env)
  {
    && (forall slot :: slot in t ==> NewSlotOk(env, key, info, slot, t[slot]))
    && (forall id :: id in info && !info[id].inTried ==> info[id].refCount == |SlotsOf(t, id)|)
  }

  ghost predicate Checked(env: Env, m: Manager)
    requires EnvOk(env)
  {
    && |m.random| == m.nTried + m.nNew
    && EntriesChecked(m)
    && |TriedIds(m.info)| == m.nTried && |NewIds(m.info)| == m.nNew
    && TriedChecked(env, m.key, m.info, m.triedTable)
    && NewChecked(env, m.key, m.info, m.newTable)
    && m.key != 0
  }

  // ---------- the two agree ----------

  ghost function Range(n: nat): (r: set<int>)
    ensures forall i :: i in r <==> 0 <= i < n
    ensures |r| == n
  {
    if n == 0 then {} else Range(n - 1) + {n - 1}
  }

  ghost function Positions(info: map<int, Info>, ids: set<int>): (r: set<int>)
    ensures forall i :: i in r <==> exists id :: id in ids && id in info && info[id].randomPos == i
  {
    set id | id in ids && id in info :: info[id].randomPos
  }

  lemma {:induction false} PositionsDistinct(info: map<int, Info>, random: seq<int>, ids: set<int>)
    requires forall id :: id in ids ==> id in info && 0 <= info[id].randomPos < |random| && random[info[id].randomPos] == id
    ensures |Positions(info, ids)| == |ids|
    decreases |ids|
  {
    if ids == {} {
      assert forall i :: i !in Positions(info, ids);
      assert Positions(info, ids) == {};
    } else {
      assert (forall x :: x !in ids) ==> ids == {};
      var id :| id in ids;
      var rest := ids - {id};
      PositionsDistinct(info, random, rest);
      var p := info[id].randomPos;
      forall i ensures i in Positions(info, ids) <==> i in Positions(info, rest) + {p} {
        if i in Positions(info, ids) && i != p {
          var o :| o in ids && o in info && info[o].randomPos == i;
          assert o in rest;
        }
      }
      assert Positions(info, ids) == Positions(info, rest) + {p};
      assert forall o :: o in rest ==> info[o].randomPos != p;
    }
  }

  /** As many entries as positions, each at its own position: every position is taken. */
  lemma PositionsFill(info: map<int, Info>, random: seq<int>, ids: set<int>)
    requires forall id :: id in ids <==> id in info
    requires |ids| == |random|
    requires forall id :: id in info ==> 0 <= info[id].randomPos < |random| && random[info[id].randomPos] == id
    ensures RandomOk(info, random)
  {
    PositionsDistinct(info, random, ids);
    SubsetSize(Positions(info, ids), Range(|random|));
    forall i | 0 <= i < |random| ensures var id := random[i]; id in info && info[id].randomPos == i {
      assert i in Positions(info, ids);
      var o :| o in ids && o in info && info[o].randomPos == i;
    }
  }

  lemma CheckedCounts(info: map<int, Info>)
    ensures forall id :: id in TriedIds(info) + NewIds(info) <==> id in info
    ensures |TriedIds(info) + NewIds(info)| == |TriedIds(info)| + |NewIds(info)|
    ensures NewIds(info) - {} == NewIds(info)
  {
    assert TriedIds(info) !! NewIds(info);
  }

  /** The numbers of entries and positions agree when vRandom and mapInfo are inverse. */
  lemma PositionsCounted(info: map<int, Info>, random: seq<int>, ids: set<int>)
    requires RandomOk(info, random) && forall id :: id in ids <==> id in info
    ensures |ids| == |random|
  {
    PositionsDistinct(info, random, ids);
    forall i ensures i in Positions(info, ids) <==> i in Range(|random|) {
      if 0 <= i < |random| {
        var id := random[i];
        assert id in ids && id in info && info[id].randomPos == i;
      }
    }
    assert Positions(info, ids) == Range(|random|);
  }

  lemma CheckedDeclared(env: Env, m: Manager)
    requires EnvOk(env) && TableInRange(env, m)
    ensures Checked(env, m) <==> Declared(env, m)
  {
    if Checked(env, m) { CheckedGivesDeclared(env, m); }
    if Declared(env, m) { DeclaredGivesChecked(env, m); }
  }

  /** The new table is an array of newCount buckets. */
  ghost predicate TableInRange(env: Env, m: Manager) {
    forall slot :: slot in m.newTable ==> slot.bucket < env.newCount
  }

  lemma CheckedGivesDeclared(env: Env, m: Manager)
    requires EnvOk(env) && TableInRange(env, m) && Checked(env, m)
    ensures Declared(env, m)
  {
    CheckedCounts(m.info);
    assert forall id :: id in m.info ==> EntryChecked(id, m.info[id], m.addr, m.random);
    PositionsFill(m.info, m.random, TriedIds(m.info) + NewIds(m.info));
    CheckedTables(env, m);
  }

  lemma CheckedTables(env: Env, m: Manager)
    requires EnvOk(env) && TableInRange(env, m) && EntriesChecked(m)
    requires TriedChecked(env, m.key, m.info, m.triedTable) && NewChecked(env, m.key, m.info, m.newTable)
    ensures TriedOk(env, m.key, m.info, m.triedTable) && NewOk(env, m.key, m.info, m.newTable, {})
  {
    forall id | id in m.info ensures EntryChecked(id, m.info[id], m.addr, m.random) {}
    forall slot | slot in m.triedTable ensures TriedSlotOk(env, m.key, m.info, slot, m.triedTable[slot]) {}
    forall slot | slot in m.newTable ensures NewSlotOk(env, m.key, m.info, slot, m.newTable[slot]) {}
    forall id | id in m.info && m.info[id].inTried ensures InOwnSlot(env, m.key, m.info, m.triedTable, id) {}
  }

  lemma DeclaredGivesChecked(env: Env, m: Manager)
    requires EnvOk(env) && Declared(env, m)
    ensures Checked(env, m)
  {
    CheckedCounts(m.info);
    PositionsCounted(m.info, m.random, TriedIds(m.info) + NewIds(m.info));
    DeclaredEntries(env, m);
  }

  lemma DeclaredEntries(env: Env, m: Manager)
    requires EnvOk(env) && Declared(env, m)
    ensures EntriesChecked(m) && TriedChecked(env, m.key, m.info, m.triedTable) && NewChecked(env, m.key, m.info, m.newTable)
  {
  }

  /** A stale mapAddr key is not noticed. */
  lemma StaleKeyUnnoticed(env: Env, m: Manager, s: Service, id: int)
    requires EnvOk(env) && Declared(env, m) && s !in m.addr
    ensures Declared(env, m.(addr := m.addr[s := id]))
  {
  }

  /** In every reachable state with a non-null key the checker is content. */
  lemma SoundIsDeclared(env: Env, m: Manager)
    requires Sound(env, m) && m.key != 0
    ensures Declared(env, m)
  {
  }

  // ---------- the checker ----------

  /** The scan of mapInfo, in any order. */
  method CheckEntries(info: map<int, Info>, addr: map<Service, int>, random: seq<int>)
    returns (code: int, setTried: set<int>, mapNew: map<int, int>)
    ensures code == 0 <==> forall id :: id in info ==> EntryChecked(id, info[id], addr, random)
    ensures code == 0 ==> setTried == TriedIds(info)
    ensures code == 0 ==> forall id :: id in mapNew <==> id in NewIds(info)
    ensures code == 0 ==> forall id :: id in mapNew ==> mapNew[id] == info[id].refCount
  {
    setTried, mapNew := {}, map[];
    var rest := info.Keys;
    while rest != {}
      invariant rest <= info.Keys
      invariant forall id :: id in info && id !in rest ==> EntryChecked(id, info[id], addr, random)
      invariant forall id :: id in setTried <==> id in info && id !in rest && info[id].inTried
      invariant forall id :: id in mapNew <==> id in info && id !in rest && !info[id].inTried
      invariant forall id :: id in mapNew ==> mapNew[id] == info[id].refCount
      decreases |rest|
    {
      assert (forall x :: x !in rest) ==> rest == {};
      var n :| n in rest;
      rest := rest - {n};
      var i := info[n];
      if i.inTried {
        if i.lastSuccess == 0 { return -1, setTried, mapNew; }
        if i.refCount != 0 { return -2, setTried, mapNew; }
        setTried := setTried + {n};
      } else {
        if i.refCount < 0 || i.refCount > NEW_BUCKETS_PER_ADDRESS { return -3, setTried, mapNew; }
        if i.refCount == 0 { return -4, setTried, mapNew; }
        mapNew := mapNew[n := i.refCount];
      }
      if i.service !in addr || addr[i.service] != n { return -5, setTried, mapNew; }
      if i.randomPos < 0 || i.randomPos >= |random| || random[i.randomPos] != n { return -14, setTried, mapNew; }
      if i.lastTry < 0 { return -6, setTried, mapNew; }
      if i.lastSuccess < 0 { return -8, setTried, mapNew; }
    }
    assert forall id :: id in setTried <==> id in TriedIds(info);
    code := 0;
  }

  predicate Visited(slot: Slot, n: nat, i: nat) {
    slot.bucket < n || (slot.bucket == n && slot.pos < i)
  }

  /** The scan of the tried buckets; `rest` are the tried entries not met. */
  method CheckTriedTable(env: Env, key: nat, info: map<int, Info>, a: array2<int>, setTried: set<int>)
    returns (code: int, rest: set<int>)
    requires EnvOk(env) && a.Length0 == env.triedCount && a.Length1 == env.bucketSize
    requires setTried == TriedIds(info)
    ensures code == 0 && rest == {} <==> TriedChecked(env, key, info, TableOf(a))
  {
    ghost var t := TableOf(a);
    hide TableOf, AllSlots;
    rest := setTried;
    for n := 0 to env.triedCount
      invariant forall slot :: slot in t && Visited(slot, n, 0) ==> TriedSlotOk(env, key, info, slot, t[slot])
      invariant forall id :: id in rest <==> id in info && info[id].inTried && !SeenInOwnSlot(env, key, info, t, id, n, 0)
    {
      for i := 0 to env.bucketSize
        invariant forall slot :: slot in t && Visited(slot, n, i) ==> TriedSlotOk(env, key, info, slot, t[slot])
        invariant forall id :: id in rest <==> id in info && info[id].inTried && !SeenInOwnSlot(env, key, info, t, id, n, i)
      {
        var id := a[n, i];
        ghost var slot := Slot(n, i);
        assert slot in t <==> id != -1;
        if id != -1 {
          assert t[slot] == id;
          if id !in rest { assert !TriedSlotOk(env, key, info, slot, t[slot]); return -11, rest; }
          if TriedSlot(env, key, info[id].service).bucket != n { assert !TriedSlotOk(env, key, info, slot, t[slot]); return -17, rest; }
          if TriedSlot(env, key, info[id].service).pos != i { assert !TriedSlotOk(env, key, info, slot, t[slot]); return -18, rest; }
          rest := rest - {id};
        }
      }
    }
    assert forall slot :: slot in t ==> Visited(slot, env.triedCount, 0);
    assert (forall id :: id !in rest) ==> rest == {};
    assert forall id :: id in rest <==> id in info && info[id].inTried && !InOwnSlot(env, key, info, t, id);
    return 0, rest;
  }

  predicate SeenInOwnSlot(env: Env, key: nat, info: map<int, Info>, t: Table, id: int, n: nat, i: nat)
    requires EnvOk(env) && id in info
  {
    InOwnSlot(env, key, info, t, id) && Visited(TriedSlot(env, key, info[id].service), n, i)
  }

  ghost function SeenSlots(t: Table, id: int, n: nat, i: nat): (r: set<Slot>)
    ensures forall slot :: slot in r <==> slot in t && t[slot] == id && Visited(slot, n, i)
  {
    set slot | slot in t && t[slot] == id && Visited(slot, n, i)
  }

  /** One more position visited. */
  lemma SeenMore(t: Table, id: int, n: nat, i: nat)
    ensures var slot := Slot(n, i);
            |SeenSlots(t, id, n, i + 1)| == |SeenSlots(t, id, n, i)| + (if slot in t && t[slot] == id then 1 else 0)
  {
    var slot := Slot(n, i);
    var more := if slot in t && t[slot] == id then {slot} else {};
    forall s ensures s in SeenSlots(t, id, n, i + 1) <==> s in SeenSlots(t, id, n, i) + more {
      assert Visited(s, n, i + 1) <==> Visited(s, n, i) || s == slot;
    }
    assert SeenSlots(t, id, n, i + 1) == SeenSlots(t, id, n, i) + more;
    assert slot !in SeenSlots(t, id, n, i);
  }

  /** Nothing seen at the start; a finished bucket is the start of the next; all seen at the end. */
  lemma SeenEdges(t: Table, id: int, n: nat, size: nat)
    requires forall slot :: slot in t ==> slot.pos < size
    ensures |SeenSlots(t, id, 0, 0)| == 0
    ensures SeenSlots(t, id, n, size) == SeenSlots(t, id, n + 1, 0)
    ensures (forall slot :: slot in t ==> slot.bucket < n) ==> SeenSlots(t, id, n, 0) == SlotsOf(t, id)
    ensures SeenSlots(t, id, n, 0) <= SlotsOf(t, id)
  {
    assert forall s :: s !in SeenSlots(t, id, 0, 0);
    assert SeenSlots(t, id, 0, 0) == {};
    assert forall s :: s in SeenSlots(t, id, n, size) <==> s in SeenSlots(t, id, n + 1, 0);
    if forall slot :: slot in t ==> slot.bucket < n {
      assert forall s :: s in SeenSlots(t, id, n, 0) <==> s in SlotsOf(t, id);
    }
  }

  lemma SeenAtMost(t: Table, id: int, n: nat, i: nat)
    ensures |SeenSlots(t, id, n, i)| <= |SlotsOf(t, id)|
  {
    assert SeenSlots(t, id, n, i) <= SlotsOf(t, id);
    SubsetSize(SeenSlots(t, id, n, i), SlotsOf(t, id));
  }

  /** What is left of the reference counts after visiting some positions. */
  ghost predicate Remaining(info: map<int, Info>, t: Table, rest: map<int, int>, n: nat, i: nat) {
    && (forall id :: id in rest <==> id in info && !info[id].inTried && |SeenSlots(t, id, n, i)| < info[id].refCount)
    && (forall id :: id in rest ==> rest[id] == info[id].refCount - |SeenSlots(t, id, n, i)|)
    && (forall id :: id in info && !info[id].inTried ==> |SeenSlots(t, id, n, i)| <= info[id].refCount)
  }

  lemma RemainingNext(info: map<int, Info>, t: Table, rest: map<int, int>, n: nat, i: nat)
    requires Remaining(info, t, rest, n, i)
    ensures Slot(n, i) !in t ==> Remaining(info, t, rest, n, i + 1)
    ensures Slot(n, i) in t ==>
              var id := t[Slot(n, i)];
              if id !in rest then id in info && !info[id].inTried ==> |SlotsOf(t, id)| > info[id].refCount
              else Remaining(info, t, if rest[id] == 1 then rest - {id} else rest[id := rest[id] - 1], n, i + 1)
  {
    hide SeenSlots, SlotsOf;
    forall o ensures |SeenSlots(t, o, n, i + 1)| == |SeenSlots(t, o, n, i)| + (if Slot(n, i) in t && t[Slot(n, i)] == o then 1 else 0) {
      SeenMore(t, o, n, i);
    }
    if Slot(n, i) in t {
      var id := t[Slot(n, i)];
      SeenAtMost(t, id, n, i + 1);
    }
  }

  lemma RemainingEdges(info: map<int, Info>, t: Table, rest: map<int, int>, n: nat, size: nat)
    requires forall slot :: slot in t ==> slot.pos < size
    ensures Remaining(info, t, rest, n, size) <==> Remaining(info, t, rest, n + 1, 0)
  {
    forall id ensures SeenSlots(t, id, n, size) == SeenSlots(t, id, n + 1, 0) { SeenEdges(t, id, n, size); }
  }

  lemma RemainingStart(info: map<int, Info>, t: Table, rest: map<int, int>, size: nat)
    requires forall slot :: slot in t ==> slot.pos < size
    requires forall id :: id in info && !info[id].inTried ==> info[id].refCount > 0
    requires forall id :: id in rest <==> id in info && !info[id].inTried
    requires forall id :: id in rest ==> rest[id] == info[id].refCount
    ensures Remaining(info, t, rest, 0, 0)
  {
    forall id ensures |SeenSlots(t, id, 0, 0)| == 0 { SeenEdges(t, id, 0, size); }
  }

  lemma EmptyMap(m: map<int, int>)
    ensures m == map[] <==> forall id :: id !in m
  {
    if forall id :: id !in m {
      var none: map<int, int> := map[];
      assert forall id :: id in m <==> id in none;
      assert m == none;
    }
  }

  lemma RemainingEnd(info: map<int, Info>, t: Table, rest: map<int, int>, count: nat, size: nat)
    requires forall slot :: slot in t ==> slot.pos < size && slot.bucket < count
    requires Remaining(info, t, rest, count, 0)
    ensures rest == map[] <==> forall id :: id in info && !info[id].inTried ==> info[id].refCount == |SlotsOf(t, id)|
  {
    forall id ensures SeenSlots(t, id, count, 0) == SlotsOf(t, id) { SeenEdges(t, id, count, size); }
    EmptyMap(rest);
  }

  lemma NewRefuted(env: Env, key: nat, info: map<int, Info>, t: Table, slot: Slot)
    requires EnvOk(env) && slot in t
    requires var id := t[slot];
             NewSlotOk(env, key, info, slot, id) ==> info[id].refCount != |SlotsOf(t, id)|
    ensures !NewChecked(env, key, info, t)
  {
    var id := t[slot];
    if NewSlotOk(env, key, info, slot, id) {
      assert id in info && !info[id].inTried;
    } else {
      assert !NewSlotOk(env, key, info, slot, t[slot]);
    }
  }

  /** The scan of the new buckets; `rest` are reference counts not used up. */
  method CheckNewTable(env: Env, key: nat, info: map<int, Info>, a: array2<int>, mapNew: map<int, int>)
    returns (code: int, rest: map<int, int>)
    requires EnvOk(env) && a.Length0 == env.newCount && a.Length1 == env.bucketSize
    requires forall id :: id in info && !info[id].inTried ==> info[id].refCount > 0
    requires forall id :: id in mapNew <==> id in info && !info[id].inTried
    requires forall id :: id in mapNew ==> mapNew[id] == info[id].refCount
    ensures code == 0 && rest == map[] <==> NewChecked(env, key, info, TableOf(a))
  {
    hide TableOf, AllSlots, Remaining;
    ghost var t := TableOf(a);
    assert forall slot :: slot in t ==> slot.pos < env.bucketSize && slot.bucket < env.newCount;
    rest := mapNew;
    RemainingStart(info, t, rest, env.bucketSize);
    for n := 0 to env.newCount
      invariant forall slot :: slot in t && Visited(slot, n, 0) ==> NewSlotOk(env, key, info, slot, t[slot])
      invariant Remaining(info, t, rest, n, 0)
    {
      for i := 0 to env.bucketSize
        invariant forall slot :: slot in t && Visited(slot, n, i) ==> NewSlotOk(env, key, info, slot, t[slot])
        invariant Remaining(info, t, rest, n, i)
      {
        var id := a[n, i];
        ghost var slot := Slot(n, i);
        assert slot in t <==> id != -1;
        RemainingNext(info, t, rest, n, i);
        if id != -1 {
          assert t[slot] == id;
          if id !in rest {
            NewRefuted(env, key, info, t, slot);
            return -12, rest;
          }
          RemainingKnown(info, t, rest, n, i, id);
          if SlotInNew(env, key, info[id].service, n).pos != i {
            NewRefuted(env, key, info, t, slot);
            return -19, rest;
          }
          rest := if rest[id] == 1 then rest - {id} else rest[id := rest[id] - 1];
        }
      }
      RemainingEdges(info, t, rest, n, env.bucketSize);
    }
    RemainingEnd(info, t, rest, env.newCount, env.bucketSize);
    return 0, rest;
  }

  lemma RemainingKnown(info: map<int, Info>, t: Table, rest: map<int, int>, n: nat, i: nat, id: int)
    requires Remaining(info, t, rest, n, i) && id in rest
    ensures id in info && !info[id].inTried
  {
  }

  lemma ArrayInRange(o: AddrManImpl)
    requires o.Valid()
    ensures TableInRange(o.env, o.Model())
  {
  }

  lemma PositiveRefCounts(m: Manager)
    requires EntriesChecked(m)
    ensures forall id :: id in m.info && !m.info[id].inTried ==> m.info[id].refCount > 0
  {
    forall id | id in m.info ensures EntryChecked(id, m.info[id], m.addr, m.random) {}
  }

  /** CheckAddrman: 0 exactly when the declared invariant holds. */
  method CheckAddrman(o: AddrManImpl) returns (code: int)
    requires o.Valid()
    ensures code == 0 <==> Declared(o.env, o.Model())
  {
    ghost var m := o.Model();
    hide TableOf, AllSlots, Declared, TriedChecked, NewChecked, EntryChecked;
    ArrayInRange(o);
    CheckedDeclared(o.env, m);
    if |o.vRandom| != o.nTried + o.nNew { return -7; }
    var c, setTried, mapNew := CheckEntries(o.mapInfo, o.mapAddr, o.vRandom);
    if c != 0 { return c; }
    if |setTried| != o.nTried { return -9; }
    assert forall id :: id in mapNew.Keys <==> id in NewIds(m.info);
    assert mapNew.Keys == NewIds(m.info);
    if |mapNew| != o.nNew { return -10; }
    var restTried;
    c, restTried := CheckTriedTable(o.env, o.nKey, o.mapInfo, o.vvTried, setTried);
    if c != 0 { return c; }
    PositiveRefCounts(m);
    var restNew;
    c, restNew := CheckNewTable(o.env, o.nKey, o.mapInfo, o.vvNew, mapNew);
    if c != 0 { return c; }
    if restTried != {} { return -13; }
    if restNew != map[] { return -15; }
    if o.nKey == 0 { return -16; }
    return 0;
  }
}
