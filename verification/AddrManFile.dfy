/**
 * Serialize and Unserialize as the code runs them on the object, loop by loop, proved against
 * the functions of AddrManDisk.dfy; and, from those, the round trip of the object itself.
 */
module AddrManFile {
  import opened AddrMan
  import opened AddrManInvariant
  import opened AddrManOps
  import opened AddrManObject
  import opened AddrManCheck
  import opened AddrManDisk
  import opened AddrManRoundTrip

  // ---------- writing ----------

  lemma {:induction false} IndexOfAppend(ids: seq<int>, x: int, id: int)
    ensures id in ids ==> IndexOf(ids + [x], id) == IndexOf(ids, id)
    ensures id !in ids && id == x ==> IndexOf(ids + [x], id) == |ids|
    decreases |ids|
  {
    if ids != [] {
      assert (ids + [x])[1..] == ids[1..] + [x];
      IndexOfAppend(ids[1..], x, id);
    }
  }

  /** The walk one id further. */
  lemma WalkStep(m: Manager, order: seq<int>, k: nat)
    requires k < |order|
    ensures NewOrder(m, order[..k + 1]) == NewOrder(m, order[..k]) + (if Get(m, order[k]).refCount != 0 then [order[k]] else [])
    ensures TriedOrder(m, order[..k + 1]) == TriedOrder(m, order[..k]) + (if Get(m, order[k]).inTried then [order[k]] else [])
  {
    assert order[..k + 1][..k] == order[..k] && order[..k + 1][k] == order[k];
  }

  lemma {:induction false} WalkGrows(m: Manager, order: seq<int>, k: nat)
    requires k <= |order|
    ensures |NewOrder(m, order[..k])| <= |NewOrder(m, order)| && |TriedOrder(m, order[..k])| <= |TriedOrder(m, order)|
    decreases |order| - k
  {
    if k < |order| {
      WalkStep(m, order, k);
      WalkGrows(m, order, k + 1);
    } else {
      assert order[..k] == order;
    }
  }

  method WriteNew(o: AddrManImpl, order: seq<int>) returns (entries: seq<Saved>, mapUnkIds: map<int, int>)
    requires o.Valid() && Sound(o.env, o.Model()) && IsWalk(o.Model(), order)
    ensures entries == SaveAll(o.Model(), NewOrder(o.Model(), order))
    ensures forall id :: id in NewOrder(o.Model(), order) ==> id in mapUnkIds && mapUnkIds[id] == IndexOf(NewOrder(o.Model(), order), id)
  {
    hide Consistent, QueueOk, NewOrder, TriedOrder;
    ghost var m := o.Model();
    NumberingSizes(o.env, m, order);
    entries, mapUnkIds := [], map[];
    var nIds := 0;
    EmptyWalk(m, order);
    for k := 0 to |order|
      invariant nIds == |NewOrder(m, order[..k])|
      invariant entries == SaveAll(m, NewOrder(m, order[..k]))
      invariant forall id :: id in NewOrder(m, order[..k]) ==> id in order[..k] && id in mapUnkIds && mapUnkIds[id] == IndexOf(NewOrder(m, order[..k]), id)
    {
      var id := order[k];
      assert id in order && id in m.info;
      ghost var before := NewOrder(m, order[..k]);
      WalkStep(m, order, k);
      WalkGrows(m, order, k + 1);
      assert id !in order[..k] by { assert Distinct(order); }
      assert order[..k + 1] == order[..k] + [id];
      mapUnkIds := mapUnkIds[id := nIds];
      if o.mapInfo[id].refCount != 0 {
        assert nIds != o.nNew;
        forall x | x in before + [id] ensures IndexOf(before + [id], x) == if x == id then |before| else IndexOf(before, x) {
          IndexOfAppend(before, id, x);
        }
        entries := entries + [Save(o.mapInfo[id])];
        nIds := nIds + 1;
      } else {
        assert before + [] == before;
      }
    }
    assert order[..|order|] == order;
  }

  lemma EmptyWalk(m: Manager, order: seq<int>)
    ensures NewOrder(m, order[..0]) == [] && TriedOrder(m, order[..0]) == []
  {
  }

  method WriteTried(o: AddrManImpl, order: seq<int>) returns (entries: seq<Saved>)
    requires o.Valid() && Sound(o.env, o.Model()) && IsWalk(o.Model(), order)
    ensures entries == SaveAll(o.Model(), TriedOrder(o.Model(), order))
  {
    hide Consistent, QueueOk, NewOrder, TriedOrder;
    ghost var m := o.Model();
    NumberingSizes(o.env, m, order);
    entries := [];
    var nIds := 0;
    EmptyWalk(m, order);
    for k := 0 to |order|
      invariant nIds == |TriedOrder(m, order[..k])|
      invariant entries == SaveAll(m, TriedOrder(m, order[..k]))
    {
      var id := order[k];
      assert id in order && id in m.info;
      WalkStep(m, order, k);
      WalkGrows(m, order, k + 1);
      if o.mapInfo[id].inTried {
        assert nIds != o.nTried;
        entries := entries + [Save(o.mapInfo[id])];
        nIds := nIds + 1;
      } else {
        assert TriedOrder(m, order[..k]) + [] == TriedOrder(m, order[..k]);
      }
    }
    assert order[..|order|] == order;
  }

  method WriteBuckets(o: AddrManImpl, ghost ids: seq<int>, mapUnkIds: map<int, int>) returns (rows: seq<seq<int>>)
    requires o.Valid()
    requires forall slot :: slot in TableOf(o.vvNew) ==> var id := TableOf(o.vvNew)[slot]; id in mapUnkIds && mapUnkIds[id] == IndexOf(ids, id)
    ensures rows == Rows(o.env, o.Model(), ids)
  {
    hide TableOf, AllSlots;
    ghost var m := o.Model();
    rows := [];
    for bucket := 0 to o.env.newCount
      invariant |rows| == bucket
      invariant forall b :: 0 <= b < bucket ==> rows[b] == Row(m, ids, b, o.env.bucketSize)
    {
      var row := [];
      for i := 0 to o.env.bucketSize
        invariant row == Row(m, ids, bucket, i)
      {
        ghost var slot := Slot(bucket, i);
        assert slot in m.newTable <==> o.vvNew[bucket, i] != -1;
        if o.vvNew[bucket, i] != -1 {
          row := row + [mapUnkIds[o.vvNew[bucket, i]]];
        } else {
          assert row + [] == row;
        }
      }
      rows := rows + [row];
    }
  }

  method Serialize(o: AddrManImpl, order: seq<int>) returns (d: Disk)
    requires o.Valid() && Sound(o.env, o.Model()) && IsWalk(o.Model(), order)
    ensures d == AddrManDisk.Serialize(o.env, o.Model(), order)
  {
    hide Consistent, QueueOk, NewOrder, TriedOrder, TableOf, AllSlots, Rows;
    ghost var m := o.Model();
    NewNumbered(o.env, m, order);
    var news, mapUnkIds := WriteNew(o, order);
    var trieds := WriteTried(o, order);
    assert forall slot :: slot in m.newTable ==> m.newTable[slot] in NewOrder(m, order);
    var rows := WriteBuckets(o, NewOrder(m, order), mapUnkIds);
    d := Disk(FILE_FORMAT, INCOMPATIBILITY_BASE + FILE_FORMAT, o.nKey, o.nNew, o.nTried, FlipBit30(o.env.newCount),
              news, trieds, rows, o.env.asmapChecksum);
  }

  // ---------- reading ----------

  /** While entries are read, ids, positions in vRandom and vRandom itself count up together. */
  ghost predicate CountedUp(l: Manager, size: nat) {
    && (forall x :: x in l.info <==> 0 <= x < size)
    && (forall x :: x in l.info ==> l.info[x].randomPos == x)
    && |l.random| == size && (forall i :: 0 <= i < size ==> l.random[i] == i)
  }

  method ReadNew(o: AddrManImpl, entries: seq<Saved>, nNew: nat)
    requires o.Valid() && nNew <= |entries| && CountedUp(o.Model(), 0)
    modifies o
    ensures o.Model() == LoadNew(old(o.Model()), entries, nNew) && CountedUp(o.Model(), nNew)
  {
    hide TableOf, AllSlots;
    ghost var start := o.Model();
    for n := 0 to nNew
      invariant o.Model() == LoadNew(start, entries, n) && CountedUp(o.Model(), n)
    {
      o.mapInfo := o.mapInfo[n := Fresh(entries[n], -1)];
      o.mapAddr := o.mapAddr[entries[n].service := n];
      o.mapInfo := o.mapInfo[n := o.mapInfo[n].(randomPos := |o.vRandom|)];
      o.vRandom := o.vRandom + [n];
      assert o.mapInfo == LoadNew(start, entries, n + 1).info;
    }
  }

  /** One tried entry: stored, or lost when its address is invalid or its slot is taken. */
  method ReadOneTried(o: AddrManImpl, s: Saved) returns (lost: bool)
    requires o.Valid() && o.nIdCount >= 0 && CountedUp(o.Model(), o.nIdCount)
    modifies o, o.vvTried
    ensures o.Model().(nTried := o.nTried - (if lost then 1 else 0)) == LoadOneTried(o.env, old(o.Model()), s)
    ensures o.nTried == old(o.nTried) && o.nIdCount >= old(o.nIdCount) && CountedUp(o.Model(), o.nIdCount)
  {
    hide TableOf, AllSlots, CountedUp;
    ghost var was := o.Model();
    CountedUpSize(was, o.nIdCount);
    var info := Fresh(s, -1);
    var slot := TriedSlot(o.env, o.nKey, info.service);
    assert slot in was.triedTable <==> o.vvTried[slot.bucket, slot.pos] != -1;
    lost := !(o.env.valid(info.service.ip) && o.vvTried[slot.bucket, slot.pos] == -1);
    if !lost {
      var id := o.nIdCount;
      o.mapInfo := o.mapInfo[id := info.(randomPos := |o.vRandom|, inTried := true)];
      o.vRandom := o.vRandom + [id];
      o.mapAddr := o.mapAddr[info.service := id];
      SetSlot(o.vvTried, slot, id);
      o.nIdCount := id + 1;
      CountedUpNext(was, o.Model(), id);
    }
  }

  lemma CountedUpSize(l: Manager, size: nat)
    requires CountedUp(l, size)
    ensures |l.random| == size
  {
  }

  lemma CountedUpNext(l: Manager, l': Manager, size: nat)
    requires CountedUp(l, size) && size in l'.info && l'.info == l.info[size := l'.info[size]] && l'.info[size].randomPos == size
    requires l'.random == l.random + [size]
    ensures CountedUp(l', size + 1)
  {
  }

  lemma LostLater(env: Env, m: Manager, s: Saved, n: int)
    requires EnvOk(env)
    ensures LoadOneTried(env, m.(nTried := m.nTried - n), s) == var r := LoadOneTried(env, m, s); r.(nTried := r.nTried - n)
  {
  }

  method ReadTried(o: AddrManImpl, entries: seq<Saved>, nTried: nat)
    requires o.Valid() && nTried <= |entries| && o.nIdCount >= 0 && CountedUp(o.Model(), o.nIdCount)
    modifies o, o.vvTried
    ensures o.Model() == LoadTried(o.env, old(o.Model()), entries, nTried)
    ensures o.nIdCount >= old(o.nIdCount) && CountedUp(o.Model(), o.nIdCount)
  {
    hide TableOf, AllSlots, CountedUp, LoadOneTried;
    ghost var start := o.Model();
    var nLost := 0;
    for n := 0 to nTried
      invariant o.Model().(nTried := o.nTried - nLost) == LoadTried(o.env, start, entries, n)
      invariant o.nIdCount >= start.idCount && CountedUp(o.Model(), o.nIdCount)
    {
      LostLater(o.env, o.Model(), entries[n], nLost);
      var lost := ReadOneTried(o, entries[n]);
      if lost {
        nLost := nLost + 1;
      }
    }
    o.nTried := o.nTried - nLost;
    SameCountedUp(LoadTried(o.env, start, entries, nTried), o.Model().(nTried := o.nTried + nLost), o.nIdCount);
  }

  lemma SameCountedUp(a: Manager, b: Manager, size: nat)
    requires CountedUp(b, size) && a.info == b.info && a.random == b.random
    ensures CountedUp(a, size)
  {
  }

  method ReadBuckets(rows: seq<seq<int>>, count: nat, nNew: int) returns (entries: seq<BucketEntry>)
    requires count <= |rows|
    ensures entries == AllEntries(rows, nNew, count)
    ensures forall k :: 0 <= k < |entries| ==> 0 <= entries[k].index < nNew && entries[k].bucket < count
  {
    entries := [];
    for bucket := 0 to count
      invariant entries == AllEntries(rows, nNew, bucket)
      invariant forall k :: 0 <= k < |entries| ==> 0 <= entries[k].index < nNew && entries[k].bucket < count
    {
      ghost var before := entries;
      assert before + [] == before;
      for n := 0 to |rows[bucket]|
        invariant entries == before + RowEntries(bucket, rows[bucket], nNew, n)
        invariant forall k :: 0 <= k < |entries| ==> 0 <= entries[k].index < nNew && entries[k].bucket < count
      {
        ghost var rest := RowEntries(bucket, rows[bucket], nNew, n);
        var index := rows[bucket][n];
        if index >= 0 && index < nNew {
          assert before + (rest + [BucketEntry(bucket, index)]) == (before + rest) + [BucketEntry(bucket, index)];
          entries := entries + [BucketEntry(bucket, index)];
        } else {
          assert rest + [] == rest;
        }
      }
    }
  }

  method GiveSlot(o: AddrManImpl, id: int, slot: Slot)
    requires o.Valid() && id in o.mapInfo && id != -1 && InRange(o.vvNew, slot)
    modifies o`mapInfo, o.vvNew
    ensures o.Model() == TakeSlotFor(old(o.Model()), id, slot)
  {
    SetSlot(o.vvNew, slot, id);
    o.mapInfo := o.mapInfo[id := o.mapInfo[id].(refCount := o.mapInfo[id].refCount + 1)];
  }

  method PlaceAll(o: AddrManImpl, restore: bool, entries: seq<BucketEntry>)
    requires o.Valid() && o.nIdCount >= 0 && CountedUp(o.Model(), o.nIdCount)
    requires forall k :: 0 <= k < |entries| ==> 0 <= entries[k].index < o.nIdCount && (restore ==> entries[k].bucket < o.env.newCount)
    modifies o, o.vvNew
    ensures o.Model() == PlaceEntries(o.env, old(o.Model()), restore, entries, |entries|)
    ensures o.nIdCount == old(o.nIdCount) && CountedUp(o.Model(), o.nIdCount)
  {
    hide TableOf, AllSlots;
    ghost var start := o.Model();
    for n := 0 to |entries|
      invariant o.Model() == PlaceEntries(o.env, start, restore, entries, n)
      invariant o.nIdCount == start.idCount && CountedUp(o.Model(), o.nIdCount)
    {
      var e := entries[n];
      var info := o.mapInfo[e.index];
      if !o.env.valid(info.service.ip) { continue; }
      if info.refCount >= NEW_BUCKETS_PER_ADDRESS { continue; }
      var slot := SlotInNew(o.env, o.nKey, info.service, e.bucket);
      assert restore ==> (slot in o.Model().newTable <==> o.vvNew[slot.bucket, slot.pos] != -1);
      if restore && o.vvNew[slot.bucket, slot.pos] == -1 {
        GiveSlot(o, e.index, slot);
      } else {
        var own := NewSlot(o.env, o.nKey, info.service, info.source);
        assert own in o.Model().newTable <==> o.vvNew[own.bucket, own.pos] != -1;
        if o.vvNew[own.bucket, own.pos] == -1 {
          GiveSlot(o, e.index, own);
        }
      }
    }
  }

  lemma {:induction false} PruneSnoc(m: Manager, order: seq<int>, id: int)
    ensures Prune(m, order + [id])
            == var p := Prune(m, order);
               if id in p.info && !p.info[id].inTried && p.info[id].refCount == 0 then Delete(p, id) else p
    decreases |order|
  {
    if order != [] {
      var x := order[0];
      assert (order + [id])[1..] == order[1..] + [id];
      PruneSnoc(if x in m.info && !m.info[x].inTried && m.info[x].refCount == 0 then Delete(m, x) else m, order[1..], id);
    }
  }

  /** The final sweep over mapInfo, in any order. */
  method PruneAll(o: AddrManImpl) returns (ghost order: seq<int>)
    requires o.Valid() && RandomOk(o.mapInfo, o.vRandom)
    modifies o
    ensures o.Model() == Prune(old(o.Model()), order)
  {
    hide TableOf, AllSlots, Delete, RandomOk;
    ghost var start := o.Model();
    order := [];
    var rest := o.mapInfo.Keys;
    while rest != {}
      invariant o.Model() == Prune(start, order) && RandomOk(o.mapInfo, o.vRandom)
      invariant forall id :: id in rest ==> id in o.mapInfo
      decreases |rest|
    {
      assert (forall x :: x !in rest) ==> rest == {};
      var id :| id in rest;
      PruneSnoc(start, order, id);
      rest := rest - {id};
      order := order + [id];
      if !o.mapInfo[id].inTried && o.mapInfo[id].refCount == 0 {
        DeleteRandom(o.Model(), id);
        o.Delete(id);
      }
    }
  }

  lemma CountedUpRandom(l: Manager, size: nat)
    requires CountedUp(l, size)
    ensures RandomOk(l.info, l.random)
  {
  }

  datatype Outcome = Success | BadFormat | BadData

  /** Unserialize into an empty manager; `order` is the order of the final sweep. */
  method Unserialize(o: AddrManImpl, d: Disk) returns (outcome: Outcome, ghost order: seq<int>)
    requires o.Valid() && o.Model() == Empty(o.nKey)
    modifies o, o.vvTried, o.vvNew
    ensures var r := AddrManDisk.Unserialize(o.env, d, order);
            && (outcome == BadFormat <==> r == UnsupportedFormat) && (outcome == BadData <==> r == Corrupt)
            && (outcome == Success ==> r == Loaded(o.Model()))
  {
    hide TableOf, AllSlots, Declared, LoadNew, LoadTried, PlaceEntries, AllEntries, Prune, CountedUp;
    order := [];
    if (d.compat - INCOMPATIBILITY_BASE) % 256 > FILE_FORMAT { return BadFormat, order; }
    if d.nNew > o.env.newCount * o.env.bucketSize || d.nNew < 0 { return BadData, order; }
    if d.nTried > o.env.triedCount * o.env.bucketSize || d.nTried < 0 { return BadData, order; }
    if !Complete(d) { return BadData, order; }
    o.nKey, o.nNew, o.nTried := d.key, d.nNew, d.nTried;
    o.nIdCount := d.nNew;
    EmptyCounted(o.Model());
    ReadNew(o, d.newEntries, d.nNew);
    LoadNewIdCount(Empty(d.key).(nNew := d.nNew, nTried := d.nTried, idCount := d.nNew), d.newEntries, d.nNew);
    ReadTried(o, d.triedEntries, d.nTried);
    var entries := ReadBuckets(d.buckets, RowsRead(d), d.nNew);
    var checksum := if d.format >= V2_ASMAP then d.asmapChecksum else 0;
    var restore := BucketsRead(d) == o.env.newCount && checksum == o.env.asmapChecksum;
    PlaceAll(o, restore, entries);
    CountedUpRandom(o.Model(), o.nIdCount);
    order := PruneAll(o);
    var check := CheckAddrman(o);
    outcome := if check != 0 then BadData else Success;
  }

  lemma EmptyCounted(l: Manager)
    requires l.info == map[] && l.random == []
    ensures CountedUp(l, 0)
  {
  }

  lemma {:induction false} LoadNewIdCount(start: Manager, entries: seq<Saved>, n: nat)
    requires n <= |entries|
    ensures LoadNew(start, entries, n).idCount == start.idCount
  {
    if n > 0 { LoadNewIdCount(start, entries, n - 1); }
  }

  /** Save and load: a fresh object ends up with the same manager, ids renumbered. */
  method SaveAndLoad(o: AddrManImpl, order: seq<int>) returns (o': AddrManImpl)
    requires o.Valid() && Sound(o.env, o.Model()) && o.nKey != 0 && IsWalk(o.Model(), order)
    ensures o'.Valid() && o'.env == o.env && Sound(o.env, o'.Model())
    ensures Renumbered(o.Model(), o'.Model(), Numbering(o.Model(), order))
  {
    hide Sound, Renumbered, Numbering, IsWalk, AddrManDisk.Unserialize, AddrManDisk.Serialize, TableOf;
    var d := Serialize(o, order);
    o' := new AddrManImpl(o.env, 0);
    ghost var m := o.Model();
    ghost var sweep;
    var outcome;
    outcome, sweep := Unserialize(o', d);
    RoundTrip(o.env, m, order, sweep);
  }
}
