/** Loading a saved address manager whose buckets cannot be restored: another asmap or bucket count. */
module AddrManRebucket {
  import opened AddrMan
  import opened AddrManInvariant
  import opened AddrManDisk

  /** The slot an entry's own source selects. */
  function OwnSlot(env: Env, m: Manager, id: int): Slot
    requires EnvOk(env)
  {
    NewSlot(env, m.key, Get(m, id).service, Get(m, id).source)
  }

  /** A listed entry with a valid address asks for its own slot, whatever bucket it was listed for. */
  predicate Claims(env: Env, m: Manager, e: BucketEntry, slot: Slot)
    requires EnvOk(env)
  {
    env.valid(Get(m, e.index).service.ip) && OwnSlot(env, m, e.index) == slot
  }

  ghost predicate FirstClaim(env: Env, m: Manager, entries: seq<BucketEntry>, n: nat, slot: Slot, j: nat)
    requires EnvOk(env)
  {
    j < n <= |entries| && Claims(env, m, entries[j], slot) && forall k :: 0 <= k < j ==> !Claims(env, m, entries[k], slot)
  }

  /** No new slot is taken and no entry has a reference. */
  ghost predicate Unplaced(m: Manager) {
    m.newTable == map[] && forall id :: id in m.info ==> m.info[id].refCount == 0
  }

  /** The new table once the first n listed entries are placed: every slot goes to the first that asks for it. */
  ghost predicate FirstComeFirstServed(env: Env, m: Manager, entries: seq<BucketEntry>, n: nat, r: Manager)
    requires EnvOk(env) && n <= |entries|
  {
    && (forall k :: 0 <= k < n && env.valid(Get(m, entries[k].index).service.ip) ==> OwnSlot(env, m, entries[k].index) in r.newTable)
    && (forall slot :: slot in r.newTable ==> exists j: nat :: FirstClaim(env, m, entries, n, slot, j) && r.newTable[slot] == entries[j].index)
    && r == m.(info := r.info, newTable := r.newTable) && (forall id :: id in r.info <==> id in m.info)
    && forall id :: id in m.info ==>
         r.info[id] == m.info[id].(refCount := if OwnSlot(env, m, id) in r.newTable && r.newTable[OwnSlot(env, m, id)] == id then 1 else 0)
  }

  lemma PlaceOneIs(env: Env, m: Manager, entries: seq<BucketEntry>, n: nat, r: Manager)
    requires EnvOk(env) && n < |entries| && FirstComeFirstServed(env, m, entries, n, r) && entries[n].index in m.info && Unplaced(m)
    ensures var e := entries[n];
            var own := OwnSlot(env, m, e.index);
            PlaceEntry(env, r, false, e) == if env.valid(m.info[e.index].service.ip) && own !in r.newTable then TakeSlotFor(r, e.index, own) else r
  {
    hide NewSlot;
    var i := entries[n].index;
    assert r.info[i] == m.info[i].(refCount := r.info[i].refCount) && r.info[i].refCount <= 1;
  }

  lemma Skipped(env: Env, m: Manager, entries: seq<BucketEntry>, n: nat, r: Manager)
    requires EnvOk(env) && n < |entries| && FirstComeFirstServed(env, m, entries, n, r) && entries[n].index in m.info
    requires !env.valid(m.info[entries[n].index].service.ip) || OwnSlot(env, m, entries[n].index) in r.newTable
    ensures FirstComeFirstServed(env, m, entries, n + 1, r)
  {
    hide OwnSlot;
    forall slot | slot in r.newTable
      ensures exists j: nat :: FirstClaim(env, m, entries, n + 1, slot, j) && r.newTable[slot] == entries[j].index
    {
      var j: nat :| FirstClaim(env, m, entries, n, slot, j) && r.newTable[slot] == entries[j].index;
      assert FirstClaim(env, m, entries, n + 1, slot, j);
    }
  }

  lemma Served(env: Env, m: Manager, entries: seq<BucketEntry>, n: nat, r: Manager)
    requires EnvOk(env) && n < |entries| && FirstComeFirstServed(env, m, entries, n, r) && entries[n].index in m.info && Unplaced(m)
    requires env.valid(m.info[entries[n].index].service.ip) && OwnSlot(env, m, entries[n].index) !in r.newTable
    ensures FirstComeFirstServed(env, m, entries, n + 1, TakeSlotFor(r, entries[n].index, OwnSlot(env, m, entries[n].index)))
  {
    hide OwnSlot;
    var i := entries[n].index;
    var own := OwnSlot(env, m, i);
    var r' := TakeSlotFor(r, i, own);
    assert r.info[i].refCount == 0;
    forall slot | slot in r'.newTable
      ensures exists j: nat :: FirstClaim(env, m, entries, n + 1, slot, j) && r'.newTable[slot] == entries[j].index
    {
      if slot == own {
        assert FirstClaim(env, m, entries, n + 1, slot, n);
      } else {
        var j: nat :| FirstClaim(env, m, entries, n, slot, j) && r.newTable[slot] == entries[j].index;
        assert FirstClaim(env, m, entries, n + 1, slot, j);
      }
    }
  }

  lemma NothingServed(env: Env, m: Manager, entries: seq<BucketEntry>)
    requires EnvOk(env) && Unplaced(m)
    ensures FirstComeFirstServed(env, m, entries, 0, m)
  {
    hide OwnSlot;
  }

  lemma {:induction false} PlaceAllListed(env: Env, m: Manager, entries: seq<BucketEntry>, n: nat)
    requires EnvOk(env) && n <= |entries| && Unplaced(m) && forall k :: 0 <= k < |entries| ==> entries[k].index in m.info
    ensures FirstComeFirstServed(env, m, entries, n, PlaceEntries(env, m, false, entries, n))
  {
    hide PlaceEntry, FirstComeFirstServed, OwnSlot, Unplaced, TakeSlotFor, EnvOk;
    if n == 0 {
      NothingServed(env, m, entries);
    } else {
      PlaceAllListed(env, m, entries, n - 1);
      var r, e := PlaceEntries(env, m, false, entries, n - 1), entries[n - 1];
      PlaceOneIs(env, m, entries, n - 1, r);
      if env.valid(m.info[e.index].service.ip) && OwnSlot(env, m, e.index) !in r.newTable {
        Served(env, m, entries, n - 1, r);
      } else {
        Skipped(env, m, entries, n - 1, r);
      }
    }
  }

  // ---------- what is loaded before ----------

  /** The state before the new table is filled: the new entries as saved under their indexes. */
  ghost predicate EntriesRead(m: Manager, saved: seq<Saved>, n: nat)
    requires n <= |saved|
  {
    && m.newTable == map[] && n <= m.idCount && RandomOk(m.info, m.random)
    && (forall id :: id in m.info ==> m.info[id].refCount == 0 && 0 <= id < m.idCount)
    && forall k: int :: 0 <= k < n ==> k in m.info && !m.info[k].inTried && Save(m.info[k]) == saved[k]
  }

  lemma NewOne(m: Manager, saved: seq<Saved>, n: nat)
    requires n < |saved| && EntriesRead(m, saved, n) && m.idCount > n && forall id :: id in m.info ==> id < n
    ensures EntriesRead(m.(info := m.info[n := Fresh(saved[n], |m.random|)], addr := m.addr[saved[n].service := n], random := m.random + [n]), saved, n + 1)
  {
  }

  lemma {:induction false} NewRead(m: Manager, saved: seq<Saved>, n: nat)
    requires n <= |saved| && m.newTable == map[] && m.info == map[] && m.random == [] && m.idCount >= n
    ensures var r := LoadNew(m, saved, n);
            EntriesRead(r, saved, n) && r == m.(info := r.info, addr := r.addr, random := r.random) && forall id :: id in r.info ==> id < n
  {
    if n > 0 {
      hide EntriesRead;
      NewRead(m, saved, n - 1);
      NewOne(LoadNew(m, saved, n - 1), saved, n - 1);
    }
  }

  ghost predicate FirstTried(env: Env, key: nat, tried: seq<Saved>, n: nat, slot: Slot, j: nat)
    requires EnvOk(env)
  {
    && j < n <= |tried| && env.valid(tried[j].service.ip) && TriedSlot(env, key, tried[j].service) == slot
    && forall k :: 0 <= k < j ==> !(env.valid(tried[k].service.ip) && TriedSlot(env, key, tried[k].service) == slot)
  }

  /** A tried slot is held by the first saved entry that belongs there. */
  ghost predicate HeldByFirst(env: Env, key: nat, tried: seq<Saved>, n: nat, r: Manager, slot: Slot)
    requires EnvOk(env) && slot in r.triedTable
  {
    var id := r.triedTable[slot];
    id in r.info && r.info[id].inTried && exists j: nat :: FirstTried(env, key, tried, n, slot, j) && Save(r.info[id]) == tried[j]
  }

  lemma StillFirst(env: Env, key: nat, tried: seq<Saved>, k: nat, r: Manager, r': Manager, slot: Slot)
    requires EnvOk(env) && k < |tried| && slot in r.triedTable && slot in r'.triedTable && r'.triedTable[slot] == r.triedTable[slot]
    requires HeldByFirst(env, key, tried, k, r, slot) && r.triedTable[slot] in r'.info && r'.info[r.triedTable[slot]] == r.info[r.triedTable[slot]]
    ensures HeldByFirst(env, key, tried, k + 1, r', slot)
  {
    hide TriedSlot, Save;
    var id := r.triedTable[slot];
    var j: nat :| FirstTried(env, key, tried, k, slot, j) && Save(r.info[id]) == tried[j];
    assert FirstTried(env, key, tried, k + 1, slot, j);
  }

  lemma NewFirst(env: Env, m: Manager, tried: seq<Saved>, k: nat, r: Manager)
    requires EnvOk(env) && k < |tried| && TriedServed(env, m, tried, k, r)
    requires env.valid(tried[k].service.ip) && TriedSlot(env, m.key, tried[k].service) !in r.triedTable
    ensures var own := TriedSlot(env, m.key, tried[k].service);
            HeldByFirst(env, m.key, tried, k + 1, TriedAdded(r, tried[k], own), own)
  {
    hide TriedSlot;
    assert FirstTried(env, m.key, tried, k + 1, TriedSlot(env, m.key, tried[k].service), k);
  }

  /** The tried table once n saved entries are read: every slot goes to the first with a valid address that belongs there; the others are lost. */
  ghost predicate TriedServed(env: Env, m: Manager, tried: seq<Saved>, n: nat, r: Manager)
    requires EnvOk(env) && n <= |tried|
  {
    && r == m.(idCount := r.idCount, info := r.info, addr := r.addr, random := r.random, triedTable := r.triedTable, nTried := r.nTried)
    && (forall k :: 0 <= k < n && env.valid(tried[k].service.ip) ==> TriedSlot(env, m.key, tried[k].service) in r.triedTable)
    && (forall slot :: slot in r.triedTable ==> HeldByFirst(env, m.key, tried, n, r, slot))
    && r.idCount - m.idCount == |r.triedTable| == r.nTried - m.nTried + n
    && (forall id :: id in m.info ==> id in r.info && r.info[id] == m.info[id])
  }

  lemma TriedLost(env: Env, m: Manager, tried: seq<Saved>, k: nat, r: Manager)
    requires EnvOk(env) && k < |tried| && TriedServed(env, m, tried, k, r)
    requires !env.valid(tried[k].service.ip) || TriedSlot(env, m.key, tried[k].service) in r.triedTable
    ensures TriedServed(env, m, tried, k + 1, r.(nTried := r.nTried - 1))
  {
    hide TriedSlot, Save, HeldByFirst;
    forall slot | slot in r.triedTable ensures HeldByFirst(env, m.key, tried, k + 1, r.(nTried := r.nTried - 1), slot) {
      KnownHolder(env, m, tried, k, r, slot);
      StillFirst(env, m.key, tried, k, r, r.(nTried := r.nTried - 1), slot);
    }
  }

  lemma KnownHolder(env: Env, m: Manager, tried: seq<Saved>, k: nat, r: Manager, slot: Slot)
    requires EnvOk(env) && k <= |tried| && TriedServed(env, m, tried, k, r) && slot in r.triedTable
    ensures HeldByFirst(env, m.key, tried, k, r, slot) && r.triedTable[slot] in r.info
  {
    hide TriedSlot;
  }

  /** The state with one more tried entry. */
  function TriedAdded(r: Manager, s: Saved, slot: Slot): Manager {
    r.(idCount := r.idCount + 1, info := r.info[r.idCount := Fresh(s, |r.random|).(inTried := true)], addr := r.addr[s.service := r.idCount],
       random := r.random + [r.idCount], triedTable := r.triedTable[slot := r.idCount])
  }

  lemma TriedKept(env: Env, m: Manager, tried: seq<Saved>, k: nat, r: Manager)
    requires EnvOk(env) && k < |tried| && TriedServed(env, m, tried, k, r) && r.idCount !in r.info
    requires env.valid(tried[k].service.ip) && TriedSlot(env, m.key, tried[k].service) !in r.triedTable
    ensures TriedServed(env, m, tried, k + 1, TriedAdded(r, tried[k], TriedSlot(env, m.key, tried[k].service)))
  {
    hide TriedSlot, HeldByFirst;
    var own := TriedSlot(env, m.key, tried[k].service);
    var r' := TriedAdded(r, tried[k], own);
    forall slot | slot in r'.triedTable ensures HeldByFirst(env, m.key, tried, k + 1, r', slot) {
      if slot == own {
        NewFirst(env, m, tried, k, r);
      } else {
        KnownHolder(env, m, tried, k, r, slot);
        StillFirst(env, m.key, tried, k, r, r', slot);
      }
    }
    OneMoreKey(r.triedTable, own, r.idCount);
  }

  lemma OneMoreKey(t: Table, slot: Slot, id: int)
    requires slot !in t
    ensures |t[slot := id]| == |t| + 1
  {
    assert t[slot := id].Keys == t.Keys + {slot};
  }

  lemma LoadOneTriedIs(env: Env, m: Manager, tried: seq<Saved>, k: nat, r: Manager)
    requires EnvOk(env) && k < |tried| && TriedServed(env, m, tried, k, r)
    ensures var own := TriedSlot(env, m.key, tried[k].service);
            LoadOneTried(env, r, tried[k]) == if env.valid(tried[k].service.ip) && own !in r.triedTable then TriedAdded(r, tried[k], own) else r.(nTried := r.nTried - 1)
  {
    hide TriedSlot;
  }

  lemma TriedOneRead(env: Env, saved: seq<Saved>, n: nat, s: Saved, r: Manager)
    requires EnvOk(env) && n <= |saved| && EntriesRead(r, saved, n)
    ensures EntriesRead(LoadOneTried(env, r, s), saved, n)
  {
    hide TriedSlot;
  }

  lemma NoneTried(env: Env, m: Manager, tried: seq<Saved>)
    requires EnvOk(env) && m.triedTable == map[]
    ensures TriedServed(env, m, tried, 0, m)
  {
    hide TriedSlot;
  }

  lemma NextUnknown(m: Manager, saved: seq<Saved>, n: nat)
    requires n <= |saved| && EntriesRead(m, saved, n)
    ensures m.idCount !in m.info
  {
  }

  lemma {:induction false} TriedRead(env: Env, m: Manager, saved: seq<Saved>, n: nat, tried: seq<Saved>, k: nat)
    requires EnvOk(env) && n <= |saved| && k <= |tried| && EntriesRead(m, saved, n) && m.triedTable == map[]
    ensures EntriesRead(LoadTried(env, m, tried, k), saved, n) && TriedServed(env, m, tried, k, LoadTried(env, m, tried, k))
  {
    hide LoadOneTried, EntriesRead, TriedServed, TriedAdded, EnvOk, TriedSlot;
    if k == 0 {
      NoneTried(env, m, tried);
    } else {
      TriedRead(env, m, saved, n, tried, k - 1);
      var r, s := LoadTried(env, m, tried, k - 1), tried[k - 1];
      TriedOneRead(env, saved, n, s, r);
      LoadOneTriedIs(env, m, tried, k - 1, r);
      if env.valid(s.service.ip) && TriedSlot(env, m.key, s.service) !in r.triedTable {
        NextUnknown(r, saved, n);
        TriedKept(env, m, tried, k - 1, r);
      } else {
        TriedLost(env, m, tried, k - 1, r);
      }
    }
  }

  lemma {:induction false} ListedIndexes(rows: seq<seq<int>>, nNew: int, b: nat, k: nat)
    requires b <= |rows| && k < |AllEntries(rows, nNew, b)|
    ensures 0 <= AllEntries(rows, nNew, b)[k].index < nNew
  {
    var before := AllEntries(rows, nNew, b - 1);
    if k < |before| {
      ListedIndexes(rows, nNew, b - 1, k);
    } else {
      RowIndexes(b - 1, rows[b - 1], nNew, |rows[b - 1]|, k - |before|);
    }
  }

  lemma {:induction false} RowIndexes(bucket: nat, row: seq<int>, nNew: int, n: nat, k: nat)
    requires n <= |row| && k < |RowEntries(bucket, row, nNew, n)|
    ensures 0 <= RowEntries(bucket, row, nNew, n)[k].index < nNew
  {
    if k < |RowEntries(bucket, row, nNew, n - 1)| { RowIndexes(bucket, row, nNew, n - 1, k); }
  }

  // ---------- pruning ----------

  predicate Unreferenced(i: Info) {
    !i.inTried && i.refCount == 0
  }

  /** Pruning deletes exactly the walked entries without a reference and leaves everything else as it is. */
  lemma {:induction false} PruneEffect(m: Manager, order: seq<int>)
    requires RandomOk(m.info, m.random)
    ensures var p := Prune(m, order);
            && (forall id :: id in p.info <==> id in m.info && !(id in order && Unreferenced(m.info[id])))
            && (forall id :: id in p.info ==> p.info[id] == m.info[id].(randomPos := p.info[id].randomPos))
            && p.newTable == m.newTable && p.triedTable == m.triedTable
    decreases |order|
  {
    if order != [] {
      hide RandomOk, Delete;
      var id := order[0];
      if id in m.info && Unreferenced(m.info[id]) {
        DeleteRandom(m, id);
        PruneEffect(Delete(m, id), order[1..]);
      } else {
        PruneEffect(m, order[1..]);
      }
    }
  }

  lemma PlacedRandom(env: Env, m: Manager, entries: seq<BucketEntry>, n: nat, r: Manager)
    requires EnvOk(env) && n <= |entries| && FirstComeFirstServed(env, m, entries, n, r) && RandomOk(m.info, m.random)
    ensures RandomOk(r.info, r.random)
  {
    hide OwnSlot, FirstClaim;
  }

  /** What a file gives that is read under another asmap or bucket count, in terms of the entries it lists. */
  ghost predicate Rebucketed(env: Env, d: Disk, m: Manager, r: Manager, p: Manager)
    requires EnvOk(env) && Complete(d) && 0 <= d.nNew && 0 <= d.nTried
  {
    var entries := AllEntries(d.buckets, d.nNew, RowsRead(d));
    && EntriesRead(m, d.newEntries, d.nNew) && m.key == d.key && m.nTried == |m.triedTable|
    && (forall slot :: slot in m.triedTable ==> HeldByFirst(env, d.key, d.triedEntries, d.nTried, m, slot))
    && (forall k :: 0 <= k < d.nTried && env.valid(d.triedEntries[k].service.ip) ==> TriedSlot(env, d.key, d.triedEntries[k].service) in m.triedTable)
    && FirstComeFirstServed(env, m, entries, |entries|, r)
    && p.newTable == r.newTable && p.triedTable == m.triedTable
    && forall id :: id in p.info <==> id in r.info && !Unreferenced(r.info[id])
  }

  /**
   * When the buckets cannot be restored every new entry asks for the slot of its own source; each
   * slot goes to the first listed that asks for it; and an entry survives exactly if it got its
   * slot.  In tried, where the hash may have changed too, each slot goes to the first saved entry.
   */
  lemma RebucketedLoad(env: Env, d: Disk, order: seq<int>) returns (m: Manager)
    requires EnvOk(env) && Complete(d) && 0 <= d.nNew && 0 <= d.nTried
    requires BucketsRead(d) != env.newCount || (if d.format >= V2_ASMAP then d.asmapChecksum else 0) != env.asmapChecksum
    requires forall id :: id in Rebuilt(env, d).info ==> id in order
    ensures Rebucketed(env, d, m, Rebuilt(env, d), Prune(Rebuilt(env, d), order))
  {
    hide PlaceEntries, AllEntries, LoadNew, LoadTried, FirstComeFirstServed, Prune, HeldByFirst, RandomOk;
    var start := Empty(d.key).(nNew := d.nNew, nTried := d.nTried, idCount := d.nNew);
    var n := LoadNew(start, d.newEntries, d.nNew);
    m := LoadTried(env, n, d.triedEntries, d.nTried);
    var entries := AllEntries(d.buckets, d.nNew, RowsRead(d));
    NewRead(start, d.newEntries, d.nNew);
    TriedRead(env, n, d.newEntries, d.nNew, d.triedEntries, d.nTried);
    forall k | 0 <= k < |entries| ensures entries[k].index in m.info {
      ListedIndexes(d.buckets, d.nNew, RowsRead(d), k);
    }
    PlaceAllListed(env, m, entries, |entries|);
    PlacedRandom(env, m, entries, |entries|, Rebuilt(env, d));
    ServedTables(env, m, entries, |entries|, Rebuilt(env, d));
    PruneEffect(Rebuilt(env, d), order);
  }

  lemma ServedTables(env: Env, m: Manager, entries: seq<BucketEntry>, n: nat, r: Manager)
    requires EnvOk(env) && n <= |entries| && FirstComeFirstServed(env, m, entries, n, r)
    ensures r.triedTable == m.triedTable
  {
  }
}
