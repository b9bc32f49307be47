/**
 * Serialize and Unserialize of the address manager as functions on values.  The file holds
 * neither tables nor vRandom nor ids: only the entries, in the order mapInfo is walked, and
 * for each new bucket the indices of its entries.
 */
module AddrManDisk {
  import opened AddrMan
  import opened AddrManInvariant
  import opened AddrManCheck

  /** What is written of an entry. */
  datatype Saved = Saved(service: Service, time: nat, services: set<nat>, source: nat, lastSuccess: int, attempts: int)

  datatype Disk = Disk(
    format: nat, compat: nat, key: nat, nNew: int, nTried: int, nUBuckets: int,
    newEntries: seq<Saved>, triedEntries: seq<Saved>, buckets: seq<seq<int>>, asmapChecksum: nat)

  const FILE_FORMAT := 4
  const V1_DETERMINISTIC := 1
  const V2_ASMAP := 2
  const INCOMPATIBILITY_BASE := 32
  const BIT30 := 0x4000_0000

  function Save(i: Info): Saved {
    Saved(i.service, i.time, i.services, i.source, i.lastSuccess, i.attempts)
  }

  /** An entry as read: not tried, in no bucket, never tried by us. */
  function Fresh(s: Saved, pos: int): Info {
    NO_INFO.(service := s.service, time := s.time, services := s.services, source := s.source,
             lastSuccess := s.lastSuccess, attempts := s.attempts, randomPos := pos)
  }

  /** XOR with 2**30. */
  function FlipBit30(n: int): (r: int)
    ensures r != n
  {
    if (n / BIT30) % 2 == 0 then n + BIT30 else n - BIT30
  }

  // ---------- Serialize ----------

  /** The ids in `order` that have references in new; those in tried. */
  function NewOrder(m: Manager, order: seq<int>): seq<int> {
    if order == [] then []
    else
      var id := order[|order| - 1];
      NewOrder(m, order[..|order| - 1]) + (if Get(m, id).refCount != 0 then [id] else [])
  }

  function TriedOrder(m: Manager, order: seq<int>): seq<int> {
    if order == [] then []
    else
      var id := order[|order| - 1];
      TriedOrder(m, order[..|order| - 1]) + (if Get(m, id).inTried then [id] else [])
  }

  function SaveAll(m: Manager, ids: seq<int>): (r: seq<Saved>)
    ensures |r| == |ids| && forall k :: 0 <= k < |ids| ==> r[k] == Save(Get(m, ids[k]))
  {
    seq(|ids|, k requires 0 <= k < |ids| => Save(Get(m, ids[k])))
  }

  /** The first position of an id, or the length. */
  function IndexOf(ids: seq<int>, id: int): (k: nat)
    ensures k <= |ids| && (k < |ids| ==> ids[k] == id) && (id in ids ==> k < |ids|)
  {
    if ids == [] then 0 else if ids[0] == id then 0 else 1 + IndexOf(ids[1..], id)
  }

  /** The indices written for the first p positions of a bucket. */
  function Row(m: Manager, ids: seq<int>, bucket: nat, p: nat): seq<int> {
    if p == 0 then []
    else
      var slot := Slot(bucket, p - 1);
      Row(m, ids, bucket, p - 1) + (if slot in m.newTable then [IndexOf(ids, m.newTable[slot])] else [])
  }

  function Rows(env: Env, m: Manager, ids: seq<int>): (r: seq<seq<int>>)
    ensures |r| == env.newCount
  {
    seq(env.newCount, b requires 0 <= b < env.newCount => Row(m, ids, b, env.bucketSize))
  }

  /** `order` is the order in which mapInfo is walked. */
  function Serialize(env: Env, m: Manager, order: seq<int>): Disk {
    Disk(FILE_FORMAT, INCOMPATIBILITY_BASE + FILE_FORMAT, m.key, m.nNew, m.nTried, FlipBit30(env.newCount),
         SaveAll(m, NewOrder(m, order)), SaveAll(m, TriedOrder(m, order)), Rows(env, m, NewOrder(m, order)), env.asmapChecksum)
  }

  // ---------- Unserialize ----------

  datatype LoadResult = Loaded(m: Manager) | UnsupportedFormat | Corrupt

  function LoadNew(m: Manager, entries: seq<Saved>, n: nat): Manager
    requires n <= |entries|
  {
    if n == 0 then m
    else
      var p := LoadNew(m, entries, n - 1);
      var id := n - 1;
      p.(info := p.info[id := Fresh(entries[id], |p.random|)], addr := p.addr[entries[id].service := id], random := p.random + [id])
  }

  function LoadOneTried(env: Env, m: Manager, s: Saved): Manager
    requires EnvOk(env)
  {
    var slot := TriedSlot(env, m.key, s.service);
    if env.valid(s.service.ip) && slot !in m.triedTable then
      var id := m.idCount;
      m.(idCount := id + 1, info := m.info[id := Fresh(s, |m.random|).(inTried := true)], addr := m.addr[s.service := id],
         random := m.random + [id], triedTable := m.triedTable[slot := id])
    else m.(nTried := m.nTried - 1)
  }

  function LoadTried(env: Env, m: Manager, entries: seq<Saved>, n: nat): Manager
    requires EnvOk(env) && n <= |entries|
  {
    if n == 0 then m else LoadOneTried(env, LoadTried(env, m, entries, n - 1), entries[n - 1])
  }

  datatype BucketEntry = BucketEntry(bucket: nat, index: int)

  /** The usable entries of the first k elements of a row. */
  function RowEntries(bucket: nat, row: seq<int>, nNew: int, k: nat): seq<BucketEntry>
    requires k <= |row|
  {
    if k == 0 then []
    else RowEntries(bucket, row, nNew, k - 1) + (if 0 <= row[k - 1] < nNew then [BucketEntry(bucket, row[k - 1])] else [])
  }

  function AllEntries(rows: seq<seq<int>>, nNew: int, b: nat): seq<BucketEntry>
    requires b <= |rows|
  {
    if b == 0 then [] else AllEntries(rows, nNew, b - 1) + RowEntries(b - 1, rows[b - 1], nNew, |rows[b - 1]|)
  }

  function TakeSlotFor(m: Manager, id: int, slot: Slot): Manager {
    Put(m, id, Get(m, id).(refCount := Get(m, id).refCount + 1)).(newTable := m.newTable[slot := id])
  }

  function PlaceEntry(env: Env, m: Manager, restore: bool, e: BucketEntry): Manager
    requires EnvOk(env)
  {
    var i := Get(m, e.index);
    if !env.valid(i.service.ip) || i.refCount >= NEW_BUCKETS_PER_ADDRESS then m
    else
      var slot := SlotInNew(env, m.key, i.service, e.bucket);
      if restore && slot !in m.newTable then TakeSlotFor(m, e.index, slot)
      else
        var own := NewSlot(env, m.key, i.service, i.source);
        if own !in m.newTable then TakeSlotFor(m, e.index, own) else m
  }

  function PlaceEntries(env: Env, m: Manager, restore: bool, entries: seq<BucketEntry>, n: nat): Manager
    requires EnvOk(env) && n <= |entries|
  {
    if n == 0 then m else PlaceEntry(env, PlaceEntries(env, m, restore, entries, n - 1), restore, entries[n - 1])
  }

  /** Entries left without any reference are deleted, in the order mapInfo is walked. */
  function Prune(m: Manager, order: seq<int>): Manager
    decreases |order|
  {
    if order == [] then m
    else
      var id := order[0];
      Prune(if id in m.info && !m.info[id].inTried && m.info[id].refCount == 0 then Delete(m, id) else m, order[1..])
  }

  /** The number of new buckets the file announces. */
  function BucketsRead(d: Disk): int {
    if d.format >= V1_DETERMINISTIC then FlipBit30(d.nUBuckets) else d.nUBuckets
  }

  function RowsRead(d: Disk): nat {
    if BucketsRead(d) < 0 then 0 else BucketsRead(d)
  }

  /** All tables as they stand before pruning. */
  function Rebuilt(env: Env, d: Disk): Manager
    requires EnvOk(env) && 0 <= d.nNew <= |d.newEntries| && 0 <= d.nTried <= |d.triedEntries|
    requires RowsRead(d) <= |d.buckets|
  {
    var start := Empty(d.key).(nNew := d.nNew, nTried := d.nTried, idCount := d.nNew);
    var n := LoadNew(start, d.newEntries, d.nNew);
    var t := LoadTried(env, n, d.triedEntries, d.nTried);
    var entries := AllEntries(d.buckets, d.nNew, RowsRead(d));
    var checksum := if d.format >= V2_ASMAP then d.asmapChecksum else 0;
    var restore := BucketsRead(d) == env.newCount && checksum == env.asmapChecksum;
    PlaceEntries(env, t, restore, entries, |entries|)
  }

  /** The stream holds as many items as its counts announce. */
  predicate Complete(d: Disk) {
    && d.nNew <= |d.newEntries| && d.nTried <= |d.triedEntries| && RowsRead(d) <= |d.buckets|
  }

  ghost function Unserialize(env: Env, d: Disk, order: seq<int>): LoadResult
    requires EnvOk(env)
  {
    if (d.compat - INCOMPATIBILITY_BASE) % 256 > FILE_FORMAT then UnsupportedFormat
    else if d.nNew > env.newCount * env.bucketSize || d.nNew < 0 then Corrupt
    else if d.nTried > env.triedCount * env.bucketSize || d.nTried < 0 then Corrupt
    else if !Complete(d) then Corrupt
    else
      var m := Prune(Rebuilt(env, d), order);
      if Declared(env, m) then Loaded(m) else Corrupt
  }
}
