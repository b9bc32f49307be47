/**
 * The address manager of src/addrman.cpp as a value, and its operations as functions.
 * Hashing is left open: `Env` carries arbitrary hash functions (with the asmap folded in) and
 * arbitrary positive table dimensions; clocks and random numbers are arguments.
 */
module AddrMan {
  import Bits
  import opened Common

  datatype Service = Service(ip: nat, port: nat)

  /** What a peer tells us: an address, when it was seen, what it offers. */
  datatype Address = Address(service: Service, time: nat, services: set<nat>)

  datatype Info = Info(
    service: Service, time: nat, services: set<nat>, source: nat,
    lastTry: int, lastCountAttempt: int, lastSuccess: int, attempts: int,
    refCount: int, inTried: bool, randomPos: int)

  /** A default-constructed AddrInfo. */
  const NO_INFO := Info(Service(0, 0), 0, {}, 0, 0, 0, 0, 0, 0, false, -1)

  datatype Slot = Slot(bucket: nat, pos: nat)

  datatype Env = Env(
    newCount: nat, triedCount: nat, bucketSize: nat,
    triedHash: (nat, Service) -> nat,
    newHash: (nat, Service, nat) -> nat,
    posHash: (nat, bool, nat, Service) -> nat,
    routable: nat -> bool, valid: nat -> bool,
    asmapChecksum: nat)

  ghost predicate EnvOk(env: Env) {
    && env.newCount > 0 && env.triedCount > 0 && env.bucketSize > 0
    && forall ip :: env.routable(ip) ==> env.valid(ip)
  }

  const NEW_BUCKETS_PER_ADDRESS := 8
  const HORIZON_DAYS := 30
  const RETRIES := 3
  const MAX_FAILURES := 10
  const MIN_FAIL_DAYS := 7
  const REPLACEMENT_HOURS := 4
  const SET_TRIED_COLLISION_SIZE := 10
  const TEST_WINDOW := 40 * 60
  const HOUR := 60 * 60
  const DAY := 24 * 60 * 60

  /** A table maps its occupied slots to entry ids; every other slot is empty (-1 in the code). */
  type Table = map<Slot, int>

  datatype Manager = Manager(
    key: nat, idCount: int, info: map<int, Info>, addr: map<Service, int>, random: seq<int>,
    nTried: int, triedTable: Table, nNew: int, newTable: Table, lastGood: int, collisions: set<int>)

  // ---------- buckets ----------

  function TriedSlot(env: Env, key: nat, s: Service): (slot: Slot)
    requires EnvOk(env)
    ensures slot.bucket < env.triedCount && slot.pos < env.bucketSize
  {
    var bucket := env.triedHash(key, s) % env.triedCount;
    Slot(bucket, env.posHash(key, false, bucket, s) % env.bucketSize)
  }

  /** The only slot an address can occupy in a given new bucket. */
  function SlotInNew(env: Env, key: nat, s: Service, bucket: nat): (slot: Slot)
    requires EnvOk(env)
    ensures slot.bucket == bucket && slot.pos < env.bucketSize
  {
    Slot(bucket, env.posHash(key, true, bucket, s) % env.bucketSize)
  }

  function NewSlot(env: Env, key: nat, s: Service, source: nat): (slot: Slot)
    requires EnvOk(env)
    ensures slot.bucket < env.newCount && slot == SlotInNew(env, key, s, slot.bucket)
  {
    SlotInNew(env, key, s, env.newHash(key, s, source) % env.newCount)
  }

  predicate IsTerrible(i: Info, now: int) {
    if i.lastTry != 0 && i.lastTry >= now - 60 then false
    else if i.time > now + 10 * 60 then true
    else if i.time == 0 || now - i.time > HORIZON_DAYS * DAY then true
    else if i.lastSuccess == 0 && i.attempts >= RETRIES then true
    else now - i.lastSuccess > MIN_FAIL_DAYS * DAY && i.attempts >= MAX_FAILURES
  }

  // ---------- primitives ----------

  /** mapInfo[id], default-constructed when absent. */
  function Get(m: Manager, id: int): Info {
    if id in m.info then m.info[id] else NO_INFO
  }

  function Put(m: Manager, id: int, i: Info): Manager {
    m.(info := m.info[id := i])
  }

  predicate Found(m: Manager, s: Service) {
    s in m.addr && m.addr[s] in m.info
  }

  function Create(m: Manager, a: Address, source: nat): Manager {
    var id := m.idCount;
    m.(idCount := id + 1,
       info := m.info[id := NO_INFO.(service := a.service, time := a.time, services := a.services, source := source,
                                     randomPos := |m.random|)],
       addr := m.addr[a.service := id],
       random := m.random + [id])
  }

  function SwapRandom(m: Manager, i: nat, j: nat): (r: Manager)
    ensures |r.random| == |m.random|
  {
    if i == j || i >= |m.random| || j >= |m.random| then m
    else
      var a, b := m.random[i], m.random[j];
      var info1 := m.info[a := Get(m, a).(randomPos := j)];
      var info2 := info1[b := (if b in info1 then info1[b] else NO_INFO).(randomPos := i)];
      m.(info := info2, random := m.random[i := b][j := a])
  }

  function Delete(m: Manager, id: int): Manager {
    var i := Get(m, id);
    var s := if 0 <= i.randomPos && |m.random| > 0 then SwapRandom(m, i.randomPos, |m.random| - 1) else m;
    s.(random := if |s.random| > 0 then s.random[..|s.random| - 1] else [],
       addr := s.addr - {i.service},
       info := s.info - {id},
       nNew := s.nNew - 1)
  }

  function ClearNew(m: Manager, slot: Slot): Manager {
    if slot !in m.newTable then m
    else
      var id := m.newTable[slot];
      var i := Get(m, id).(refCount := Get(m, id).refCount - 1);
      var c := Put(m, id, i).(newTable := m.newTable - {slot});
      if i.refCount == 0 then Delete(c, id) else c
  }

  /** The scan of all new buckets at the start of MakeTried. */
  function RemoveFromNew(m: Manager, id: int): Manager {
    Put(m, id, Get(m, id).(refCount := 0)).(
      newTable := map slot | slot in m.newTable && m.newTable[slot] != id :: m.newTable[slot])
  }

  function EvictTried(env: Env, m: Manager, slot: Slot): Manager
    requires EnvOk(env)
    requires slot in m.triedTable
  {
    var id := m.triedTable[slot];
    var e := Put(m, id, Get(m, id).(inTried := false)).(triedTable := m.triedTable - {slot}, nTried := m.nTried - 1);
    var u := NewSlot(env, m.key, Get(m, id).service, Get(m, id).source);
    var c := ClearNew(e, u);
    Put(c, id, Get(c, id).(refCount := 1)).(newTable := c.newTable[u := id], nNew := c.nNew + 1)
  }

  function MakeTried(env: Env, m: Manager, id: int): Manager
    requires EnvOk(env)
  {
    var r := RemoveFromNew(m, id);
    var r1 := r.(nNew := r.nNew - 1);
    var slot := TriedSlot(env, m.key, Get(m, id).service);
    var e := if slot in r1.triedTable then EvictTried(env, r1, slot) else r1;
    Put(e, id, Get(e, id).(inTried := true)).(triedTable := e.triedTable[slot := id], nTried := e.nTried + 1)
  }

  // ---------- operations ----------

  /** One more reference is taken with a chance of one in this many. */
  function StochasticFactor(refCount: int): (p: nat)
    ensures p >= 1
  {
    Bits.Pow2(Max(0, refCount))
  }

  /** The time and services of a known entry after another announcement. */
  function Refreshed(i: Info, a: Address, penalty: int, now: int): Info {
    var interval := if now - a.time < DAY then HOUR else DAY;
    var t := if a.time != 0 && (i.time == 0 || i.time < a.time - interval - penalty) then Max(0, a.time - penalty) else i.time;
    i.(time := t, services := i.services + a.services)
  }

  /** Whether a known entry is considered for one more new bucket. */
  predicate WantsAnotherSlot(i: Info, a: Address, rnd: nat) {
    && a.time != 0 && !(i.time != 0 && a.time <= i.time)
    && !i.inTried
    && i.refCount != NEW_BUCKETS_PER_ADDRESS
    && !(StochasticFactor(i.refCount) > 1 && rnd % StochasticFactor(i.refCount) != 0)
  }

  /** The second half of AddSingle: try to give entry `id` the slot its source selects. */
  function PlaceNew(env: Env, m: Manager, id: int, source: nat, now: int): (Manager, bool)
    requires EnvOk(env)
  {
    var slot := NewSlot(env, m.key, Get(m, id).service, source);
    if slot in m.newTable && m.newTable[slot] == id then (m, false)
    else
      var existing := if slot in m.newTable then Get(m, m.newTable[slot]) else NO_INFO;
      var insert := slot !in m.newTable || IsTerrible(existing, now) || (existing.refCount > 1 && Get(m, id).refCount == 0);
      if insert then
        var c := ClearNew(m, slot);
        (Put(c, id, Get(c, id).(refCount := Get(c, id).refCount + 1)).(newTable := c.newTable[slot := id]), true)
      else if Get(m, id).refCount == 0 then (Delete(m, id), false)
      else (m, false)
  }

  function AddSingle(env: Env, m: Manager, a: Address, source: nat, timePenalty: int, now: int, rnd: nat): (Manager, bool)
    requires EnvOk(env)
  {
    if !env.routable(a.service.ip) then (m, false)
    else
      var penalty := if a.service.ip == source then 0 else timePenalty;
      if Found(m, a.service) then
        var id := m.addr[a.service];
        var i := Refreshed(Get(m, id), a, penalty, now);
        if WantsAnotherSlot(i, a, rnd) then PlaceNew(env, Put(m, id, i), id, source, now) else (Put(m, id, i), false)
      else
        var c := Create(m, a, source);
        var id := m.idCount;
        PlaceNew(env, Put(c, id, Get(c, id).(time := Max(0, a.time - penalty))).(nNew := c.nNew + 1), id, source, now)
  }

  function Good(env: Env, m: Manager, s: Service, testBeforeEvict: bool, time: int): (Manager, bool)
    requires EnvOk(env)
  {
    var g := m.(lastGood := time);
    if !Found(m, s) then (g, false)
    else
      var id := m.addr[s];
      var i := Get(m, id).(lastSuccess := time, lastTry := time, attempts := 0);
      var u := Put(g, id, i);
      if i.inTried || i.refCount <= 0 then (u, false)
      else if testBeforeEvict && TriedSlot(env, m.key, i.service) in m.triedTable then
        (u.(collisions := if |m.collisions| < SET_TRIED_COLLISION_SIZE then m.collisions + {id} else m.collisions), false)
      else (MakeTried(env, u, id), true)
  }

  function Attempt(m: Manager, s: Service, countFailure: bool, time: int): Manager {
    if !Found(m, s) then m
    else
      var id := m.addr[s];
      var i := Get(m, id).(lastTry := time);
      Put(m, id, if countFailure && i.lastCountAttempt < m.lastGood
                 then i.(lastCountAttempt := time, attempts := i.attempts + 1) else i)
  }

  function Connected(m: Manager, s: Service, time: nat): Manager {
    if !Found(m, s) then m
    else
      var id := m.addr[s];
      Put(m, id, if time - Get(m, id).time > 20 * 60 then Get(m, id).(time := time) else Get(m, id))
  }

  function SetServices(m: Manager, s: Service, services: set<nat>): Manager {
    if !Found(m, s) then m else Put(m, m.addr[s], Get(m, m.addr[s]).(services := services))
  }

  datatype Decision = Keep | Erase | Replace

  /** The clock readings made for one queued id, named by what they are compared with. */
  datatype Readings = Readings(success: int, attempt: int, patience: int, window: int, good: int)

  /** What ResolveCollisions_ does about one queued id. */
  function Decide(env: Env, m: Manager, id: int, now: Readings): Decision
    requires EnvOk(env)
  {
    if id !in m.info then Erase
    else
      var i := m.info[id];
      var slot := TriedSlot(env, m.key, i.service);
      if !env.valid(i.service.ip) then Erase
      else if slot in m.triedTable then
        var held := Get(m, m.triedTable[slot]);
        if now.success - held.lastSuccess < REPLACEMENT_HOURS * HOUR then Erase
        else if now.attempt - held.lastTry < REPLACEMENT_HOURS * HOUR then
          if now.patience - held.lastTry > 60 then Replace else Keep
        else if now.window - i.lastSuccess > TEST_WINDOW then Replace
        else Keep
      else Replace
  }

  function ResolveOne(env: Env, m: Manager, id: int, now: Readings): Manager
    requires EnvOk(env)
  {
    match Decide(env, m, id, now)
    case Keep => m
    case Erase => m.(collisions := m.collisions - {id})
    case Replace =>
      var g := Good(env, m, Get(m, id).service, false, now.good).0;
      g.(collisions := g.collisions - {id})
  }

  /** The ids in the order the set is walked; the clock is read anew for each. */
  function ResolveAll(env: Env, m: Manager, order: seq<int>, clock: int -> Readings): Manager
    requires EnvOk(env)
    decreases |order|
  {
    if order == [] then m else ResolveAll(env, ResolveOne(env, m, order[0], clock(order[0])), order[1..], clock)
  }

  /** SelectTriedCollision_ on the id it picked: the manager, and the entry it returns (if any). */
  function SelectTriedCollision(env: Env, m: Manager, pick: int): (Manager, Info)
    requires EnvOk(env)
  {
    if m.collisions == {} then (m, NO_INFO)
    else if pick !in m.info then (m.(collisions := m.collisions - {pick}), NO_INFO)
    else
      var slot := TriedSlot(env, m.key, m.info[pick].service);
      (m, Get(m, if slot in m.triedTable then m.triedTable[slot] else -1))
  }

  /** How many addresses GetAddr_ returns at most. */
  function AddrLimit(size: nat, maxAddresses: nat, maxPct: nat): nat {
    var n := if maxPct != 0 then maxPct * size / 100 else size;
    if maxAddresses != 0 && maxAddresses < n then maxAddresses else n
  }

  /** The swap partner of position n: a random position from n on. */
  function Partner(n: nat, size: nat, pick: nat): (j: nat)
    requires n < size
    ensures n <= j < size
  {
    n + pick % (size - n)
  }

  /**
   * GetAddr_ from position n on.  `picks` are the random numbers drawn, `wanted` the network
   * filter, `got` what has been gathered.
   */
  function GetAddr(m: Manager, n: nat, limit: nat, picks: nat -> nat, wanted: nat -> bool, now: int, got: seq<Info>)
    : (r: (Manager, seq<Info>))
    decreases |m.random| - n
  {
    if n >= |m.random| || |got| >= limit then (m, got)
    else
      var s := SwapRandom(m, n, Partner(n, |m.random|, picks(n)));
      var i := Get(s, s.random[n]);
      GetAddr(s, n + 1, limit, picks, wanted, now, if wanted(i.service.ip) && !IsTerrible(i, now) then got + [i] else got)
  }

  function Empty(key: nat): Manager {
    Manager(key, 0, map[], map[], [], 0, map[], 0, map[], 1, {})
  }
}
