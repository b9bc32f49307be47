/**
 * The UTXO cache hierarchy of src/coins.{h,cpp} as values: a backing store under any number
 * of write-back caches.  `View` is the whole stack seen from its top; every operation of a
 * cache is a function on it.  CoinsViewCache.dfy proves the objects against these functions,
 * CoinsRuns.dfy proves what holds over whole runs.
 */
module Coins {
  import opened Common

  datatype OutPoint = OutPoint(hash: nat, n: nat)

  /** A transaction output with its origin; a null output (value -1) is a spent coin. */
  datatype Coin = Coin(value: int, script: seq<nat>, height: nat, coinbase: bool, coinstake: bool, time: nat) {
    predicate IsSpent() {
      value == -1
    }

    /** CScript::IsUnspendable of the output script. */
    predicate IsUnspendable() {
      (|script| > 0 && script[0] == OP_RETURN) || |script| > MAX_SCRIPT_SIZE
    }
  }

  const OP_RETURN := 0x6a
  const MAX_SCRIPT_SIZE := 10000

  /** What Coin::Clear leaves, and what AccessCoin returns when there is nothing. */
  const COIN_EMPTY := Coin(-1, [], 0, false, false, 0)

  /** One coin in one cache level, with its two flags. */
  datatype Entry = Entry(coin: Coin, isDirty: bool, isFresh: bool)

  type Hash = nat
  const NULL_HASH: Hash := 0

  datatype View =
    | Store(coins: map<OutPoint, Coin>, best: Hash)
    | Cache(entries: map<OutPoint, Entry>, best: Hash, base: View)

  // ---------- what a view shows ----------

  function Unspent(c: Coin): Option<Coin> {
    if c.IsSpent() then None else Some(c)
  }

  /** The unspent coin a reader of the view is entitled to see. */
  function Visible(v: View, o: OutPoint): Option<Coin> {
    match v
    case Store(coins, _) => if o in coins then Unspent(coins[o]) else None
    case Cache(entries, _, base) => if o in entries then Unspent(entries[o].coin) else Visible(base, o)
  }

  /** GetBestBlock: a null hash defers to the view below. */
  function BestBlock(v: View): Hash {
    match v
    case Store(_, best) => best
    case Cache(_, best, base) => if best == NULL_HASH then BestBlock(base) else best
  }

  // ---------- the flag discipline ----------

  /** The five legal combinations of spentness, FRESH and DIRTY. */
  predicate LegalState(e: Entry) {
    if e.coin.IsSpent() then e.isFresh != e.isDirty else e.isFresh ==> e.isDirty
  }

  /** FRESH: the level below shows nothing.  Not DIRTY: the level below shows the same. */
  predicate EntryOk(e: Entry, below: Option<Coin>) {
    && LegalState(e)
    && (e.isFresh ==> below == None)
    && (!e.isDirty ==> Unspent(e.coin) == below)
  }

  ghost predicate LevelOk(entries: map<OutPoint, Entry>, base: View) {
    forall o :: o in entries ==> EntryOk(entries[o], Visible(base, o))
  }

  ghost predicate Coherent(v: View) {
    match v
    case Store(_, _) => true
    case Cache(entries, _, base) => Coherent(base) && LevelOk(entries, base)
  }

  // ---------- the operations ----------

  /**
   * What GetCoin hands to the level above: a store may also answer with an empty (spent)
   * coin, a cache answers only with unspent ones.
   */
  function Answer(v: View, o: OutPoint): Option<Coin> {
    match v
    case Store(coins, _) => Lookup(coins, o)
    case Cache(_, _, _) => Visible(v, o)
  }

  /** FetchCoin: pull the outpoint into this cache, and into every cache asked on the way. */
  function Fetch(v: View, o: OutPoint): View {
    match v
    case Store(_, _) => v
    case Cache(entries, best, base) =>
      if o in entries then v
      else
        var base' := Fetch(base, o);
        match Answer(base, o)
        case None => Cache(entries, best, base')
        case Some(c) => Cache(entries[o := Entry(c, false, c.IsSpent())], best, base')
  }

  /** AddCoin stores nothing for an unspendable output, nor for a zero-value one on request. */
  predicate Skipped(c: Coin, skipZeroValue: bool) {
    c.IsUnspendable() || (c.value == 0 && skipZeroValue)
  }

  /** AddCoin throws when it would overwrite an unspent cached coin without permission. */
  predicate AddThrows(v: View, o: OutPoint, c: Coin, overwrite: bool, skipZeroValue: bool)
    requires v.Cache?
  {
    !Skipped(c, skipZeroValue) && !overwrite && o in v.entries && !v.entries[o].coin.IsSpent()
  }

  function AddCoin(v: View, o: OutPoint, c: Coin, overwrite: bool, skipZeroValue: bool): View
    requires v.Cache?
  {
    if Skipped(c, skipZeroValue) then v
    else
      var entry := if o in v.entries then v.entries[o] else Entry(COIN_EMPTY, false, false);
      var isFresh := !overwrite && !entry.isDirty;
      v.(entries := v.entries[o := Entry(c, true, entry.isFresh || isFresh)])
  }

  function SpendCoin(v: View, o: OutPoint): View
    requires v.Cache?
  {
    var f := Fetch(v, o);
    if o !in f.entries then f
    else if f.entries[o].isFresh then f.(entries := f.entries - {o})
    else f.(entries := f.entries[o := Entry(COIN_EMPTY, true, false)])
  }

  function Uncache(v: View, o: OutPoint): View
    requires v.Cache?
  {
    if o in v.entries && !v.entries[o].isDirty && !v.entries[o].isFresh then v.(entries := v.entries - {o}) else v
  }

  /** BatchWrite on one outpoint: the entry `us` already holds, the child's entry `e`. */
  function MergeEntry(us: Option<Entry>, e: Entry): Option<Entry> {
    if !e.isDirty then us
    else if us.None? then
      if e.isFresh && e.coin.IsSpent() then None else Some(Entry(e.coin, true, e.isFresh))
    else if us.value.isFresh && e.coin.IsSpent() then None
    else Some(Entry(e.coin, true, us.value.isFresh))
  }

  /** The case in which BatchWrite throws. */
  predicate Misapplied(us: Option<Entry>, e: Entry) {
    e.isDirty && e.isFresh && us.Some? && !us.value.coin.IsSpent()
  }

  predicate Merged(us: Option<Entry>, child: Option<Entry>, result: Option<Entry>) {
    result == if child.Some? then MergeEntry(us, child.value) else us
  }

  /** BatchWrite on a cache, one outpoint at a time; the order does not matter. */
  function MergeEntries(entries: map<OutPoint, Entry>, child: map<OutPoint, Entry>): (r: map<OutPoint, Entry>)
    ensures forall o :: Merged(Lookup(entries, o), Lookup(child, o), Lookup(r, o))
  {
    map o | o in entries.Keys + child.Keys
            && (o in child ==> MergeEntry(Lookup(entries, o), child[o]).Some?)
      :: if o in child then MergeEntry(Lookup(entries, o), child[o]).value else entries[o]
  }

  /** CCoinsViewDB::BatchWrite: dirty coins are written, dirty spent ones erased. */
  function MergeStore(coins: map<OutPoint, Coin>, child: map<OutPoint, Entry>): (r: map<OutPoint, Coin>)
    ensures forall o :: Lookup(r, o) == if o in child && child[o].isDirty then Unspent(child[o].coin) else Lookup(coins, o)
  {
    map o | o in coins.Keys + child.Keys
            && (if o in child && child[o].isDirty then !child[o].coin.IsSpent() else o in coins)
      :: if o in child && child[o].isDirty then child[o].coin else coins[o]
  }

  ghost predicate BatchThrows(v: View, child: map<OutPoint, Entry>) {
    v.Cache? && exists o :: o in child && Misapplied(Lookup(v.entries, o), child[o])
  }

  /** CCoinsViewDB::BatchWrite asserts that it is given a block: the store aborts on a null hash. */
  predicate BatchAborts(v: View, best: Hash) {
    v.Store? && best == NULL_HASH
  }

  function BatchWrite(v: View, child: map<OutPoint, Entry>, best: Hash): View
    requires !BatchAborts(v, best)
  {
    match v
    case Store(coins, _) => Store(MergeStore(coins, child), best)
    case Cache(entries, _, base) => Cache(MergeEntries(entries, child), best, base)
  }

  predicate FlushAborts(v: View)
    requires v.Cache?
  {
    BatchAborts(v.base, v.best)
  }

  function Flush(v: View): View
    requires v.Cache? && !FlushAborts(v)
  {
    Cache(map[], v.best, BatchWrite(v.base, v.entries, v.best))
  }

  /** GetBestBlock remembers what the view below answered, at every level it asked. */
  function FetchBest(v: View): View {
    match v
    case Store(_, _) => v
    case Cache(entries, best, base) =>
      if best == NULL_HASH then Cache(entries, BestBlock(base), FetchBest(base)) else v
  }

  // ---------- what each operation does to the visible coins and to coherence ----------

  lemma {:induction false} FetchKeeps(v: View, o: OutPoint)
    requires Coherent(v)
    ensures Coherent(Fetch(v, o))
    ensures forall p :: Visible(Fetch(v, o), p) == Visible(v, p)
    ensures v.Cache? ==> Fetch(v, o).Cache? && Fetch(v, o).best == v.best
    ensures v.Cache? && o !in Fetch(v, o).entries ==> Visible(v, o) == None
    ensures v.Cache? && o in Fetch(v, o).entries ==> Unspent(Fetch(v, o).entries[o].coin) == Visible(v, o)
  {
    match v
    case Store(_, _) =>
    case Cache(entries, best, base) => if o !in entries { FetchKeeps(base, o); }
  }

  /** The visible change AddCoin is meant to make. */
  lemma AddShows(v: View, o: OutPoint, c: Coin, overwrite: bool, skipZeroValue: bool)
    requires v.Cache? && !c.IsSpent()
    ensures forall p :: Visible(AddCoin(v, o, c, overwrite, skipZeroValue), p)
                        == if p == o && !Skipped(c, skipZeroValue) then Some(c) else Visible(v, p)
  {
  }

  /**
   * AddCoin keeps the flags truthful exactly when an unpermitted overwrite does not hide an
   * unspent coin of the level below: the code itself looks only at its own entry.
   */
  lemma AddCoherent(v: View, o: OutPoint, c: Coin, overwrite: bool, skipZeroValue: bool)
    requires v.Cache? && Coherent(v) && !c.IsSpent()
    requires !AddThrows(v, o, c, overwrite, skipZeroValue)
    ensures Coherent(AddCoin(v, o, c, overwrite, skipZeroValue))
            <==> (Skipped(c, skipZeroValue) || overwrite || (o in v.entries && v.entries[o].isDirty)
                  || Visible(v.base, o) == None)
  {
    var r := AddCoin(v, o, c, overwrite, skipZeroValue);
    if !Skipped(c, skipZeroValue) {
      assert r.base == v.base && r.entries[o].coin == c;
      assert forall p :: p in r.entries && p != o ==> r.entries[p] == v.entries[p] && EntryOk(v.entries[p], Visible(v.base, p));
      assert LevelOk(r.entries, r.base) <==> EntryOk(r.entries[o], Visible(r.base, o));
    }
  }

  /** A caller who only adds where nothing is visible never throws and keeps the flags truthful. */
  lemma AddWhereNothingShows(v: View, o: OutPoint, c: Coin, overwrite: bool, skipZeroValue: bool)
    requires v.Cache? && Coherent(v) && !c.IsSpent()
    requires overwrite || Visible(v, o) == None
    ensures !AddThrows(v, o, c, overwrite, skipZeroValue)
    ensures Coherent(AddCoin(v, o, c, overwrite, skipZeroValue))
  {
    AddCoherent(v, o, c, overwrite, skipZeroValue);
  }

  lemma SpendKeeps(v: View, o: OutPoint)
    requires v.Cache? && Coherent(v)
    ensures SpendCoin(v, o).Cache? && Coherent(SpendCoin(v, o))
    ensures forall p :: Visible(SpendCoin(v, o), p) == if p == o then None else Visible(v, p)
  {
    FetchKeeps(v, o);
    var f, r := Fetch(v, o), SpendCoin(v, o);
    assert r.base == f.base;
    assert forall p :: p in r.entries && p != o ==> p in f.entries && r.entries[p] == f.entries[p];
  }

  lemma UncacheKeeps(v: View, o: OutPoint)
    requires v.Cache? && Coherent(v)
    ensures Uncache(v, o).Cache? && Coherent(Uncache(v, o))
    ensures forall p :: Visible(Uncache(v, o), p) == Visible(v, p)
  {
    var r := Uncache(v, o);
    assert r.base == v.base;
    assert forall p :: p in r.entries ==> r.entries[p] == v.entries[p];
  }

  /**
   * One outpoint through a flush.  `e` is the child's entry over a parent entry `us` (if any)
   * over `below`: nothing is misapplied, the parent's result is truthful about `below`, and a
   * reader of the parent now sees what a reader of the child saw.
   */
  lemma MergeEntryKeeps(us: Option<Entry>, e: Entry, below: Option<Coin>)
    requires us.Some? ==> EntryOk(us.value, below)
    requires EntryOk(e, if us.Some? then Unspent(us.value.coin) else below)
    ensures !Misapplied(us, e)
    ensures MergeEntry(us, e).Some? ==> EntryOk(MergeEntry(us, e).value, below)
    ensures (if MergeEntry(us, e).Some? then Unspent(MergeEntry(us, e).value.coin) else below) == Unspent(e.coin)
  {
  }

  // What each operation leaves in its own level: no entry is written back that need not be.

  /** A fetched entry is clean, and FRESH exactly when it is spent. */
  lemma FetchLeaves(v: View, o: OutPoint)
    requires v.Cache?
    ensures var f := Fetch(v, o);
            && (forall p :: p != o ==> Lookup(f.entries, p) == Lookup(v.entries, p))
            && (o in v.entries ==> f == v)
            && (o !in v.entries && o in f.entries ==> !f.entries[o].isDirty && (f.entries[o].isFresh <==> f.entries[o].coin.IsSpent()))
  {
  }

  /** A FRESH entry is spent without a trace, any other leaves a spent one to write back. */
  lemma SpendLeaves(v: View, o: OutPoint)
    requires v.Cache?
    ensures var f, r := Fetch(v, o), SpendCoin(v, o);
            && r.Cache? && (forall p :: p != o ==> Lookup(r.entries, p) == Lookup(v.entries, p))
            && (o in r.entries <==> o in f.entries && !f.entries[o].isFresh)
            && (o in r.entries ==> r.entries[o].coin.IsSpent() && r.entries[o].isDirty && !r.entries[o].isFresh)
  {
    FetchLeaves(v, o);
  }

  /** Uncaching drops an entry exactly when it need not be written back. */
  lemma UncacheLeaves(v: View, o: OutPoint)
    requires v.Cache?
    ensures var r := Uncache(v, o);
            && r.Cache? && r.base == v.base && (forall p :: p != o ==> Lookup(r.entries, p) == Lookup(v.entries, p))
            && (o in r.entries <==> o in v.entries && (v.entries[o].isDirty || v.entries[o].isFresh))
  {
  }

  /** A dirty entry passed down stays, DIRTY, unless it is spent and the level below knows nothing of it; FRESH stays with it. */
  lemma MergeLeaves(us: Option<Entry>, e: Entry)
    requires e.isDirty
    ensures var unknown := if us.Some? then us.value.isFresh else e.isFresh;
            match MergeEntry(us, e)
            case None => unknown && e.coin.IsSpent()
            case Some(r) => r.coin == e.coin && r.isDirty && r.isFresh == unknown && !(unknown && e.coin.IsSpent())
  {
  }

  lemma BatchWriteKeeps(v: View, child: map<OutPoint, Entry>, best: Hash)
    requires Coherent(v) && LevelOk(child, v) && !BatchAborts(v, best)
    ensures !BatchThrows(v, child)
    ensures Coherent(BatchWrite(v, child, best))
    ensures forall p :: Visible(BatchWrite(v, child, best), p)
                        == if p in child then Unspent(child[p].coin) else Visible(v, p)
  {
    var r := BatchWrite(v, child, best);
    match v
    case Store(coins, _) =>
      forall p ensures Visible(r, p) == if p in child then Unspent(child[p].coin) else Visible(v, p) {
        assert Lookup(r.coins, p) == if p in child && child[p].isDirty then Unspent(child[p].coin) else Lookup(coins, p);
      }
    case Cache(entries, _, base) =>
      forall p
        ensures p in child ==> !Misapplied(Lookup(entries, p), child[p])
        ensures p in r.entries ==> EntryOk(r.entries[p], Visible(base, p))
        ensures Visible(r, p) == if p in child then Unspent(child[p].coin) else Visible(v, p)
      {
        assert Merged(Lookup(entries, p), Lookup(child, p), Lookup(r.entries, p));
        if p in child {
          assert EntryOk(child[p], Visible(v, p));
          MergeEntryKeeps(Lookup(entries, p), child[p], Visible(base, p));
        }
      }
  }

  /**
   * Flushing a coherent cache never hits the "FRESH flag misapplied" exception, keeps every
   * flag truthful, shows the same coins through the cache, and makes the level below show
   * exactly what the cache showed.
   */
  lemma FlushKeeps(v: View)
    requires v.Cache? && Coherent(v) && !FlushAborts(v)
    ensures !BatchThrows(v.base, v.entries)
    ensures Coherent(Flush(v)) && Flush(v).entries == map[] && Flush(v).best == v.best
    ensures forall p :: Visible(Flush(v), p) == Visible(v, p)
    ensures forall p :: Visible(Flush(v).base, p) == Visible(v, p)
  {
    BatchWriteKeeps(v.base, v.entries, v.best);
  }

  // ---------- the best block ----------

  /** How many levels lie under a view, and the hash that one of them holds itself. */
  function Depth(v: View): nat {
    if v.Store? then 0 else 1 + Depth(v.base)
  }

  function OwnHash(v: View, k: nat): Hash
    requires k <= Depth(v)
  {
    if k == 0 then v.best else OwnHash(v.base, k - 1)
  }

  /** The first level from the top with a hash of its own has this one. */
  ghost predicate NearestHash(v: View, h: Hash) {
    exists k :: 0 <= k <= Depth(v) && OwnHash(v, k) == h && forall j :: 0 <= j < k ==> OwnHash(v, j) == NULL_HASH
  }

  /** GetBestBlock answers with the nearest hash. */
  lemma {:induction false} BestBlockIsNearest(v: View, h: Hash)
    requires h != NULL_HASH
    ensures BestBlock(v) == h <==> NearestHash(v, h)
  {
    assert OwnHash(v, 0) == v.best;
    if v.Cache? && v.best == NULL_HASH {
      BestBlockIsNearest(v.base, h);
      if NearestHash(v.base, h) {
        var k :| 0 <= k <= Depth(v.base) && OwnHash(v.base, k) == h && forall j :: 0 <= j < k ==> OwnHash(v.base, j) == NULL_HASH;
        assert OwnHash(v, k + 1) == h;
        assert forall j :: 0 < j < k + 1 ==> OwnHash(v, j) == OwnHash(v.base, j - 1);
      }
      if NearestHash(v, h) {
        var k :| 0 <= k <= Depth(v) && OwnHash(v, k) == h && forall j :: 0 <= j < k ==> OwnHash(v, j) == NULL_HASH;
        assert OwnHash(v.base, k - 1) == h;
        assert forall j :: 0 <= j < k - 1 ==> OwnHash(v.base, j) == OwnHash(v, j + 1);
      }
    }
  }

  /**
   * Flush hands its own hash down even when it is null.  So the best block survives a flush
   * exactly when the cache has a hash of its own, or the parent has none, or the next level
   * below the parent that has one has the same.
   */
  lemma FlushBestBlock(v: View)
    requires v.Cache? && !FlushAborts(v)
    ensures BestBlock(Flush(v)) == BestBlock(v)
            <==> (v.best != NULL_HASH || v.base.best == NULL_HASH || NearestHash(v.base.base, v.base.best))
  {
    if v.best == NULL_HASH && v.base.best != NULL_HASH { BestBlockIsNearest(v.base.base, v.base.best); }
  }

  /** A cache that never asked for the best block makes its parent forget it. */
  lemma BestBlockLost()
    ensures exists v: View :: v.Cache? && Coherent(v) && !FlushAborts(v) && BestBlock(Flush(v)) != BestBlock(v)
  {
    var v := Cache(map[], NULL_HASH, Cache(map[], 7, Store(map[], 3)));
    assert Flush(v).base.base == Store(map[], 3);
    assert BestBlock(v) == 7 && BestBlock(Flush(v)) == 3;
  }

  /** Asking for the best block first makes a flush safe, as long as some level knows one. */
  lemma FlushAfterBestBlock(v: View)
    requires v.Cache? && Coherent(v) && BestBlock(v) != NULL_HASH
    ensures FetchBest(v).Cache? && !FlushAborts(FetchBest(v)) && BestBlock(Flush(FetchBest(v))) == BestBlock(v)
  {
    FetchBestKeeps(v);
  }

  lemma {:induction false} FetchBestKeeps(v: View)
    requires Coherent(v)
    ensures Coherent(FetchBest(v))
    ensures BestBlock(FetchBest(v)) == BestBlock(v)
    ensures v.Cache? ==> FetchBest(v).Cache? && FetchBest(v).best == BestBlock(v)
    ensures forall p :: Visible(FetchBest(v), p) == Visible(v, p)
  {
    match v
    case Store(_, _) =>
    case Cache(entries, best, base) => if best == NULL_HASH { FetchBestKeeps(base); }
  }
}
