/**
 * Whole runs of a stack of coin caches: reads, AddCoin, SpendCoin, Uncache, Flush, best-block
 * updates, new levels and removed levels.  A run behaves like one plain map of unspent coins.
 */
module CoinsRuns {
  import opened Common
  import opened Coins

  // ---------- levels of a stack (0 is the top) ----------

  predicate HasCache(v: View, k: nat) {
    v.Cache? && (k == 0 || HasCache(v.base, k - 1))
  }

  function Level(v: View, k: nat): (w: View)
    requires HasCache(v, k)
    ensures w.Cache?
  {
    if k == 0 then v else Level(v.base, k - 1)
  }

  function Replace(v: View, k: nat, w: View): (r: View)
    requires HasCache(v, k)
    ensures k > 0 ==> r.Cache? && r.entries == v.entries && r.best == v.best && HasCache(v.base, k - 1)
                      && r.base == Replace(v.base, k - 1, w)
  {
    if k == 0 then w else v.(base := Replace(v.base, k - 1, w))
  }

  predicate CachedAbove(v: View, k: nat, o: OutPoint)
    requires HasCache(v, k)
  {
    k > 0 && (o in v.entries || CachedAbove(v.base, k - 1, o))
  }

  ghost predicate SameCoins(v: View, w: View) {
    forall p :: Visible(v, p) == Visible(w, p)
  }

  lemma {:induction false} LevelCoherent(v: View, k: nat)
    requires HasCache(v, k) && Coherent(v)
    ensures Coherent(Level(v, k))
  {
    if k > 0 { LevelCoherent(v.base, k - 1); }
  }

  /** A level may be exchanged for any coherent one that shows the same: nobody above notices. */
  lemma {:induction false} ReplaceUnseen(v: View, k: nat, w: View)
    requires HasCache(v, k) && Coherent(v) && Coherent(w) && SameCoins(Level(v, k), w)
    ensures Coherent(Replace(v, k, w)) && SameCoins(v, Replace(v, k, w))
  {
    if k > 0 {
      ReplaceUnseen(v.base, k - 1, w);
      assert LevelOk(v.entries, Replace(v.base, k - 1, w));
    }
  }

  /**
   * A flush at any depth: no exception, all flags stay truthful, that level and every level
   * above it (up to `j`) show the same coins as before.
   */
  lemma {:induction false} FlushAnywhere(v: View, k: nat, j: nat)
    requires HasCache(v, k) && Coherent(v) && j <= k && !FlushAborts(Level(v, k))
    ensures !BatchThrows(Level(v, k).base, Level(v, k).entries)
    ensures Coherent(Replace(v, k, Flush(Level(v, k))))
    ensures HasCache(Replace(v, k, Flush(Level(v, k))), j)
    ensures HasCache(v, j) && SameCoins(Level(v, j), Level(Replace(v, k, Flush(Level(v, k))), j))
    decreases k
  {
    LevelCoherent(v, k);
    FlushKeeps(Level(v, k));
    ReplaceUnseen(v, k, Flush(Level(v, k)));
    if j > 0 { FlushAnywhere(v.base, k - 1, j - 1); }
  }

  /** A flush aborts exactly at the cache right over the store, while that cache has no hash of its own. */
  lemma {:induction false} FlushAbortsAt(v: View, k: nat)
    requires HasCache(v, k)
    ensures k < Depth(v)
    ensures FlushAborts(Level(v, k)) <==> k == Depth(v) - 1 && OwnHash(v, k) == NULL_HASH
  {
    if k > 0 { FlushAbortsAt(v.base, k - 1); }
  }

  lemma {:induction false} LevelVisible(v: View, k: nat, o: OutPoint)
    requires HasCache(v, k) && !CachedAbove(v, k, o)
    ensures Visible(Level(v, k), o) == Visible(v, o)
  {
    if k > 0 { LevelVisible(v.base, k - 1, o); }
  }

  /** The entry for an outpoint in the lowest level above level k that has one. */
  function NearestAbove(v: View, k: nat, o: OutPoint): Entry
    requires HasCache(v, k) && CachedAbove(v, k, o)
  {
    if CachedAbove(v.base, k - 1, o) then NearestAbove(v.base, k - 1, o) else v.entries[o]
  }

  /**
   * Changing a level below the top on one outpoint is seen from the top exactly when no level
   * in between has that outpoint cached.  The caches above stay truthful exactly when there is
   * no such entry or the nearest one is legal over the new coin.
   */
  lemma {:induction false} ChangeBelow(v: View, k: nat, w: View, o: OutPoint)
    requires HasCache(v, k) && Coherent(v) && Coherent(w)
    requires forall p :: p != o ==> Visible(w, p) == Visible(Level(v, k), p)
    ensures Visible(Replace(v, k, w), o) == if CachedAbove(v, k, o) then Visible(v, o) else Visible(w, o)
    ensures forall p :: p != o ==> Visible(Replace(v, k, w), p) == Visible(v, p)
    ensures Coherent(Replace(v, k, w)) <==> (CachedAbove(v, k, o) ==> EntryOk(NearestAbove(v, k, o), Visible(w, o)))
  {
    if k > 0 {
      ChangeBelow(v.base, k - 1, w, o);
      var below := Replace(v.base, k - 1, w);
      assert forall p :: p != o ==> Visible(below, p) == Visible(v.base, p);
      assert LevelOk(v.entries, below) <==> (o in v.entries ==> EntryOk(v.entries[o], Visible(below, o)));
    }
  }

  /** A coin spent below a level that caches it stays visible from the top, and the cache's flags lie. */
  lemma SpendBelowUnseen()
    ensures exists v: View, o: OutPoint ::
              && HasCache(v, 1) && Coherent(v) && CachedAbove(v, 1, o)
              && Visible(Replace(v, 1, SpendCoin(Level(v, 1), o)), o) != None
              && !Coherent(Replace(v, 1, SpendCoin(Level(v, 1), o)))
  {
    var o, c := OutPoint(1, 0), Coin(5, [], 1, false, false, 0);
    var store := Store(map[o := c], 1);
    assert Visible(store, o) == Some(c);
    var v := Cache(map[o := Entry(c, false, false)], NULL_HASH, Cache(map[o := Entry(c, false, false)], NULL_HASH, store));
    assert Coherent(v.base) && Coherent(v);
    assert Level(v, 1) == v.base && CachedAbove(v, 1, o);
    SpendKeeps(v.base, o);
    ChangeBelow(v, 1, SpendCoin(v.base, o), o);
    assert NearestAbove(v, 1, o) == Entry(c, false, false);
  }

  /** SetBestBlock. */
  function WithBest(v: View, hash: Hash): View
    requires v.Cache?
  {
    Cache(v.entries, hash, v.base)
  }

  // ---------- runs ----------

  datatype Op =
    | Read(depth: nat, o: OutPoint)                                          // GetCoin, HaveCoin, AccessCoin
    | Add(depth: nat, o: OutPoint, coin: Coin, overwrite: bool, skipZeroValue: bool)
    | Spend(depth: nat, o: OutPoint)
    | Drop(depth: nat, o: OutPoint)                                          // Uncache
    | FlushAt(depth: nat)
    | SetBest(depth: nat, hash: Hash)
    | GetBest(depth: nat)
    | Push                                                                   // a new cache over the top
    | Pop                                                                    // flush the top and discard it

  /**
   * What callers promise: existing levels, unspent coins, overwrites announced, no coin changed
   * under a level that caches it, and no flush into the store without a block.
   */
  predicate Permitted(v: View, m: map<OutPoint, Coin>, op: Op) {
    match op
    case Read(depth, _) => HasCache(v, depth)
    case Add(depth, o, coin, overwrite, _) => HasCache(v, depth) && !CachedAbove(v, depth, o) && !coin.IsSpent() && (overwrite || o !in m)
    case Spend(depth, o) => HasCache(v, depth) && !CachedAbove(v, depth, o)
    case Drop(depth, _) => HasCache(v, depth)
    case FlushAt(depth) => HasCache(v, depth) && !FlushAborts(Level(v, depth))
    case SetBest(depth, _) => HasCache(v, depth)
    case GetBest(depth) => HasCache(v, depth)
    case Push => true
    case Pop => v.Cache? && !FlushAborts(v)
  }

  function Step(v: View, m: map<OutPoint, Coin>, op: Op): View
    requires Permitted(v, m, op)
  {
    match op
    case Read(depth, o) => Replace(v, depth, Fetch(Level(v, depth), o))
    case Add(depth, o, coin, overwrite, skipZeroValue) => Replace(v, depth, AddCoin(Level(v, depth), o, coin, overwrite, skipZeroValue))
    case Spend(depth, o) => Replace(v, depth, SpendCoin(Level(v, depth), o))
    case Drop(depth, o) => Replace(v, depth, Uncache(Level(v, depth), o))
    case FlushAt(depth) => Replace(v, depth, Flush(Level(v, depth)))
    case SetBest(depth, hash) => Replace(v, depth, WithBest(Level(v, depth), hash))
    case GetBest(depth) => Replace(v, depth, FetchBest(Level(v, depth)))
    case Push => Cache(map[], NULL_HASH, v)
    case Pop => Flush(v).base
  }

  ghost predicate Throws(v: View, op: Op) {
    match op
    case Add(depth, o, coin, overwrite, skipZeroValue) => HasCache(v, depth) && AddThrows(Level(v, depth), o, coin, overwrite, skipZeroValue)
    case FlushAt(depth) => HasCache(v, depth) && BatchThrows(Level(v, depth).base, Level(v, depth).entries)
    case Pop => v.Cache? && BatchThrows(v.base, v.entries)
    case _ => false
  }

  /** The same operation on a plain map of unspent coins. */
  function PlainStep(m: map<OutPoint, Coin>, op: Op): map<OutPoint, Coin> {
    match op
    case Add(_, o, coin, _, skipZeroValue) => if Skipped(coin, skipZeroValue) then m else m[o := coin]
    case Spend(_, o) => m - {o}
    case _ => m
  }

  ghost predicate Shows(v: View, m: map<OutPoint, Coin>) {
    forall o :: Visible(v, o) == Lookup(m, o)
  }

  lemma AddRefines(v: View, m: map<OutPoint, Coin>, k: nat, o: OutPoint, coin: Coin, overwrite: bool, skipZeroValue: bool)
    requires Coherent(v) && Shows(v, m) && HasCache(v, k) && !CachedAbove(v, k, o) && !coin.IsSpent() && (overwrite || o !in m)
    ensures !AddThrows(Level(v, k), o, coin, overwrite, skipZeroValue)
    ensures var r := Replace(v, k, AddCoin(Level(v, k), o, coin, overwrite, skipZeroValue));
            Coherent(r) && Shows(r, if Skipped(coin, skipZeroValue) then m else m[o := coin])
  {
    var level := Level(v, k);
    LevelCoherent(v, k);
    LevelVisible(v, k, o);
    assert Visible(v, o) == Lookup(m, o);
    AddWhereNothingShows(level, o, coin, overwrite, skipZeroValue);
    AddShows(level, o, coin, overwrite, skipZeroValue);
    ChangeBelow(v, k, AddCoin(level, o, coin, overwrite, skipZeroValue), o);
  }

  lemma SpendRefines(v: View, m: map<OutPoint, Coin>, k: nat, o: OutPoint)
    requires Coherent(v) && Shows(v, m) && HasCache(v, k) && !CachedAbove(v, k, o)
    ensures var r := Replace(v, k, SpendCoin(Level(v, k), o));
            Coherent(r) && Shows(r, m - {o})
  {
    LevelCoherent(v, k);
    SpendKeeps(Level(v, k), o);
    ChangeBelow(v, k, SpendCoin(Level(v, k), o), o);
  }

  lemma StepRefines(v: View, m: map<OutPoint, Coin>, op: Op)
    requires Coherent(v) && Shows(v, m) && Permitted(v, m, op)
    ensures !Throws(v, op)
    ensures Coherent(Step(v, m, op)) && Shows(Step(v, m, op), PlainStep(m, op))
  {
    match op
    case Read(depth, o) =>
      LevelCoherent(v, depth);
      FetchKeeps(Level(v, depth), o);
      ReplaceUnseen(v, depth, Fetch(Level(v, depth), o));
    case Add(depth, o, coin, overwrite, skipZeroValue) => AddRefines(v, m, depth, o, coin, overwrite, skipZeroValue);
    case Spend(depth, o) => SpendRefines(v, m, depth, o);
    case Drop(depth, o) =>
      LevelCoherent(v, depth);
      UncacheKeeps(Level(v, depth), o);
      ReplaceUnseen(v, depth, Uncache(Level(v, depth), o));
    case FlushAt(depth) => FlushAnywhere(v, depth, 0);
    case SetBest(depth, hash) =>
      LevelCoherent(v, depth);
      ReplaceUnseen(v, depth, WithBest(Level(v, depth), hash));
    case GetBest(depth) =>
      LevelCoherent(v, depth);
      FetchBestKeeps(Level(v, depth));
      ReplaceUnseen(v, depth, FetchBest(Level(v, depth)));
    case Push =>
    case Pop => FlushKeeps(v);
  }

  /** Every operation of the run is one its caller may make at that point. */
  predicate PermittedRun(v: View, m: map<OutPoint, Coin>, ops: seq<Op>)
    decreases |ops|
  {
    ops == [] || (Permitted(v, m, ops[0]) && PermittedRun(Step(v, m, ops[0]), PlainStep(m, ops[0]), ops[1..]))
  }

  /** At every point of the run: no exception, truthful flags, and the plain map's coins. */
  ghost predicate BehavesLikeMap(v: View, m: map<OutPoint, Coin>, ops: seq<Op>)
    requires PermittedRun(v, m, ops)
    decreases |ops|
  {
    && Coherent(v) && Shows(v, m)
    && (ops != [] ==> !Throws(v, ops[0]) && BehavesLikeMap(Step(v, m, ops[0]), PlainStep(m, ops[0]), ops[1..]))
  }

  lemma {:induction false} RunRefinesMap(v: View, m: map<OutPoint, Coin>, ops: seq<Op>)
    requires Coherent(v) && Shows(v, m) && PermittedRun(v, m, ops)
    ensures BehavesLikeMap(v, m, ops)
    decreases |ops|
  {
    hide Coherent, Shows;
    if ops != [] {
      StepRefines(v, m, ops[0]);
      RunRefinesMap(Step(v, m, ops[0]), PlainStep(m, ops[0]), ops[1..]);
    }
  }

  /** A store alone is coherent with the map of its unspent coins, so runs may start there. */
  lemma FreshStack(coins: map<OutPoint, Coin>, best: Hash)
    ensures Coherent(Store(coins, best))
    ensures Shows(Store(coins, best), map o | o in coins && !coins[o].IsSpent() :: coins[o])
  {
  }

  // ---------- the promise callers must keep ----------

  /**
   * Adding a coin and then spending it makes it disappear exactly when the unpermitted
   * overwrite did not hide an unspent coin of the level below; otherwise FRESH makes SpendCoin
   * erase the entry and the hidden coin comes back.
   */
  lemma AddThenSpend(v: View, o: OutPoint, c: Coin, overwrite: bool)
    requires v.Cache? && Coherent(v) && !c.IsSpent() && !c.IsUnspendable()
    requires !AddThrows(v, o, c, overwrite, false)
    ensures Visible(SpendCoin(AddCoin(v, o, c, overwrite, false), o), o) == None
            <==> (overwrite || (o in v.entries && v.entries[o].isDirty) || Visible(v.base, o) == None)
  {
    var a := AddCoin(v, o, c, overwrite, false);
    assert o in a.entries && Fetch(a, o) == a;
    if o in v.entries { assert EntryOk(v.entries[o], Visible(v.base, o)); }
  }

  lemma SpentCoinReturns()
    ensures exists v: View, o: OutPoint, c: Coin ::
              && v.Cache? && Coherent(v) && !c.IsSpent() && !AddThrows(v, o, c, false, false)
              && Visible(SpendCoin(AddCoin(v, o, c, false, false), o), o) != None
  {
    var o, c := OutPoint(1, 0), Coin(5, [], 1, false, false, 0);
    var v := Cache(map[], NULL_HASH, Store(map[o := c], 1));
    assert v.base.coins[o] == c && Visible(v.base, o) == Unspent(c);
    AddThenSpend(v, o, c, false);
  }
}
