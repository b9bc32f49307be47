/**
 * The objects of src/coins.cpp: a chain of views, each caching over its base, the last one a
 * store.  Reads fill the caches they pass through, so even they change the objects.  Every
 * method is proved against the function of the same name on the `View` value of the chain.
 */
module CoinsViewCache {
  import opened Common
  import opened Coins

  /** How a write ends: normally, with the exception, or with the store's failed assertion. */
  datatype Outcome = Done | Threw | Aborted

  /** Entries of the child either wait untouched in `rest` or are merged; one that waits is misapplied. */
  ghost predicate PartlyMerged(was: map<OutPoint, Entry>, now: map<OutPoint, Entry>, child: map<OutPoint, Entry>, rest: map<OutPoint, Entry>) {
    && (forall o :: o in rest ==> o in child && rest[o] == child[o])
    && (exists o :: o in rest && Misapplied(Lookup(was, o), rest[o]))
    && forall o :: Lookup(now, o) == if o in child && o !in rest then MergeEntry(Lookup(was, o), child[o]) else Lookup(was, o)
  }

  class CoinsView {
    /** The view below; null for the backing store. */
    const base: CoinsView?
    /** The store's coins; unused by a cache. */
    var coins: map<OutPoint, Coin>
    var cacheCoins: map<OutPoint, Entry>
    var hashBlock: Hash
    ghost const Repr: set<CoinsView>

    ghost predicate Valid()
      decreases Repr
    {
      && this in Repr
      && (base != null ==> base.Repr < Repr && this !in base.Repr && base.Valid())
    }

    ghost function Model(): View
      requires Valid()
      reads Repr
      decreases Repr
    {
      if base == null then Store(coins, hashBlock) else Cache(cacheCoins, hashBlock, base.Model())
    }

    constructor OverStore(coins: map<OutPoint, Coin>, best: Hash)
      ensures Valid() && fresh(Repr) && Model() == Store(coins, best)
    {
      base, this.coins, cacheCoins, hashBlock := null, coins, map[], best;
      Repr := {this};
    }

    constructor (view: CoinsView)
      requires view.Valid()
      ensures Valid() && fresh(Repr - view.Repr) && base == view
      ensures Model() == Cache(map[], NULL_HASH, view.Model())
    {
      base, coins, cacheCoins, hashBlock := view, map[], map[], NULL_HASH;
      Repr := {this} + view.Repr;
    }

    /** True with the entry in place, or false when no level has one. */
    method FetchCoin(o: OutPoint) returns (found: bool)
      requires Valid() && base != null
      modifies Repr
      ensures Model() == Fetch(old(Model()), o)
      ensures found <==> o in cacheCoins
      decreases Repr, 0
    {
      if o in cacheCoins {
        return true;
      }
      var have, tmp := base.GetCoin(o);
      if !have {
        return false;
      }
      cacheCoins := cacheCoins[o := Entry(tmp, false, tmp.IsSpent())];
      return true;
    }

    method GetCoin(o: OutPoint) returns (have: bool, coin: Coin)
      requires Valid()
      modifies Repr
      ensures Model() == Fetch(old(Model()), o)
      ensures (if have then Some(coin) else None) == old(Answer(Model(), o))
      decreases Repr, 1
    {
      coin := COIN_EMPTY;
      if base == null {
        if o in coins {
          coin := coins[o];
        }
        return o in coins, coin;
      }
      ghost var before := Model();
      have := FetchCoin(o);
      FetchShows(before, o);
      if have {
        coin := cacheCoins[o].coin;
        have := !coin.IsSpent();
      }
    }

    method HaveCoin(o: OutPoint) returns (have: bool)
      requires Valid() && base != null
      modifies Repr
      ensures Model() == Fetch(old(Model()), o)
      ensures have <==> old(Visible(Model(), o)).Some?
    {
      ghost var before := Model();
      have := FetchCoin(o);
      FetchShows(before, o);
      have := have && !cacheCoins[o].coin.IsSpent();
    }

    method AccessCoin(o: OutPoint) returns (coin: Coin)
      requires Valid() && base != null
      modifies Repr
      ensures Model() == Fetch(old(Model()), o)
      ensures Unspent(coin) == old(Visible(Model(), o))
    {
      ghost var before := Model();
      var found := FetchCoin(o);
      FetchShows(before, o);
      coin := if found then cacheCoins[o].coin else COIN_EMPTY;
    }

    /** Asks no level below: sees only what this cache itself holds unspent. */
    method HaveCoinInCache(o: OutPoint) returns (have: bool)
      requires Valid() && base != null
      ensures have <==> o in cacheCoins && Visible(Model(), o).Some?
    {
      have := o in cacheCoins && !cacheCoins[o].coin.IsSpent();
    }

    method AddCoin(o: OutPoint, coin: Coin, overwrite: bool, skipZeroValue: bool) returns (threw: bool)
      requires Valid() && base != null
      requires !coin.IsSpent()
      modifies this
      ensures threw <==> old(AddThrows(Model(), o, coin, overwrite, skipZeroValue))
      ensures Model() == if threw then old(Model()) else old(Coins.AddCoin(Model(), o, coin, overwrite, skipZeroValue))
    {
      if coin.IsUnspendable() || (coin.value == 0 && skipZeroValue) {
        return false;
      }
      var entry := if o in cacheCoins then cacheCoins[o] else Entry(COIN_EMPTY, false, false);
      var isFresh := false;
      if !overwrite {
        if !entry.coin.IsSpent() {
          return true;
        }
        isFresh := !entry.isDirty;
      }
      cacheCoins := cacheCoins[o := Entry(coin, true, entry.isFresh || isFresh)];
      return false;
    }

    /**
     * False exactly when no level has an entry; a spent entry of this cache itself is "spent"
     * again with answer true, although nothing was visible.
     */
    method SpendCoin(o: OutPoint) returns (spent: bool, moveout: Coin)
      requires Valid() && base != null
      modifies Repr
      ensures Model() == Coins.SpendCoin(old(Model()), o)
      ensures spent <==> old(o in cacheCoins || Answer(base.Model(), o).Some?)
      ensures spent ==> Unspent(moveout) == old(Visible(Model(), o))
      ensures !spent ==> old(Visible(Model(), o)) == None
    {
      ghost var before := Model();
      spent := FetchCoin(o);
      FetchShows(before, o);
      moveout := COIN_EMPTY;
      if !spent {
        return;
      }
      moveout := cacheCoins[o].coin;
      if cacheCoins[o].isFresh {
        cacheCoins := cacheCoins - {o};
      } else {
        cacheCoins := cacheCoins[o := Entry(COIN_EMPTY, true, cacheCoins[o].isFresh)];
      }
    }

    /** One iteration of the flush loop: the child's entry for one outpoint. */
    method MergeOne(o: OutPoint, e: Entry) returns (threw: bool)
      modifies `cacheCoins
      ensures threw <==> Misapplied(Lookup(old(cacheCoins), o), e)
      ensures Lookup(cacheCoins, o) == if threw then Lookup(old(cacheCoins), o) else MergeEntry(Lookup(old(cacheCoins), o), e)
      ensures forall p :: p != o ==> Lookup(cacheCoins, p) == Lookup(old(cacheCoins), p)
    {
      if !e.isDirty {
        return false;
      }
      if o !in cacheCoins {
        if !(e.isFresh && e.coin.IsSpent()) {
          cacheCoins := cacheCoins[o := Entry(e.coin, true, e.isFresh)];
        }
        return false;
      }
      var us := cacheCoins[o];
      if e.isFresh && !us.coin.IsSpent() {
        return true;
      }
      if us.isFresh && e.coin.IsSpent() {
        cacheCoins := cacheCoins - {o};
      } else {
        cacheCoins := cacheCoins[o := Entry(e.coin, true, us.isFresh)];
      }
      return false;
    }

    /**
     * The erasing loop of a flush into a cache; the child's entries are met in any order. What
     * the exception finds unmerged is still the child's.
     */
    method WriteToCache(child: map<OutPoint, Entry>) returns (threw: bool, rest: map<OutPoint, Entry>)
      modifies `cacheCoins
      ensures threw <==> exists o :: o in child && Misapplied(Lookup(old(cacheCoins), o), child[o])
      ensures !threw ==> cacheCoins == MergeEntries(old(cacheCoins), child) && rest == map[]
      ensures threw ==> PartlyMerged(old(cacheCoins), cacheCoins, child, rest)
    {
      ghost var was := cacheCoins;
      rest := child;
      while rest != map[]
        invariant forall o :: o in rest ==> o in child && rest[o] == child[o]
        invariant forall o :: o in child && o !in rest ==> !Misapplied(Lookup(was, o), child[o])
        invariant forall o :: Lookup(cacheCoins, o)
                              == if o in child && o !in rest then MergeEntry(Lookup(was, o), child[o]) else Lookup(was, o)
        decreases |rest|
      {
        assert (forall o :: o !in rest) ==> rest == map[];
        var o :| o in rest;
        threw := MergeOne(o, rest[o]);
        if threw {
          return;
        }
        rest := Erase(rest, o);
      }
      SameLookups(cacheCoins, MergeEntries(was, child)) by {
        forall o ensures Lookup(cacheCoins, o) == Lookup(MergeEntries(was, child), o) {
          assert Merged(Lookup(was, o), Lookup(child, o), Lookup(MergeEntries(was, child), o));
        }
      }
      return false, map[];
    }

    /** CCoinsViewDB::BatchWrite without its on-disk batching. */
    method WriteToStore(child: map<OutPoint, Entry>)
      modifies `coins
      ensures coins == MergeStore(old(coins), child)
    {
      ghost var was := coins;
      var rest := child;
      while rest != map[]
        invariant PartlyStored(was, coins, child, rest)
        decreases |rest|
      {
        assert (forall o :: o !in rest) ==> rest == map[];
        var o :| o in rest;
        var e := rest[o];
        StoreStep(was, coins, child, rest, o);
        if e.isDirty {
          coins := if e.coin.IsSpent() then coins - {o} else coins[o := e.coin];
        }
        rest := Erase(rest, o);
      }
      StoredAll(was, coins, child);
    }

    /** On the child's entries; `rest` is what the call leaves of them. */
    method BatchWrite(child: map<OutPoint, Entry>, best: Hash) returns (outcome: Outcome, rest: map<OutPoint, Entry>)
      requires Valid()
      modifies this
      ensures outcome == Aborted <==> base == null && best == NULL_HASH
      ensures outcome == Aborted <==> old(BatchAborts(Model(), best))
      ensures outcome == Threw <==> old(BatchThrows(Model(), child))
      ensures outcome == Done ==> Model() == Coins.BatchWrite(old(Model()), child, best) && rest == map[]
      ensures outcome == Threw ==> base != null && Model() == Cache(cacheCoins, old(hashBlock), old(base.Model()))
      ensures outcome == Threw ==> PartlyMerged(old(cacheCoins), cacheCoins, child, rest)
      ensures outcome == Aborted ==> Model() == old(Model()) && rest == child
    {
      if base == null {
        if best == NULL_HASH {
          return Aborted, child;
        }
        WriteToStore(child);
        rest := map[];
      } else {
        var threw;
        threw, rest := WriteToCache(child);
        if threw {
          return Threw, rest;
        }
      }
      hashBlock := best;
      outcome := Done;
    }

    /** The entries are gone afterwards only if the write ended normally. */
    method Flush() returns (outcome: Outcome)
      requires Valid() && base != null
      modifies Repr
      ensures outcome == Aborted <==> old(base.base == null && hashBlock == NULL_HASH)
      ensures outcome == Threw <==> old(BatchThrows(base.Model(), cacheCoins))
      ensures hashBlock == old(hashBlock)
      ensures outcome == Done ==> Model() == Coins.Flush(old(Model()))
      ensures outcome == Threw ==> base.base != null && base.Model() == Cache(base.cacheCoins, old(base.hashBlock), old(base.base.Model()))
      ensures outcome == Threw ==> PartlyMerged(old(base.cacheCoins), base.cacheCoins, old(cacheCoins), cacheCoins)
      ensures outcome == Aborted ==> Model() == old(Model())
    {
      outcome, cacheCoins := base.BatchWrite(cacheCoins, hashBlock);
      if outcome == Done {
        cacheCoins := map[];
      }
    }

    method Uncache(o: OutPoint)
      requires Valid() && base != null
      modifies this
      ensures Model() == Coins.Uncache(old(Model()), o)
    {
      if o in cacheCoins && !cacheCoins[o].isDirty && !cacheCoins[o].isFresh {
        cacheCoins := cacheCoins - {o};
      }
    }

    method GetBestBlock() returns (hash: Hash)
      requires Valid()
      modifies Repr
      ensures Model() == FetchBest(old(Model()))
      ensures hash == old(BestBlock(Model()))
      decreases Repr
    {
      if base != null && hashBlock == NULL_HASH {
        hashBlock := base.GetBestBlock();
      }
      return hashBlock;
    }

    method SetBestBlock(hash: Hash)
      requires Valid() && base != null
      modifies this
      ensures Model() == Cache(old(cacheCoins), hash, old(base.Model()))
    {
      hashBlock := hash;
    }
  }

  /** A fetched entry shows what the stack showed, whether or not the flags are truthful. */
  lemma FetchShows(v: View, o: OutPoint)
    requires v.Cache?
    ensures var f := Fetch(v, o);
            Visible(v, o) == if f.Cache? && o in f.entries then Unspent(f.entries[o].coin) else None
    ensures var f := Fetch(v, o);
            f.Cache? && (o in f.entries <==> o in v.entries || Answer(v.base, o).Some?)
  {
  }

  function Erase(m: map<OutPoint, Entry>, o: OutPoint): (r: map<OutPoint, Entry>)
    requires o in m
    ensures |r| < |m| && forall p :: p in r <==> p in m && p != o
    ensures forall p :: p in r ==> r[p] == m[p]
  {
    assert (m - {o}).Keys == m.Keys - {o};
    m - {o}
  }

  /** The store while its loop runs: the entries no longer in `rest` have been written. */
  ghost predicate PartlyStored(was: map<OutPoint, Coin>, now: map<OutPoint, Coin>, child: map<OutPoint, Entry>, rest: map<OutPoint, Entry>) {
    && (forall o :: o in rest ==> o in child && rest[o] == child[o])
    && (forall o :: Lookup(now, o) == if o in child && o !in rest && child[o].isDirty then Unspent(child[o].coin) else Lookup(was, o))
  }

  lemma StoreStep(was: map<OutPoint, Coin>, now: map<OutPoint, Coin>, child: map<OutPoint, Entry>, rest: map<OutPoint, Entry>, o: OutPoint)
    requires PartlyStored(was, now, child, rest) && o in rest
    ensures var e := rest[o];
            var next := if !e.isDirty then now else if e.coin.IsSpent() then now - {o} else now[o := e.coin];
            PartlyStored(was, next, child, Erase(rest, o))
  {
    var e := rest[o];
    var next := if !e.isDirty then now else if e.coin.IsSpent() then now - {o} else now[o := e.coin];
    forall p ensures Lookup(next, p) == if p in child && p !in Erase(rest, o) && child[p].isDirty then Unspent(child[p].coin) else Lookup(was, p) {
      if p != o { assert Lookup(next, p) == Lookup(now, p); }
    }
  }

  lemma StoredAll(was: map<OutPoint, Coin>, now: map<OutPoint, Coin>, child: map<OutPoint, Entry>)
    requires PartlyStored(was, now, child, map[])
    ensures now == MergeStore(was, child)
  {
    SameLookups(now, MergeStore(was, child));
  }

  /** Maps with the same lookups are the same map. */
  lemma SameLookups<V>(a: map<OutPoint, V>, b: map<OutPoint, V>)
    requires forall o :: Lookup(a, o) == Lookup(b, o)
    ensures a == b
  {
    assert forall o :: o in a <==> Lookup(a, o).Some?;
    assert forall o :: o in b <==> Lookup(b, o).Some?;
    assert forall o :: o in a ==> Lookup(a, o) == Some(a[o]);
    assert forall o :: o in b ==> Lookup(b, o) == Some(b[o]);
  }
}
