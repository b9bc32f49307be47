/** The cuckoo cache object: its loops over the table, proved to keep what CuckooCache.dfy names. */
module CuckooObject {
  import opened BitFlags
  import opened Common
  import opened CuckooCache

  class Cache<E(==)> {
    const hash: (nat, E) -> uint32
    const default: E
    const size: uint32
    const table: array<E>
    const flags: Flags
    const epochs: array<bool>
    var counter: nat
    const epochSize: nat
    const depthLimit: nat
    /** Every element ever passed to Insert. */
    ghost var inserted: set<E>

    ghost predicate Shape() {
      && size >= 2 && table.Length == size && epochs.Length == size && epochSize >= 1 && depthLimit >= 1
      && (forall i: nat :: i < size ==> Byte(i) < flags.mem.Length)
      && table as object != epochs as object && table as object != flags.mem as object && epochs as object != flags.mem as object
    }

    ghost function Garbage(): (r: seq<bool>)
      requires Shape()
      reads flags.mem
      ensures |r| == size && forall i: nat :: i < size ==> r[i] == flags.IsSet(i)
    {
      seq(size, i requires 0 <= i < size && Byte(i) < flags.mem.Length reads flags.mem => flags.IsSet(i))
    }

    ghost predicate Valid()
      reads this, table, flags.mem, epochs
    {
      && Shape()
      && Placed(table[..], hash, size, default)
      && (forall i :: 0 <= i < size ==> table[i] == default || table[i] in inserted)
      && Recent(epochs[..], Garbage()) + counter <= Ceiling(epochSize)
    }

    /** setup; the depth limit (the binary logarithm of the size, in floating point) is given. */
    constructor (hash: (nat, E) -> uint32, default: E, newSize: uint32, depthLimit: nat)
      requires newSize <= 0xFFFF_FFF8 && depthLimit >= 1
      ensures Valid() && size == (if newSize < 2 then 2 else newSize) && epochSize == EpochSize(size) && counter == epochSize
      ensures forall i :: 0 <= i < size ==> table[i] == default && Garbage()[i]
      ensures inserted == {} && this.hash == hash && this.default == default
      ensures fresh(table) && fresh(flags) && fresh(flags.mem) && fresh(epochs)
    {
      var n: uint32 := if newSize < 2 then 2 else newSize;
      this.hash, this.default, this.size, this.depthLimit := hash, default, n, depthLimit;
      table := new E[n](_ => default);
      var f := new Flags(n);
      flags := f;
      epochs := new bool[n](_ => false);
      epochSize := EpochSize(n);
      counter := EpochSize(n);
      inserted := {};
      new;
      EnoughBytes(n);
      forall i: nat | i < size ensures Byte(i) < flags.mem.Length { Coordinates(i, i, flags.mem.Length); }
      assert forall i :: i !in Recents(epochs[..], Garbage());
      assert Recents(epochs[..], Garbage()) == {};
    }

    /** please_keep and the epoch flag of one slot. */
    method Keep(loc: nat, epoch: bool)
      requires Shape() && loc < size
      modifies flags.mem, epochs
      ensures Garbage() == old(Garbage())[loc := false] && epochs[..] == old(epochs[..])[loc := epoch]
    {
      flags.BitUnset(loc);
      epochs[loc] := epoch;
    }

    method AllowErase(n: nat)
      requires Shape() && n < size
      modifies flags.mem
      ensures Garbage() == old(Garbage())[n := true]
    {
      flags.BitSet(n);
    }

    /** The expensive scan: how many live slots the latest epoch has. */
    method CountRecent() returns (count: nat)
      requires Shape()
      ensures count == Recent(epochs[..], Garbage())
    {
      count := 0;
      ghost var seen := {};
      for i := 0 to size
        invariant count == |seen|
        invariant forall j :: j in seen <==> 0 <= j < i && epochs[j] && !Garbage()[j]
      {
        if epochs[i] && !flags.IsSet(i) {
          count := count + 1;
          seen := seen + {i};
        }
      }
      assert forall j :: j in seen <==> j in Recents(epochs[..], Garbage());
      assert seen == Recents(epochs[..], Garbage());
    }

    /** A new epoch: old entries become garbage, recent ones become old. */
    method Age()
      requires Shape()
      modifies flags.mem, epochs
      ensures forall i :: 0 <= i < size ==> !epochs[i] && Garbage()[i] == (old(Garbage()[i]) || !old(epochs[i]))
      ensures Recent(epochs[..], Garbage()) == 0
    {
      for i := 0 to size
        invariant forall j :: 0 <= j < i ==> !epochs[j] && Garbage()[j] == (old(Garbage()[j]) || !old(epochs[j]))
        invariant forall j :: i <= j < size ==> epochs[j] == old(epochs[j]) && Garbage()[j] == old(Garbage()[j])
      {
        if epochs[i] {
          epochs[i] := false;
        } else {
          AllowErase(i);
        }
      }
      assert forall i :: i !in Recents(epochs[..], Garbage());
      assert Recents(epochs[..], Garbage()) == {};
    }

    /** Before every insert: afterwards one more recent element always fits under the ceiling. */
    method EpochCheck()
      requires Shape() && Recent(epochs[..], Garbage()) + counter <= Ceiling(epochSize)
      modifies `counter, flags.mem, epochs
      ensures Recent(epochs[..], Garbage()) + counter + 1 <= Ceiling(epochSize)
      ensures Checked(epochSize, old(counter), old(epochs[..]), old(Garbage()), counter, epochs[..], Garbage())
      ensures forall i :: 0 <= i < size && old(Garbage()[i]) ==> Garbage()[i]
    {
      if counter != 0 {
        counter := counter - 1;
        return;
      }
      var unused := CountRecent();
      if unused >= epochSize {
        Age();
        counter := epochSize;
      } else {
        counter := Max(1, Max(epochSize / 16, epochSize - unused));
      }
    }

    /** Whether the element is found; erasing only marks its slot. */
    method Contains(e: E, erase: bool) returns (found: bool)
      requires Valid()
      modifies flags.mem
      ensures Valid() && counter == old(counter)
      ensures found <==> exists k :: 0 <= k < 8 && table[Locs(hash, size, e)[k]] == e
      ensures found <==> e in table[..] && (e == default ==> exists k :: 0 <= k < 8 && table[Locs(hash, size, e)[k]] == default)
      ensures found ==> e in inserted || e == default
      ensures forall i :: 0 <= i < size && old(Garbage()[i]) ==> Garbage()[i]
      ensures forall i :: 0 <= i < size && !old(Garbage()[i]) && Garbage()[i] ==> erase && table[i] == e
      ensures !(found && erase) ==> Garbage() == old(Garbage())
      ensures found && erase ==> exists i :: 0 <= i < size && table[i] == e && Garbage()[i]
    {
      var locs := Locs(hash, size, e);
      for k := 0 to 8
        invariant forall j :: 0 <= j < k ==> table[locs[j]] != e
      {
        if table[locs[k]] == e {
          if erase {
            RecentUpdate(epochs[..], Garbage(), locs[k], epochs[locs[k]], true);
            assert epochs[..][locs[k] := epochs[locs[k]]] == epochs[..];
            AllowErase(locs[k]);
          }
          return true;
        }
      }
      if e != default {
        NotAtHome(table[..], hash, size, default, e);
      }
      return false;
    }

    /** Whether the element is at one of its positions; if so the slot is kept and made recent. */
    method Refresh(e: E, locs: seq<nat>) returns (known: bool)
      requires Shape() && locs == Locs(hash, size, e)
      modifies flags.mem, epochs
      ensures known <==> exists k :: 0 <= k < 8 && table[locs[k]] == e
      ensures !known ==> epochs[..] == old(epochs[..]) && Garbage() == old(Garbage())
      ensures known ==> exists k :: 0 <= k < 8 && table[locs[k]] == e
                                    && Garbage() == old(Garbage())[locs[k] := false] && epochs[..] == old(epochs[..])[locs[k] := true]
      ensures Recent(epochs[..], Garbage()) <= old(Recent(epochs[..], Garbage())) + 1
    {
      for k := 0 to 8
        invariant forall j :: 0 <= j < k ==> table[locs[j]] != e
        invariant epochs[..] == old(epochs[..]) && Garbage() == old(Garbage())
      {
        if table[locs[k]] == e {
          RecentUpdate(epochs[..], Garbage(), locs[k], true, false);
          Keep(locs[k], true);
          return true;
        }
      }
      return false;
    }

    /** The first of the positions that is free to be overwritten, or 8. */
    method FirstGarbage(locs: seq<nat>) returns (k: nat)
      requires Shape() && |locs| == 8 && forall j :: 0 <= j < 8 ==> locs[j] < size
      ensures k == FirstFree(Garbage(), locs)
    {
      for i := 0 to 8
        invariant forall j :: 0 <= j < i ==> !Garbage()[locs[j]]
      {
        if flags.IsSet(locs[i]) {
          return i;
        }
      }
      return 8;
    }

    /**
     * In the middle of an eviction chain that started with table `was` and element `e`: `cur`
     * is the element without a slot, `lastEpoch` its epoch flag.
     */
    ghost predicate Chain(was: seq<E>, e: E, cur: E, lastEpoch: bool, garbage: seq<bool>)
      reads this, table, flags.mem, epochs
    {
      && Shape() && |was| == size && |garbage| == size && Garbage() == garbage
      && Placed(table[..], hash, size, default) && (cur != default ==> cur !in table[..])
      && multiset(table[..]) + multiset{cur} == multiset(was) + multiset{e}
      && (forall i :: 0 <= i < size && garbage[i] ==> table[i] == was[i])
      && Recent(epochs[..], garbage) + (if lastEpoch then 1 else 0) + counter <= Ceiling(epochSize)
      && (cur == default || cur in inserted)
      && (forall i :: 0 <= i < size ==> table[i] == default || table[i] in inserted)
    }

    /** The element takes a free slot of its own: the chain ends. */
    method Settle(loc: nat, cur: E, lastEpoch: bool, ghost was: seq<E>, ghost e: E, ghost garbage: seq<bool>)
      requires Chain(was, e, cur, lastEpoch, garbage) && loc < size && loc in Locs(hash, size, cur) && garbage[loc]
      modifies table, flags.mem, epochs
      ensures Valid() && table[..] == old(table[..])[loc := cur] && epochs[..] == old(epochs[..])[loc := lastEpoch] && Garbage() == garbage[loc := false]
      ensures multiset(table[..]) + multiset{was[loc]} == multiset(was) + multiset{e}
    {
      hide Placed, Recent, Recents, Locs;
      ghost var t := table[..];
      RecentUpdate(epochs[..], garbage, loc, lastEpoch, false);
      PutPlaced(t, hash, size, default, loc, cur);
      MultisetUpdate(t, loc, cur);
      table[loc] := cur;
      assert table[..] == t[loc := cur];
      Keep(loc, lastEpoch);
    }

    /** The element takes the slot of a live one, which goes on in its place. */
    method Displace(loc: nat, cur: E, lastEpoch: bool, ghost was: seq<E>, ghost e: E, ghost garbage: seq<bool>) returns (cur': E, lastEpoch': bool)
      requires Chain(was, e, cur, lastEpoch, garbage) && loc < size && loc in Locs(hash, size, cur) && !garbage[loc]
      modifies table, epochs
      ensures Chain(was, e, cur', lastEpoch', garbage)
      ensures table[..] == old(table[..])[loc := cur] && epochs[..] == old(epochs[..])[loc := lastEpoch]
      ensures cur' == old(table[loc]) && lastEpoch' == old(epochs[loc])
    {
      hide Placed, Recent, Recents, Locs;
      ghost var t, ep := table[..], epochs[..];
      RecentUpdate(ep, garbage, loc, lastEpoch, false);
      assert garbage[loc := false] == garbage;
      PutPlaced(t, hash, size, default, loc, cur);
      MultisetUpdate(t, loc, cur);
      cur', lastEpoch' := table[loc], epochs[loc];
      table[loc] := cur;
      epochs[loc] := lastEpoch;
      assert table[..] == t[loc := cur] && epochs[..] == ep[loc := lastEpoch];
    }

    /**
     * insert: the elements of the table and the new one are, afterwards, the elements of the
     * table and one discarded element.  They have moved along the path of an eviction chain, epoch
     * flags with them.  A chain that ended discards garbage; one that did not has made as many
     * moves as the depth limit allows and discards the element in hand.
     */
    method Insert(e: E)
        returns (ghost known: bool, ghost discarded: E, ghost exhausted: bool, ghost garbage: seq<bool>, ghost aged: seq<bool>, ghost path: seq<nat>)
      requires Valid()
      modifies this, table, flags.mem, epochs
      ensures Valid() && inserted == old(inserted) + {e}
      ensures known <==> exists k :: 0 <= k < 8 && old(table[Locs(hash, size, e)[k]]) == e
      ensures known ==> table[..] == old(table[..])
      ensures known ==> |garbage| == |aged| == size && exists k :: 0 <= k < 8 && var loc := Locs(hash, size, e)[k];
                          table[loc] == e && Garbage() == garbage[loc := false] && epochs[..] == aged[loc := true]
      ensures !known ==> Inserted(hash, old(table[..]), e, garbage, aged, path, exhausted, table[..], discarded, epochs[..], Garbage())
      ensures !known ==> |path| <= depthLimit && (exhausted ==> |path| == depthLimit)
      ensures !known ==> multiset(table[..]) + multiset{discarded} == old(multiset(table[..])) + multiset{e} && (discarded != e ==> e in table[..])
      ensures !known && exhausted ==> |garbage| == size && forall k :: 0 <= k < 8 ==> !garbage[Locs(hash, size, e)[k]]
      ensures !known && !exhausted ==> |garbage| == size && exists i :: 0 <= i < size && garbage[i] && discarded == old(table[i])
      ensures !known && |garbage| == size && FirstFree(garbage, Locs(hash, size, e)) < 8 ==>
                var loc := Locs(hash, size, e)[FirstFree(garbage, Locs(hash, size, e))];
                !exhausted && table[..] == old(table[..])[loc := e] && |aged| == size && Garbage() == garbage[loc := false] && epochs[..] == aged[loc := true]
      ensures Checked(epochSize, old(counter), old(epochs[..]), old(Garbage()), counter, aged, garbage)
    {
      hide Placed, Recent, Recents, Locs, FirstFree, Inserted, Checked;
      discarded, exhausted, path := e, false, [];
      EpochCheck();
      garbage, aged := Garbage(), epochs[..];
      inserted := inserted + {e};
      var locs := Locs(hash, size, e);
      var isKnown := Refresh(e, locs);
      known := isKnown;
      if isKnown {
        return;
      }
      ghost var was := table[..];
      if e != default { NotAtHome(was, hash, size, default, e); }
      discarded, exhausted, path := Evict(e, garbage, aged);
      TakenAtOnce(hash, was, e, garbage, aged, path, exhausted, table[..], discarded, epochs[..], Garbage());
      StaysIn(was, table[..], e, discarded);
    }

    /** The eviction chain of an element that is not in the table. */
    method Evict(e: E, ghost garbage: seq<bool>, ghost aged: seq<bool>) returns (ghost discarded: E, ghost exhausted: bool, ghost path: seq<nat>)
      requires Chain(table[..], e, e, true, garbage) && aged == epochs[..]
      modifies table, flags.mem, epochs
      ensures Valid() && Inserted(hash, old(table[..]), e, garbage, aged, path, exhausted, table[..], discarded, epochs[..], Garbage())
      ensures 0 < |path| <= depthLimit && (exhausted ==> |path| == depthLimit)
      ensures multiset(table[..]) + multiset{discarded} == old(multiset(table[..])) + multiset{e}
      ensures !exhausted ==> exists i :: 0 <= i < size && garbage[i] && discarded == old(table[i])
    {
      hide Placed, Recent, Recents, Locs, FirstFree, NextLoc, Find, Route, Moved, OnRoute;
      ghost var was := table[..];
      path := [];
      RouteStart(hash, was, e, garbage, aged);
      var locs := Locs(hash, size, e);
      var lastLoc: int, lastEpoch, cur := -1, true, e;
      for depth := 0 to depthLimit
        invariant locs == Locs(hash, size, cur) && Chain(was, e, cur, lastEpoch, garbage)
        invariant |path| == depth && OnRoute(hash, was, e, garbage, aged, path, table[..], cur, epochs[..], lastEpoch, lastLoc)
      {
        var k := FirstGarbage(locs);
        if k < 8 {
          Extend(hash, was, e, garbage, aged, path, table[..], cur, epochs[..], lastEpoch, lastLoc, locs[k], true);
          Settle(locs[k], cur, lastEpoch, was, e, garbage);
          path := path + [locs[k]];
          return was[locs[k]], false, path;
        }
        var next := NextLoc(locs, lastLoc);
        Extend(hash, was, e, garbage, aged, path, table[..], cur, epochs[..], lastEpoch, lastLoc, next, false);
        cur, lastEpoch := Displace(next, cur, lastEpoch, was, e, garbage);
        lastLoc, path := next, path + [next];
        locs := Locs(hash, size, cur);
      }
      OnRouteIs(hash, was, e, garbage, aged, path, table[..], cur, epochs[..], lastEpoch, lastLoc);
      return cur, true, path;
    }
  }

  lemma StaysIn<E>(was: seq<E>, table: seq<E>, e: E, discarded: E)
    requires multiset(table) + multiset{discarded} == multiset(was) + multiset{e}
    ensures discarded != e ==> e in table
  {
    assert e in multiset(table) + multiset{discarded};
  }
}
