/**
 * The cuckoo cache of src/cuckoocache.h: eight hash positions per element, eviction chains,
 * lazy garbage flags, and two epochs with a cheap counter deciding when to age them.
 */
module CuckooCache {
  import opened BitFlags
  import opened Common

  // ---------- hashing ----------

  /** FastRange32: the high 32 bits of the product. */
  function FastRange32(x: uint32, n: uint32): (r: nat)
    ensures n > 0 ==> r < n
  {
    FastRangeBound(x, n);
    (x * n) / 0x1_0000_0000
  }

  lemma FastRangeBound(x: uint32, n: uint32)
    ensures x * n >= 0 && (n > 0 ==> x * n < n * 0x1_0000_0000)
  {
    if n > 0 { assert (0x1_0000_0000 - x) * n > 0; }
  }

  /** The eight positions of an element. */
  function Locs<E>(hash: (nat, E) -> uint32, size: uint32, e: E): (r: seq<nat>)
    requires size > 0
    ensures |r| == 8 && forall k :: 0 <= k < 8 ==> r[k] < size
  {
    [FastRange32(hash(0, e), size), FastRange32(hash(1, e), size), FastRange32(hash(2, e), size), FastRange32(hash(3, e), size),
     FastRange32(hash(4, e), size), FastRange32(hash(5, e), size), FastRange32(hash(6, e), size), FastRange32(hash(7, e), size)]
  }

  /** The k-th position is the k-th hash scaled down from 32 bits to the size, rounded down. */
  lemma LocsScale<E>(hash: (nat, E) -> uint32, size: uint32, e: E, k: nat)
    requires size > 0 && k < 8
    ensures var r := Locs(hash, size, e)[k]; r * 0x1_0000_0000 <= hash(k, e) * size < (r + 1) * 0x1_0000_0000
  {
    var r := FastRange32(hash(k, e), size);
    FastRangeBound(hash(k, e), size);
    assert Locs(hash, size, e)[k] == r;
  }

  /** The index of a value, or 8: std::find over the positions. */
  function Find(locs: seq<nat>, loc: int): (k: nat)
    ensures k <= |locs| && (k < |locs| ==> locs[k] == loc) && forall j :: 0 <= j < k ==> locs[j] != loc
  {
    if locs == [] then 0 else if locs[0] == loc then 0 else 1 + Find(locs[1..], loc)
  }

  // ---------- sizes ----------

  /** 45% of the size, computed in 32 bits. */
  function EpochSize(size: uint32): (r: uint32) {
    Max(1, ((45 * size) % 0x1_0000_0000) / 100)
  }

  /** It is 45% (rounded down, at least 1) exactly as long as the product fits 32 bits. */
  lemma EpochSizeExact(size: uint32)
    ensures size <= 95443717 ==> EpochSize(size) == Max(1, 45 * size / 100)
    ensures size > 95443717 ==> EpochSize(size) < 45 * size / 100
  {
  }

  // ---------- what the structure keeps ----------

  ghost function Recents(epochs: seq<bool>, garbage: seq<bool>): set<int> {
    set i | 0 <= i < |epochs| && i < |garbage| && epochs[i] && !garbage[i]
  }

  /** The number of live slots of the latest epoch. */
  ghost function Recent(epochs: seq<bool>, garbage: seq<bool>): nat {
    |Recents(epochs, garbage)|
  }

  /** The most the latest epoch and the remaining counter may amount to. */
  function Ceiling(epochSize: nat): nat {
    epochSize + Max(1, epochSize / 16)
  }

  /** Every element that is not the default one is at one of its own positions, and only once. */
  ghost predicate Placed<E>(table: seq<E>, hash: (nat, E) -> uint32, size: uint32, default: E)
    requires size > 0
  {
    && (forall i :: 0 <= i < |table| && table[i] != default ==> i in Locs(hash, size, table[i]))
    && (forall i, j :: 0 <= i < j < |table| && table[i] == table[j] ==> table[i] == default)
  }

  /**
   * What the check before an insert does: nothing while the counter runs or the latest epoch has
   * room; else old entries become garbage and recent ones become old.
   */
  ghost predicate Checked(epochSize: nat, counter: nat, epochs: seq<bool>, garbage: seq<bool>, counter': nat, epochs': seq<bool>, garbage': seq<bool>) {
    if counter > 0 then
      counter' == counter - 1 && epochs' == epochs && garbage' == garbage
    else if Recent(epochs, garbage) < epochSize then
      counter' == Max(1, Max(epochSize / 16, epochSize - Recent(epochs, garbage))) && epochs' == epochs && garbage' == garbage
    else
      && counter' == epochSize && |epochs'| == |garbage'| == |epochs| == |garbage|
      && forall i :: 0 <= i < |epochs| ==> !epochs'[i] && garbage'[i] == (garbage[i] || !epochs[i])
  }

  // ---------- eviction chains ----------

  /** The first of the positions that is free to be overwritten, or their number. */
  ghost function FirstFree(garbage: seq<bool>, locs: seq<nat>): (k: nat)
    requires forall j :: 0 <= j < |locs| ==> locs[j] < |garbage|
    ensures k <= |locs| && (k < |locs| ==> garbage[locs[k]]) && forall j :: 0 <= j < k ==> !garbage[locs[j]]
  {
    if locs == [] || garbage[locs[0]] then 0 else 1 + FirstFree(garbage, locs[1..])
  }

  predicate Within(path: seq<nat>, size: nat) {
    forall i :: 0 <= i < |path| ==> path[i] < size
  }

  /** Each move puts the value in hand at a position and takes up what was there. */
  ghost function Moved<T>(s: seq<T>, x: T, path: seq<nat>): (r: (seq<T>, T))
    requires Within(path, |s|)
    ensures |r.0| == |s|
  {
    if path == [] then (s, x)
    else
      var n := |path| - 1;
      var before := Moved(s, x, path[..n]);
      (before.0[path[n] := before.1], before.0[path[n]])
  }

  /** The position after the last one, counting round; without a last one, the second position. */
  function NextLoc(locs: seq<nat>, last: int): (r: nat)
    requires |locs| == 8
    ensures r in locs
    ensures last !in locs ==> r == locs[1]
    ensures forall k :: 0 <= k < 8 && locs[k] == last && (forall j :: 0 <= j < k ==> locs[j] != last) ==> r == locs[if k == 7 then 0 else k + 1]
    ensures (forall j, k :: 0 <= j < k < 8 ==> locs[j] != locs[k]) ==> r != last
  {
    locs[(1 + Find(locs, last)) % 8]
  }

  /**
   * The path of an eviction chain that starts with e in hand.  An element with a free position
   * takes the first of them and ends the chain; any other goes to the position after the one it
   * was met at, and the element there goes on.
   */
  ghost predicate Route<E>(hash: (nat, E) -> uint32, was: seq<E>, e: E, garbage: seq<bool>, path: seq<nat>, ended: bool) {
    && 0 < |was| == |garbage| <= 0xFFFF_FFFF && Within(path, |was|) && (ended ==> path != [])
    && forall i :: 0 <= i < |path| ==> Leg(hash, was, e, garbage, path, i, ended)
  }

  /** The i-th move of a chain. */
  ghost predicate Leg<E>(hash: (nat, E) -> uint32, was: seq<E>, e: E, garbage: seq<bool>, path: seq<nat>, i: nat, ended: bool)
    requires 0 < |was| == |garbage| <= 0xFFFF_FFFF && Within(path, |was|) && i < |path|
  {
    var locs := Locs(hash, |was|, Moved(was, e, path[..i]).1);
    var k := FirstFree(garbage, locs);
    if ended && i == |path| - 1 then k < 8 && path[i] == locs[k]
    else k == 8 && path[i] == NextLoc(locs, if i == 0 then -1 else path[i - 1])
  }

  /** One more move. */
  lemma RouteStep<E>(hash: (nat, E) -> uint32, was: seq<E>, e: E, garbage: seq<bool>, path: seq<nat>, loc: nat, ended: bool)
    requires Route(hash, was, e, garbage, path, false) && loc < |was|
    requires Within(path + [loc], |was|) && Leg(hash, was, e, garbage, path + [loc], |path|, ended)
    ensures Route(hash, was, e, garbage, path + [loc], ended)
  {
    hide Locs, FirstFree, NextLoc;
    var next := path + [loc];
    forall i | 0 <= i < |next| ensures Leg(hash, was, e, garbage, next, i, ended) {
      if i < |path| {
        assert next[..i] == path[..i];
        assert Leg(hash, was, e, garbage, path, i, false);
      }
    }
  }

  lemma MovedStep<T>(s: seq<T>, x: T, path: seq<nat>, loc: nat)
    requires Within(path, |s|) && loc < |s|
    ensures Within(path + [loc], |s|)
    ensures var before := Moved(s, x, path);
            Moved(s, x, path + [loc]) == (before.0[loc := before.1], before.0[loc])
  {
    assert (path + [loc])[..|path|] == path;
  }

  /** The first move. */
  lemma FirstMove<E>(hash: (nat, E) -> uint32, was: seq<E>, e: E, garbage: seq<bool>, path: seq<nat>, ended: bool)
    requires Route(hash, was, e, garbage, path, ended) && path != []
    ensures var locs := Locs(hash, |was|, e);
            var k := FirstFree(garbage, locs);
            (k < 8 <==> ended && |path| == 1) && (k < 8 ==> path == [locs[k]])
  {
    hide Locs, FirstFree, NextLoc;
    assert path[..0] == [];
    assert Leg(hash, was, e, garbage, path, 0, ended);
    if |path| == 1 { assert path == [path[0]]; }
  }

  lemma MovedOnce<T>(s: seq<T>, x: T, loc: nat)
    requires loc < |s|
    ensures Moved(s, x, [loc]) == (s[loc := x], s[loc])
  {
    MovedStep(s, x, [], loc);
    assert [] + [loc] == [loc];
  }

  /** An eviction chain part of the way: the table, the epoch flags and what is in hand are those of its path. */
  ghost predicate OnRoute<E>(hash: (nat, E) -> uint32, was: seq<E>, e: E, garbage: seq<bool>, aged: seq<bool>, path: seq<nat>,
                             table: seq<E>, cur: E, epochs: seq<bool>, lastEpoch: bool, lastLoc: int) {
    && |was| == |aged| && Route(hash, was, e, garbage, path, false)
    && (table, cur) == Moved(was, e, path) && (epochs, lastEpoch) == Moved(aged, true, path)
    && lastLoc == if path == [] then -1 else path[|path| - 1]
  }

  lemma RouteStart<E>(hash: (nat, E) -> uint32, was: seq<E>, e: E, garbage: seq<bool>, aged: seq<bool>)
    requires 0 < |was| == |garbage| == |aged| <= 0xFFFF_FFFF
    ensures OnRoute(hash, was, e, garbage, aged, [], was, e, aged, true, -1)
  {
  }

  /** Where the next move must go. */
  ghost predicate GoesTo(garbage: seq<bool>, locs: seq<nat>, lastLoc: int, loc: nat, ended: bool) {
    && |locs| == 8 && Within(locs, |garbage|)
    && var k := FirstFree(garbage, locs); if ended then k < 8 && loc == locs[k] else k == 8 && loc == NextLoc(locs, lastLoc)
  }

  lemma Extend<E>(hash: (nat, E) -> uint32, was: seq<E>, e: E, garbage: seq<bool>, aged: seq<bool>, path: seq<nat>,
                  table: seq<E>, cur: E, epochs: seq<bool>, lastEpoch: bool, lastLoc: int, loc: nat, ended: bool)
    requires OnRoute(hash, was, e, garbage, aged, path, table, cur, epochs, lastEpoch, lastLoc) && loc < |was| == |table| == |epochs|
    requires 0 < |was| <= 0xFFFF_FFFF && GoesTo(garbage, Locs(hash, |was|, cur), lastLoc, loc, ended)
    ensures Route(hash, was, e, garbage, path + [loc], ended)
    ensures Moved(was, e, path + [loc]) == (table[loc := cur], table[loc])
    ensures Moved(aged, true, path + [loc]) == (epochs[loc := lastEpoch], epochs[loc])
    ensures !ended ==> OnRoute(hash, was, e, garbage, aged, path + [loc], table[loc := cur], table[loc], epochs[loc := lastEpoch], epochs[loc], loc)
  {
    hide Locs, FirstFree, NextLoc;
    MovedStep(was, e, path, loc);
    MovedStep(aged, true, path, loc);
    assert (path + [loc])[..|path|] == path;
    RouteStep(hash, was, e, garbage, path, loc, ended);
  }

  lemma OnRouteIs<E>(hash: (nat, E) -> uint32, was: seq<E>, e: E, garbage: seq<bool>, aged: seq<bool>, path: seq<nat>,
                     table: seq<E>, cur: E, epochs: seq<bool>, lastEpoch: bool, lastLoc: int)
    requires OnRoute(hash, was, e, garbage, aged, path, table, cur, epochs, lastEpoch, lastLoc)
    ensures Route(hash, was, e, garbage, path, false) && |was| == |aged| && (table, cur) == Moved(was, e, path) && epochs == Moved(aged, true, path).0
  {
  }

  /** What inserting an element that was not in the table leaves: everything has moved along one chain. */
  ghost predicate Inserted<E>(hash: (nat, E) -> uint32, was: seq<E>, e: E, garbage: seq<bool>, aged: seq<bool>, path: seq<nat>, exhausted: bool,
                              table: seq<E>, discarded: E, epochs: seq<bool>, garbage': seq<bool>) {
    && path != [] && Route(hash, was, e, garbage, path, !exhausted) && |was| == |aged|
    && (table, discarded) == Moved(was, e, path) && epochs == Moved(aged, true, path).0
    && garbage' == if exhausted then garbage else garbage[path[|path| - 1] := false]
  }

  /** With a free position the new element is live and recent at the first of them, and nothing else changes. */
  lemma TakenAtOnce<E>(hash: (nat, E) -> uint32, was: seq<E>, e: E, garbage: seq<bool>, aged: seq<bool>, path: seq<nat>, exhausted: bool,
                       table: seq<E>, discarded: E, epochs: seq<bool>, garbage': seq<bool>)
    requires Inserted(hash, was, e, garbage, aged, path, exhausted, table, discarded, epochs, garbage')
    ensures var locs := Locs(hash, |was|, e);
            var k := FirstFree(garbage, locs);
            && (exhausted ==> k == 8)
            && (k < 8 ==> table == was[locs[k] := e] && garbage' == garbage[locs[k] := false] && epochs == aged[locs[k] := true])
  {
    hide Locs, FirstFree, NextLoc;
    FirstMove(hash, was, e, garbage, path, !exhausted);
    if |path| == 1 {
      MovedOnce(was, e, path[0]);
      MovedOnce(aged, true, path[0]);
    }
  }

  // ---------- changes of one slot ----------

  lemma RecentUpdate(epochs: seq<bool>, garbage: seq<bool>, i: nat, epoch: bool, dead: bool)
    requires |epochs| == |garbage| && i < |epochs|
    ensures Recent(epochs[i := epoch], garbage[i := dead])
            == Recent(epochs, garbage) - (if epochs[i] && !garbage[i] then 1 else 0) + (if epoch && !dead then 1 else 0)
  {
    var a, b := Recents(epochs, garbage), Recents(epochs[i := epoch], garbage[i := dead]);
    assert forall j :: j in b - {i} <==> j in a - {i};
    assert b - {i} == a - {i};
    assert i in a <==> epochs[i] && !garbage[i];
    assert i in b <==> epoch && !dead;
    SplitOff(a, i);
    SplitOff(b, i);
  }

  lemma SplitOff(s: set<int>, i: int)
    ensures |s| == |s - {i}| + (if i in s then 1 else 0)
  {
    if i in s { assert s == (s - {i}) + {i}; } else { assert s == s - {i}; }
  }

  lemma MultisetUpdate<E>(s: seq<E>, i: nat, x: E)
    requires i < |s|
    ensures multiset(s[i := x]) + multiset{s[i]} == multiset(s) + multiset{x}
  {
    assert s == s[..i] + [s[i]] + s[i + 1..];
    assert s[i := x] == s[..i] + [x] + s[i + 1..];
  }

  /** Putting an element that is not in the table at one of its own positions. */
  lemma PutPlaced<E>(table: seq<E>, hash: (nat, E) -> uint32, size: uint32, default: E, i: nat, e: E)
    requires size > 0 && i < |table| && Placed(table, hash, size, default)
    requires e != default ==> i in Locs(hash, size, e) && e !in table
    ensures Placed(table[i := e], hash, size, default)
    ensures table[i] != default ==> table[i] !in table[i := e]
  {
  }

  /** An element that is at none of its positions is not in the table at all. */
  lemma NotAtHome<E>(table: seq<E>, hash: (nat, E) -> uint32, size: uint32, default: E, e: E)
    requires size > 0 && Placed(table, hash, size, default) && |table| == size && e != default
    requires forall k :: 0 <= k < 8 ==> table[Locs(hash, size, e)[k]] != e
    ensures e !in table
  {
  }
}
