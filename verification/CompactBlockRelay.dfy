/** A block announced by one peer and rebuilt by another. */
module CompactBlockRelay {
  import opened Common
  import opened CompactBlocks
  import opened CompactBlockObject
  import opened Differences

  function AnnouncedHash(tx: Tx, useWtxid: bool): int {
    if useWtxid then tx.wtxid else tx.txid
  }

  /** The compact block constructor: the coinbase in full, a short id for every other transaction. */
  method Announce(header: Header, block: seq<Tx>, shortId: int -> nat, useWtxid: bool) returns (m: Message)
    requires |block| > 0
    ensures Announces(m, header, block, shortId, useWtxid)
  {
    var ids: seq<nat> := [];
    for i := 1 to |block|
      invariant |ids| == i - 1
      invariant forall k :: 0 <= k < i - 1 ==> ids[k] == shortId(AnnouncedHash(block[k + 1], useWtxid))
    {
      ids := ids + [shortId(AnnouncedHash(block[i], useWtxid))];
    }
    m := Message(header, shortId, ids, [Prefilled(0, block[0])]);
  }

  ghost predicate Announces(m: Message, header: Header, block: seq<Tx>, shortId: int -> nat, useWtxid: bool)
    requires |block| > 0
  {
    && m.header == header && m.shortId == shortId && m.prefilled == [Prefilled(0, block[0])]
    && |m.shortIds| == |block| - 1
    && forall k :: 0 <= k < |m.shortIds| ==> m.shortIds[k] == shortId(AnnouncedHash(block[k + 1], useWtxid))
  }

  /** SendBlockTransactions: the requested transactions, unless an index is out of bounds. */
  method SendBlockTransactions(block: seq<Tx>, indexes: seq<nat>) returns (txn: Option<seq<Tx>>)
    ensures txn.Some? <==> forall i :: 0 <= i < |indexes| ==> indexes[i] < |block|
    ensures txn.Some? ==> txn.value == Pick(block, indexes)
  {
    var r: seq<Tx> := [];
    for i := 0 to |indexes|
      invariant |r| == i && forall k :: 0 <= k < i ==> indexes[k] < |block| && r[k] == block[indexes[k]]
    {
      if indexes[i] >= |block| {
        return None;
      }
      r := r + [block[indexes[i]]];
    }
    assert r == Pick(block, indexes);
    return Some(r);
  }

  /** Any candidate that matches the short id of a block's transaction is that transaction. */
  ghost predicate Faithful(block: seq<Tx>, shortId: int -> nat, useWtxid: bool, cands: seq<Candidate>) {
    forall c, i :: c in cands && 0 <= i < |block| && shortId(c.hash) == shortId(AnnouncedHash(block[i], useWtxid)) ==> c.tx == block[i]
  }

  /** Short ids that are injective on all hashes in sight make witness-id announcements faithful. */
  lemma InjectiveIsFaithful(block: seq<Tx>, shortId: int -> nat, cands: seq<Candidate>, hashes: set<int>)
    requires forall a, b :: a in hashes && b in hashes && shortId(a) == shortId(b) ==> a == b
    requires forall c :: c in cands ==> c.hash in hashes && c.hash == c.tx.wtxid
    requires forall i :: 0 <= i < |block| ==> block[i].wtxid in hashes
    requires forall c, i :: c in cands && 0 <= i < |block| && c.tx.wtxid == block[i].wtxid ==> c.tx == block[i]
    ensures Faithful(block, shortId, true, cands)
  {
  }

  /** With only the coinbase prefilled, the i-th free slot is position i + 1. */
  lemma FreeAfterCoinbase(m: Message, block: seq<Tx>, layout: seq<Option<Tx>>)
    requires |block| > 0 && m.prefilled == [Prefilled(0, block[0])] && |m.shortIds| == |block| - 1 && Laid(m, layout)
    ensures layout[0] == Some(block[0]) && forall i :: 0 <= i < |m.shortIds| ==> FreeSlots(layout)[i] == i + 1
  {
    hide FreeSlots;
    var free := FreeSlots(layout);
    assert layout[Position(m.prefilled, 0)] == Some(block[0]);
    forall i | 0 <= i < |free| ensures free[i] == i + 1 {
      AtLeast(free, i);
      AtMost(free, |layout|, i);
    }
  }

  lemma {:induction false} AtLeast(free: seq<nat>, i: nat)
    requires i < |free| && free[0] > 0 && forall j, k :: 0 <= j < k < |free| ==> free[j] < free[k]
    ensures free[i] >= i + 1
  {
    if i > 0 { AtLeast(free, i - 1); }
  }

  lemma {:induction false} AtMost(free: seq<nat>, n: nat, i: nat)
    requires i < |free| == n - 1 && (forall j :: 0 <= j < |free| ==> free[j] < n) && forall j, k :: 0 <= j < k < |free| ==> free[j] < free[k]
    ensures free[i] <= i + 1
    decreases |free| - i
  {
    if i < |free| - 1 { AtMost(free, n, i + 1); }
  }

  /** Whatever the scans leave available is the block's own transaction. */
  lemma AvailableIsRight(m: Message, header: Header, block: seq<Tx>, shortId: int -> nat, useWtxid: bool, pool: seq<Candidate>, extra: seq<Candidate>,
                         layout: seq<Option<Tx>>, middle: map<nat, Slot>, slots: map<nat, Slot>, np: nat, ne: nat, s: seq<Option<Tx>>)
    requires |block| > 0 && Announces(m, header, block, shortId, useWtxid) && Laid(m, layout) && Shows(m, layout, slots, s)
    requires Scanned(middle, Wanted(m), pool, np, shortId, true) && Scanned(slots, middle, extra, ne, shortId, false)
    requires Faithful(block, shortId, useWtxid, pool) && Faithful(block, shortId, useWtxid, extra)
    ensures |s| == |block| && forall k :: 0 <= k < |s| && s[k].Some? ==> s[k].value == block[k]
  {
    hide FreeSlots, Offers;
    FreeAfterCoinbase(m, block, layout);
    forall k | 0 <= k < |s| && s[k].Some? ensures s[k].value == block[k] {
      if k > 0 {
        var id := m.shortIds[k - 1];
        assert s[FreeSlots(layout)[k - 1]] == Shown(slots[id]);
        OffersGenuine(Empty, pool[..np], shortId, id, true, block[k]);
        OffersGenuine(middle[id], extra[..ne], shortId, id, false, block[k]);
      }
    }
  }

  /** A transaction with one match among all candidates is not requested; one without any is. */
  lemma RequestedExactly(m: Message, header: Header, block: seq<Tx>, shortId: int -> nat, useWtxid: bool, pool: seq<Candidate>, extra: seq<Candidate>,
                         layout: seq<Option<Tx>>, middle: map<nat, Slot>, slots: map<nat, Slot>, np: nat, ne: nat, s: seq<Option<Tx>>, k: nat)
    requires |block| > 0 && Announces(m, header, block, shortId, useWtxid) && Laid(m, layout) && Shows(m, layout, slots, s) && 1 <= k < |block|
    requires Scanned(middle, Wanted(m), pool, np, shortId, true) && EndsAt(Wanted(m), pool, np, shortId, true)
    requires Scanned(slots, middle, extra, ne, shortId, false) && EndsAt(middle, extra, ne, shortId, false)
    ensures var id := shortId(AnnouncedHash(block[k], useWtxid));
            && ((exists i: nat :: OnlyMatch(pool + extra, shortId, id, i)) ==> k !in FreeSlots(s))
            && (NoMatch(pool + extra, shortId, id) ==> k in FreeSlots(s))
  {
    hide FreeSlots, Offers, OnlyMatch, NoMatch, EndsAt, Chosen;
    FreeAfterCoinbase(m, block, layout);
    var id := m.shortIds[k - 1];
    assert s[FreeSlots(layout)[k - 1]] == Shown(slots[id]);
    if i: nat :| OnlyMatch(pool + extra, shortId, id, i) {
      OnlyMatchFound(m, pool, np, extra, ne, middle, slots, id, i);
    }
    if NoMatch(pool + extra, shortId, id) {
      NoMatchSplit(pool, extra, shortId, id, np, ne);
      PoolOutcome(pool[..np], shortId, id, block[k]);
      ExtraOutcome(middle[id], extra[..ne], shortId, id, block[k]);
      FreeListed(s, k);
    }
  }

  lemma NoMatchSplit(pool: seq<Candidate>, extra: seq<Candidate>, shortId: int -> nat, id: nat, np: nat, ne: nat)
    requires NoMatch(pool + extra, shortId, id) && np <= |pool| && ne <= |extra|
    ensures NoMatch(pool[..np], shortId, id) && NoMatch(extra[..ne], shortId, id)
  {
    var all := pool + extra;
    forall j | 0 <= j < np ensures !Matches(pool[..np][j], shortId, id) { assert all[j] == pool[j]; }
    forall j | 0 <= j < ne ensures !Matches(extra[..ne][j], shortId, id) { assert all[|pool| + j] == extra[j]; }
  }

  lemma FirstAvailable(m: Message, block: seq<Tx>, layout: seq<Option<Tx>>, slots: map<nat, Slot>, s: seq<Option<Tx>>)
    requires |block| > 0 && m.prefilled == [Prefilled(0, block[0])] && |m.shortIds| == |block| - 1 && Laid(m, layout) && Shows(m, layout, slots, s)
    ensures 0 !in FreeSlots(s)
  {
    hide FreeSlots;
    FreeAfterCoinbase(m, block, layout);
  }

  /**
   * A whole relay: announce, reconstruct from the pools, request what is missing with
   * differentially encoded indexes, and fill. It fails only on a short id collision within the
   * block or a crowded bucket; otherwise the receiver ends up with the sender's block.
   */
  method Relay(header: Header, block: seq<Tx>, shortId: int -> nat, useWtxid: bool, pool: seq<Candidate>, extra: seq<Candidate>,
               crowded: nat -> bool, check: seq<Tx> -> Verdict) returns (status: Status, rebuilt: seq<Tx>, requested: seq<nat>)
    requires header.Header? && 0 < |block| <= MAX_INDEX && !block[0].isNull && check(block) == Good
    requires Faithful(block, shortId, useWtxid, pool) && Faithful(block, shortId, useWtxid, extra)
    ensures status == Ok ==> rebuilt == block
    ensures status == Ok <==> (forall i, j :: 1 <= i < j < |block| ==> shortId(AnnouncedHash(block[i], useWtxid)) != shortId(AnnouncedHash(block[j], useWtxid)))
                              && forall i :: 0 <= i < |block| - 1 ==> !crowded(i)
    ensures status == Ok || status == Failed
    ensures status == Ok ==> 0 !in requested && forall k :: 1 <= k < |block| ==>
              var id := shortId(AnnouncedHash(block[k], useWtxid));
              && ((exists i: nat :: OnlyMatch(pool + extra, shortId, id, i)) ==> k !in requested)
              && (NoMatch(pool + extra, shortId, id) ==> k in requested)
  {
    hide FreeSlots, Faithful, Scanned, EndsAt, Shows, ShowsChosen, Found, Sum, OnlyMatch, NoMatch;
    var m := Announce(header, block, shortId, useWtxid);
    AnnouncementAcceptable(m, header, block, shortId, useWtxid);
    var partial := new PartialBlock();
    rebuilt, requested := [], [];
    ghost var layout, middle, slots, np, ne;
    status, layout, middle, slots, np, ne := partial.InitData(m, pool, extra, crowded);
    if status != Ok {
      return;
    }
    AvailableIsRight(m, header, block, shortId, useWtxid, pool, extra, layout, middle, slots, np, ne, partial.txnAvailable);
    FilledIsBlock(partial.txnAvailable, block);
    requested := partial.Request();
    forall k | 1 <= k < |block| {
      RequestedExactly(m, header, block, shortId, useWtxid, pool, extra, layout, middle, slots, np, ne, partial.txnAvailable, k);
    }
    FirstAvailable(m, block, layout, slots, partial.txnAvailable);
    var received := Transfer(requested, |block|);
    var txn := SendBlockTransactions(block, received);
    assert txn.Some?;
    status, rebuilt := partial.FillBlock(txn.value, check);
  }

  lemma AnnouncementAcceptable(m: Message, header: Header, block: seq<Tx>, shortId: int -> nat, useWtxid: bool)
    requires header.Header? && 0 < |block| <= MAX_INDEX && !block[0].isNull && Announces(m, header, block, shortId, useWtxid)
    ensures Readable(m) && Acceptable(m)
    ensures Distinct(m.shortIds) <==> forall i, j :: 1 <= i < j < |block| ==> shortId(AnnouncedHash(block[i], useWtxid)) != shortId(AnnouncedHash(block[j], useWtxid))
  {
    if Distinct(m.shortIds) {
      forall i, j | 1 <= i < j < |block| ensures shortId(AnnouncedHash(block[i], useWtxid)) != shortId(AnnouncedHash(block[j], useWtxid)) {
        assert m.shortIds[i - 1] != m.shortIds[j - 1];
      }
    }
  }

  /** An index list on its way from the receiver to the sender. */
  method Transfer(indexes: seq<nat>, n: nat) returns (received: seq<nat>)
    requires n <= MAX_INDEX && (forall i :: 0 <= i < |indexes| ==> indexes[i] < n) && forall i, j :: 0 <= i < j < |indexes| ==> indexes[i] < indexes[j]
    ensures received == indexes
  {
    hide Sum;
    var d := WriteIndexes(indexes);
    assert d.Some?;
    forall i | 0 <= i < |indexes| ensures Sum(d.value, i) == indexes[i] {
      SumOfDifferences(indexes, d.value, i);
    }
    var r := ReadIndexes(d.value, MAX_INDEX);
    assert r.Some?;
    received := r.value;
  }
}
