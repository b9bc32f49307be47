/** The block under reconstruction as an object, and a whole relay of a block between two peers. */
module CompactBlockObject {
  import opened Common
  import opened CompactBlocks

  /** What CheckBlock says about a completed block. */
  datatype Verdict = Good | Mutated | Bad

  ghost predicate DistinctTo(s: seq<nat>, n: nat)
    requires n <= |s|
  {
    forall i, j :: 0 <= i < j < n ==> s[i] != s[j]
  }

  /** No two short ids collide. */
  ghost predicate Distinct(s: seq<nat>) {
    DistinctTo(s, |s|)
  }

  ghost function Seen(s: seq<nat>, n: nat): set<nat>
    requires n <= |s|
  {
    if n == 0 then {} else Seen(s, n - 1) + {s[n - 1]}
  }

  lemma {:induction false} SeenIff(s: seq<nat>, n: nat, x: nat)
    requires n <= |s|
    ensures x in Seen(s, n) <==> exists i :: 0 <= i < n && s[i] == x
  {
    if n > 0 { SeenIff(s, n - 1, x); }
  }

  /** A map of n short ids has n entries exactly when they are distinct. */
  lemma {:induction false} SeenSize(s: seq<nat>, n: nat)
    requires n <= |s|
    ensures |Seen(s, n)| <= n && (|Seen(s, n)| == n <==> DistinctTo(s, n))
  {
    if n > 0 {
      SeenSize(s, n - 1);
      SeenIff(s, n - 1, s[n - 1]);
      if s[n - 1] in Seen(s, n - 1) {
        assert forall x :: x in Seen(s, n) <==> x in Seen(s, n - 1);
        assert Seen(s, n) == Seen(s, n - 1);
      }
    }
  }

  /** Prefilled transactions at their positions, and a free slot for every short id. */
  ghost predicate Laid(m: Message, s: seq<Option<Tx>>) {
    && |s| == TxCount(m)
    && |FreeSlots(s)| == |m.shortIds|
    && forall i :: 0 <= i < |m.prefilled| ==> Position(m.prefilled, i) < |s| && s[Position(m.prefilled, i)] == Some(m.prefilled[i].tx)
  }

  /** The first n prefilled transactions are in place and nothing else; the next one is refused. */
  ghost predicate RefusedAt(m: Message, s: seq<Option<Tx>>, n: nat) {
    && n < |m.prefilled| && !PrefilledOk(m, n) && |s| == TxCount(m) && |FreeSlots(s)| == TxCount(m) - n
    && forall i :: 0 <= i < n ==> PrefilledOk(m, i) && Position(m.prefilled, i) < |s| && s[Position(m.prefilled, i)] == Some(m.prefilled[i].tx)
  }

  /** The i-th short id is looked up at the i-th free slot. */
  ghost predicate SlotMap(m: Message, s: seq<Option<Tx>>, ids: map<nat, nat>) {
    && |FreeSlots(s)| == |m.shortIds|
    && (forall id :: id in ids <==> id in m.shortIds)
    && forall i :: 0 <= i < |m.shortIds| ==> ids[m.shortIds[i]] == FreeSlots(s)[i]
  }

  /** Before the scans every short id wants a transaction. */
  ghost function Wanted(m: Message): map<nat, Slot> {
    map id | id in m.shortIds :: Empty
  }

  function Shown(s: Slot): Option<Tx> {
    if s.Has? then Some(s.tx) else None
  }

  /** Prefilled positions are as laid out, the i-th free slot shows the state of the i-th short id. */
  ghost predicate Shows(m: Message, layout: seq<Option<Tx>>, slots: map<nat, Slot>, s: seq<Option<Tx>>) {
    && |s| == |layout| && |FreeSlots(layout)| == |m.shortIds|
    && (forall k :: 0 <= k < |s| && layout[k].Some? ==> s[k] == layout[k])
    && forall i :: 0 <= i < |m.shortIds| ==> m.shortIds[i] in slots && s[FreeSlots(layout)[i]] == Shown(slots[m.shortIds[i]])
  }

  /** A mutated block is asked for again in full; a bad one is refused. */
  function Outcome(v: Verdict): (r: Status)
    ensures (r == Ok <==> v == Good) && (r == Failed <==> v == Mutated) && (r == CheckBlockFailed <==> v == Bad)
  {
    match v
    case Good => Ok
    case Mutated => Failed
    case Bad => CheckBlockFailed
  }

  /** The vectors txn_available and have_txn show exactly the state of every wanted slot. */
  ghost predicate Reflects(ids: map<nat, nat>, s: seq<Option<Tx>>, have: seq<bool>, slots: map<nat, Slot>) {
    && |have| == |s|
    && (forall id :: id in ids <==> id in slots)
    && (forall id :: id in ids ==>
          var k := ids[id];
          k < |s| && have[k] == !slots[id].Empty? && s[k] == (if slots[id].Has? then Some(slots[id].tx) else None))
    && forall id, id' :: id in ids && id' in ids && id != id' ==> ids[id] != ids[id']
  }

  ghost function Found(slots: map<nat, Slot>): set<nat> {
    set id | id in slots && slots[id].Has?
  }

  /** The slots after the first n candidates. */
  ghost predicate Scanned(slots: map<nat, Slot>, before: map<nat, Slot>, cands: seq<Candidate>, n: nat, shortId: int -> nat, strict: bool) {
    && n <= |cands|
    && (forall id :: id in slots <==> id in before)
    && forall id :: id in slots ==> slots[id] == Offers(before[id], cands[..n], shortId, id, strict)
  }

  /** Whether some wanted slot is unfilled after the first n candidates. */
  ghost predicate Unfinished(before: map<nat, Slot>, cands: seq<Candidate>, n: nat, shortId: int -> nat, strict: bool)
    requires n <= |cands|
  {
    exists id :: id in before && !Offers(before[id], cands[..n], shortId, id, strict).Has?
  }

  /** A scan ends at the first candidate after which every wanted slot is filled, or at the end of the list. */
  ghost predicate EndsAt(before: map<nat, Slot>, cands: seq<Candidate>, n: nat, shortId: int -> nat, strict: bool)
    requires n <= |cands|
  {
    && (forall j :: 0 < j < n ==> Unfinished(before, cands, j, shortId, strict))
    && (n < |cands| ==> n > 0 && !Unfinished(before, cands, n, shortId, strict))
  }

  lemma FoundAll(slots: map<nat, Slot>)
    ensures |Found(slots)| <= |slots|
    ensures |Found(slots)| == |slots| <==> forall id :: id in slots ==> slots[id].Has?
  {
    SubsetSize(Found(slots), slots.Keys);
    assert |slots.Keys| == |slots|;
    if |Found(slots)| == |slots| {
      forall id | id in slots ensures slots[id].Has? {
        assert id in slots.Keys && id in Found(slots);
      }
    }
    if forall id :: id in slots ==> slots[id].Has? {
      assert forall id :: id in Found(slots) <==> id in slots.Keys;
      assert Found(slots) == slots.Keys;
    }
  }

  lemma FoundUpdate(slots: map<nat, Slot>, id: nat, s: Slot)
    requires id in slots
    ensures |Found(slots[id := s])| == |Found(slots)| - (if slots[id].Has? then 1 else 0) + (if s.Has? then 1 else 0)
  {
    var rest := Found(slots) - {id};
    var after := Found(slots[id := s]);
    assert forall x :: x in after <==> x in (if s.Has? then rest + {id} else rest);
    assert after == if s.Has? then rest + {id} else rest;
    assert slots[id].Has? ==> Found(slots) == rest + {id};
    assert !slots[id].Has? ==> Found(slots) == rest;
  }

  /** The i-th free slot shows exactly what the candidates scanned choose for the i-th short id. */
  ghost predicate ShowsChosen(m: Message, layout: seq<Option<Tx>>, s: seq<Option<Tx>>, pool: seq<Candidate>, extra: seq<Candidate>) {
    && |s| == |layout| && |FreeSlots(layout)| == |m.shortIds|
    && forall i, tx :: 0 <= i < |m.shortIds| ==> (s[FreeSlots(layout)[i]] == Some(tx) <==> Chosen(pool, extra, m.shortId, m.shortIds[i], tx))
  }

  lemma SlotsChosen(m: Message, layout: seq<Option<Tx>>, s: seq<Option<Tx>>, pool: seq<Candidate>, np: nat, extra: seq<Candidate>, ne: nat,
                    middle: map<nat, Slot>, slots: map<nat, Slot>)
    requires Shows(m, layout, slots, s)
    requires Scanned(middle, Wanted(m), pool, np, m.shortId, true) && Scanned(slots, middle, extra, ne, m.shortId, false)
    ensures ShowsChosen(m, layout, s, pool[..np], extra[..ne])
  {
    hide FreeSlots, Offers, Chosen;
    forall i, tx | 0 <= i < |m.shortIds| ensures s[FreeSlots(layout)[i]] == Some(tx) <==> Chosen(pool[..np], extra[..ne], m.shortId, m.shortIds[i], tx) {
      BothOutcomes(pool[..np], extra[..ne], m.shortId, m.shortIds[i], tx);
    }
  }

  /** One match among all candidates is enough: neither scan ends before it without having found it. */
  lemma OnlyMatchFound(m: Message, pool: seq<Candidate>, np: nat, extra: seq<Candidate>, ne: nat, middle: map<nat, Slot>, slots: map<nat, Slot>, id: nat, i: nat)
    requires Scanned(middle, Wanted(m), pool, np, m.shortId, true) && EndsAt(Wanted(m), pool, np, m.shortId, true)
    requires Scanned(slots, middle, extra, ne, m.shortId, false) && EndsAt(middle, extra, ne, m.shortId, false)
    requires id in m.shortIds && OnlyMatch(pool + extra, m.shortId, id, i)
    ensures slots[id].Has?
  {
    hide Offers, OnlyIs, FirstIs, NoMatch, SameWitness;
    var all := pool + extra;
    var tx := all[i].tx;
    BothOutcomes(pool[..np], extra[..ne], m.shortId, id, tx);
    MatchSplit(pool, extra, m.shortId, id, i, np, ne);
    if i < |pool| {
      if i >= np { PoolOutcome(pool[..np], m.shortId, id, tx); }
    } else if i - |pool| >= ne {
      PoolOutcome(pool[..np], m.shortId, id, tx);
      ExtraOutcome(middle[id], extra[..ne], m.shortId, id, tx);
    }
  }

  lemma MatchSplit(pool: seq<Candidate>, extra: seq<Candidate>, shortId: int -> nat, id: nat, i: nat, np: nat, ne: nat)
    requires OnlyMatch(pool + extra, shortId, id, i) && np <= |pool| && ne <= |extra|
    ensures var tx := (pool + extra)[i].tx;
            && (i < |pool| ==> NoMatch(extra[..ne], shortId, id) && SameWitness(extra[..ne], shortId, id, tx.wtxid))
            && (i < np ==> OnlyIs(pool[..np], shortId, id, tx))
            && (i >= np ==> NoMatch(pool[..np], shortId, id))
            && (|pool| <= i < |pool| + ne ==> FirstIs(extra[..ne], shortId, id, tx) && SameWitness(extra[..ne], shortId, id, tx.wtxid))
            && (i >= |pool| + ne ==> NoMatch(extra[..ne], shortId, id))
  {
    var all := pool + extra;
    forall j | 0 <= j < np && j != i ensures !Matches(pool[..np][j], shortId, id) { assert all[j] == pool[j]; }
    forall j | 0 <= j < ne && |pool| + j != i ensures !Matches(extra[..ne][j], shortId, id) { assert all[|pool| + j] == extra[j]; }
    if i < np {
      assert OnlyMatch(pool[..np], shortId, id, i);
    } else if |pool| <= i < |pool| + ne {
      assert FirstMatch(extra[..ne], shortId, id, i - |pool|);
    }
  }

  class PartialBlock {
    var header: Header
    var txnAvailable: seq<Option<Tx>>
    var prefilledCount: nat
    var mempoolCount: nat

    constructor ()
      ensures header == NullHeader && txnAvailable == [] && prefilledCount == 0 && mempoolCount == 0
    {
      header, txnAvailable, prefilledCount, mempoolCount := NullHeader, [], 0, 0;
    }

    /** The first loop of InitData: prefilled transactions go to distinct, increasing positions. */
    method PlacePrefilled(m: Message) returns (ok: bool, ghost bad: nat)
      requires txnAvailable == seq(TxCount(m), _ => None) && Readable(m)
      modifies this`txnAvailable
      ensures ok <==> forall i :: 0 <= i < |m.prefilled| ==> PrefilledOk(m, i)
      ensures ok ==> Laid(m, txnAvailable)
      ensures !ok ==> RefusedAt(m, txnAvailable, bad)
    {
      hide FreeSlots, Position;
      var last := -1;
      AllFree(txnAvailable);
      for i := 0 to |m.prefilled|
        invariant last == (if i == 0 then -1 else Position(m.prefilled, i - 1)) && last < TxCount(m)
        invariant |txnAvailable| == TxCount(m) && |FreeSlots(txnAvailable)| == TxCount(m) - i
        invariant forall k :: last < k < |txnAvailable| ==> txnAvailable[k] == None
        invariant forall j :: 0 <= j < i ==> PrefilledOk(m, j)
        invariant forall j :: 0 <= j < i ==> Position(m.prefilled, j) <= last
        invariant forall j :: 0 <= j < i ==> txnAvailable[Position(m.prefilled, j)] == Some(m.prefilled[j].tx)
      {
        if m.prefilled[i].tx.isNull {
          assert !PrefilledOk(m, i);
          return false, i;
        }
        PositionStep(m.prefilled, i);
        last := last + m.prefilled[i].index + 1;
        if last > MAX_INDEX {
          assert !PrefilledOk(m, i);
          return false, i;
        }
        if last > |m.shortIds| + i {
          assert !PrefilledOk(m, i);
          return false, i;
        }
        FillOne(txnAvailable, last, m.prefilled[i].tx);
        txnAvailable := txnAvailable[last := Some(m.prefilled[i].tx)];
      }
      return true, 0;
    }

    /**
     * The second loop: short ids take the free slots in order, never leaving the vector and never
     * exceeding 16 bits. crowded stands for the bucket size test of the hash map.
     */
    method AssignSlots(m: Message, crowded: nat -> bool) returns (status: Status, ids: map<nat, nat>)
      requires Readable(m) && Laid(m, txnAvailable)
      ensures status == Ok <==> Distinct(m.shortIds) && forall i :: 0 <= i < |m.shortIds| ==> !crowded(i)
      ensures status == Ok || status == Failed
      ensures status == Ok ==> SlotMap(m, txnAvailable, ids) && |ids| == |m.shortIds|
    {
      hide FreeSlots, Seen, Position;
      ids := map[];
      var offset: nat := 0;
      ghost var s, free, n := txnAvailable, FreeSlots(txnAvailable), |m.shortIds|;
      FreeNone(s);
      SeenStart(m.shortIds);
      for i := 0 to |m.shortIds|
        invariant i + offset <= |s| && |FreeSlots(s[..i + offset])| == i
        invariant forall j :: 0 <= j < i ==> !crowded(j)
        invariant ids.Keys == Seen(m.shortIds, i)
        invariant DistinctTo(m.shortIds, i) ==> forall j :: 0 <= j < i ==> m.shortIds[j] in ids && ids[m.shortIds[j]] == free[j]
      {
        offset := SkipTaken(i, offset);
        assert i + offset <= MAX_INDEX;
        var id := m.shortIds[i];
        SeenStep(m.shortIds, i, ids, i + offset);
        ids := ids[id := i + offset];
        if crowded(i) {
          return Failed, ids;
        }
      }
      SeenSize(m.shortIds, n);
      if |ids| != |m.shortIds| {
        return Failed, ids;
      }
      SeenAll(m.shortIds);
      return Ok, ids;
    }

    /**
     * One scan over candidates, with its early exit. The counter is the number of filled slots, so
     * it never drops below zero, and each slot is in the state its own candidates put it in.
     */
    method Scan(shortId: int -> nat, ids: map<nat, nat>, cands: seq<Candidate>, have: array<bool>, strict: bool, ghost before: map<nat, Slot>)
        returns (ghost slots: map<nat, Slot>, ghost n: nat)
      requires Reflects(ids, txnAvailable, have[..], before) && mempoolCount == |Found(before)|
      modifies this`txnAvailable, this`mempoolCount, have
      ensures Reflects(ids, txnAvailable, have[..], slots) && mempoolCount == |Found(slots)|
      ensures Scanned(slots, before, cands, n, shortId, strict) && EndsAt(before, cands, n, shortId, strict)
      ensures |txnAvailable| == |old(txnAvailable)| && forall k :: 0 <= k < |txnAvailable| && k !in ids.Values ==> txnAvailable[k] == old(txnAvailable)[k]
    {
      hide Offers, Found, Offer, Reflects, Unfinished;
      slots, n := before, 0;
      ScanStart(before, cands, shortId, strict);
      for i := 0 to |cands|
        invariant n == i && Reflects(ids, txnAvailable, have[..], slots) && mempoolCount == |Found(slots)|
        invariant Scanned(slots, before, cands, i, shortId, strict)
        invariant forall j :: 0 < j <= i ==> Unfinished(before, cands, j, shortId, strict)
        invariant |txnAvailable| == |old(txnAvailable)| && forall k :: 0 <= k < |txnAvailable| && k !in ids.Values ==> txnAvailable[k] == old(txnAvailable)[k]
      {
        var id := shortId(cands[i].hash);
        ScanStep(slots, before, cands, i, shortId, strict);
        ReflectsKeys(ids, txnAvailable, have[..], slots);
        n := i + 1;
        if id in ids {
          slots := OfferTo(id, ids, cands[i].tx, have, strict, slots);
        }
        FoundAll(slots);
        AllFilled(slots, before, cands, n, shortId, strict);
        if mempoolCount == |ids| {
          break;
        }
      }
    }

    /** One matching candidate: take it, or give the slot up. */
    method OfferTo(id: nat, ids: map<nat, nat>, tx: Tx, have: array<bool>, strict: bool, ghost slots: map<nat, Slot>)
        returns (ghost after: map<nat, Slot>)
      requires Reflects(ids, txnAvailable, have[..], slots) && id in ids && id in slots && mempoolCount == |Found(slots)|
      modifies this`txnAvailable, this`mempoolCount, have
      ensures after == slots[id := Offer(slots[id], tx, strict)]
      ensures Reflects(ids, txnAvailable, have[..], after) && mempoolCount == |Found(after)|
      ensures |txnAvailable| == |old(txnAvailable)| && forall k :: 0 <= k < |txnAvailable| && k != ids[id] ==> txnAvailable[k] == old(txnAvailable)[k]
    {
      hide Found;
      after := slots[id := Offer(slots[id], tx, strict)];
      FoundUpdate(slots, id, Offer(slots[id], tx, strict));
      if slots[id].Has? { FoundHas(slots, id); }
      var k := ids[id];
      if !have[k] {
        txnAvailable := txnAvailable[k := Some(tx)];
        have[k] := true;
        mempoolCount := mempoolCount + 1;
      } else if txnAvailable[k].Some? && (strict || txnAvailable[k].value.wtxid != tx.wtxid) {
        txnAvailable := txnAvailable[k := None];
        mempoolCount := mempoolCount - 1;
      }
    }

    /**
     * InitData: invalid exactly when the message is not acceptable, failed exactly on a short id
     * collision or a crowded bucket; else the prefilled transactions and the outcome of the two
     * scans stand in their slots.
     */
    method InitData(m: Message, pool: seq<Candidate>, extra: seq<Candidate>, crowded: nat -> bool)
        returns (status: Status, ghost layout: seq<Option<Tx>>, ghost middle: map<nat, Slot>, ghost slots: map<nat, Slot>, ghost np: nat, ghost ne: nat)
      requires header == NullHeader && txnAvailable == [] && mempoolCount == 0 && Readable(m)
      modifies this
      ensures status == Invalid <==> !Acceptable(m)
      ensures status == Failed <==> Acceptable(m) && !(Distinct(m.shortIds) && forall i :: 0 <= i < |m.shortIds| ==> !crowded(i))
      ensures status == Ok || status == Invalid || status == Failed
      ensures status == Invalid && (m.header == NullHeader || !(0 < TxCount(m) <= MAX_TRANSACTIONS)) ==> header == NullHeader && txnAvailable == []
      ensures status == Invalid && m.header.Header? && 0 < TxCount(m) <= MAX_TRANSACTIONS ==> header == m.header && exists n :: RefusedAt(m, txnAvailable, n)
      ensures status == Invalid ==> mempoolCount == 0 && prefilledCount == old(prefilledCount)
      ensures status == Failed ==> Laid(m, txnAvailable) && mempoolCount == 0
      ensures status == Ok || status == Failed ==> header == m.header && prefilledCount == |m.prefilled|
      ensures status == Ok ==> Laid(m, layout) && Shows(m, layout, slots, txnAvailable) && mempoolCount == |Found(slots)|
      ensures status == Ok ==> Scanned(middle, Wanted(m), pool, np, m.shortId, true) && EndsAt(Wanted(m), pool, np, m.shortId, true)
      ensures status == Ok ==> Scanned(slots, middle, extra, ne, m.shortId, false) && EndsAt(middle, extra, ne, m.shortId, false)
      ensures status == Ok ==> ShowsChosen(m, layout, txnAvailable, pool[..np], extra[..ne])
    {
      hide FreeSlots, Position, Offers, Found, Unfinished, Reflects, Distinct, SlotMap, Shows, RefusedAt, ShowsChosen;
      layout, middle, slots, np, ne := [], map[], map[], 0, 0;
      if m.header == NullHeader || (m.shortIds == [] && m.prefilled == []) {
        return Invalid, layout, middle, slots, np, ne;
      }
      if |m.shortIds| + |m.prefilled| > MAX_TRANSACTIONS {
        return Invalid, layout, middle, slots, np, ne;
      }
      header := m.header;
      txnAvailable := seq(TxCount(m), _ => None);
      var ok;
      ghost var bad;
      ok, bad := PlacePrefilled(m);
      if !ok {
        return Invalid, layout, middle, slots, np, ne;
      }
      prefilledCount := |m.prefilled|;
      layout := txnAvailable;
      var ids;
      status, ids := AssignSlots(m, crowded);
      if status == Failed {
        return status, layout, middle, slots, np, ne;
      }
      var have := new bool[|txnAvailable|](_ => false);
      WantedReflects(m, layout, ids, have[..]);
      middle, np := Scan(m.shortId, ids, pool, have, true, Wanted(m));
      slots, ne := Scan(m.shortId, ids, extra, have, false, middle);
      ShowsSlots(m, layout, ids, txnAvailable, have[..], slots);
      SlotsChosen(m, layout, txnAvailable, pool, np, extra, ne, middle, slots);
    }

    predicate IsTxAvailable(index: nat)
      requires header.Header? && index < |txnAvailable|
      reads this
    {
      txnAvailable[index].Some?
    }

    /** The request a receiver sends: the positions that are not available, in order. */
    method Request() returns (indexes: seq<nat>)
      requires header.Header?
      ensures indexes == FreeSlots(txnAvailable)
    {
      hide FreeSlots;
      indexes := [];
      FreeNone(txnAvailable);
      for i := 0 to |txnAvailable|
        invariant indexes == FreeSlots(txnAvailable[..i])
      {
        FreeStep(txnAvailable, i);
        if !IsTxAvailable(i) {
          indexes := indexes + [i];
        }
      }
      assert txnAvailable[..|txnAvailable|] == txnAvailable;
    }

    /**
     * FillBlock: with exactly as many transactions as are missing the block is completed and
     * checked; with too few or too many it is invalid. Either way the positions filled hold the
     * available transactions and the supplied ones in order. After too few, the transactions before the
     * first position left empty have been moved out; otherwise the object cannot be used again.
     */
    method FillBlock(missing: seq<Tx>, check: seq<Tx> -> Verdict) returns (status: Status, block: seq<Tx>)
      requires header.Header?
      modifies this
      ensures var was, need := old(txnAvailable), |FreeSlots(old(txnAvailable))|;
              && (status == Invalid <==> |missing| != need)
              && (|missing| == need ==> block == Filled(was, missing) && status == Outcome(check(block)))
              && |block| == (if |missing| < need then FreeSlots(was)[|missing|] else |was|)
              && (forall k :: 0 <= k < |block| ==> InPlace(was, missing, k, block[k]))
              && (|missing| < need ==> header == old(header) && |txnAvailable| == |was|)
              && (|missing| < need ==> forall k :: 0 <= k < |was| ==> txnAvailable[k] == if k < FreeSlots(was)[|missing|] then None else was[k])
              && (|missing| >= need ==> header == NullHeader && txnAvailable == [])
      ensures mempoolCount == old(mempoolCount) && prefilledCount == old(prefilledCount)
    {
      hide FreeSlots;
      ghost var was := txnAvailable;
      block := [];
      var offset := 0;
      FreeNone(was);
      for i := 0 to |txnAvailable|
        invariant |txnAvailable| == |was| && |block| == i && offset == |FreeSlots(was[..i])| <= |missing|
        invariant header == old(header) && mempoolCount == old(mempoolCount) && prefilledCount == old(prefilledCount)
        invariant forall k :: 0 <= k < |was| ==> txnAvailable[k] == if k < i then None else was[k]
        invariant forall k :: 0 <= k < i ==> InPlace(was, missing, k, block[k])
      {
        FreeStep(was, i);
        if txnAvailable[i] == None {
          FreeListed(was, i);
          if |missing| <= offset {
            return Invalid, block;
          }
          block := block + [missing[offset]];
          offset := offset + 1;
        } else {
          block := block + [txnAvailable[i].value];
          txnAvailable := txnAvailable[i := None];
        }
      }
      assert was[..|was|] == was;
      header, txnAvailable := NullHeader, [];
      if |missing| != offset {
        return Invalid, block;
      }
      InPlaceFilled(was, missing, block);
      return Outcome(check(block)), block;
    }

    /** The inner loop: skip taken positions; a free one lies ahead. */
    method SkipTaken(i: nat, offset: nat) returns (r: nat)
      requires i + offset <= |txnAvailable| && |FreeSlots(txnAvailable[..i + offset])| == i < |FreeSlots(txnAvailable)|
      ensures i + r < |txnAvailable| && FreeSlots(txnAvailable)[i] == i + r
      ensures |FreeSlots(txnAvailable[..i + 1 + r])| == i + 1
    {
      hide FreeSlots;
      r := offset;
      NotFull(txnAvailable, i + r);
      while txnAvailable[i + r].Some?
        invariant i + r < |txnAvailable| && |FreeSlots(txnAvailable[..i + r])| == i
        decreases |txnAvailable| - r
      {
        FreeStep(txnAvailable, i + r);
        NotFull(txnAvailable, i + r + 1);
        r := r + 1;
      }
      FreeStep(txnAvailable, i + r);
      FreeListed(txnAvailable, i + r);
      assert i + 1 + r == i + r + 1;
    }
  }

  lemma ScanStart(before: map<nat, Slot>, cands: seq<Candidate>, shortId: int -> nat, strict: bool)
    ensures Scanned(before, before, cands, 0, shortId, strict)
  {
  }

  lemma ScanStep(slots: map<nat, Slot>, before: map<nat, Slot>, cands: seq<Candidate>, i: nat, shortId: int -> nat, strict: bool)
    requires Scanned(slots, before, cands, i, shortId, strict) && i < |cands|
    ensures var id := shortId(cands[i].hash);
            Scanned(if id in slots then slots[id := Offer(slots[id], cands[i].tx, strict)] else slots, before, cands, i + 1, shortId, strict)
  {
    hide Offers, Offer;
    forall id | id in slots {
      OffersStep(before[id], cands, i, shortId, id, strict);
    }
  }

  lemma AllFilled(slots: map<nat, Slot>, before: map<nat, Slot>, cands: seq<Candidate>, n: nat, shortId: int -> nat, strict: bool)
    requires Scanned(slots, before, cands, n, shortId, strict)
    ensures Unfinished(before, cands, n, shortId, strict) <==> !(forall id :: id in slots ==> slots[id].Has?)
  {
    hide Offers;
  }

  lemma ReflectsKeys(ids: map<nat, nat>, s: seq<Option<Tx>>, have: seq<bool>, slots: map<nat, Slot>)
    requires Reflects(ids, s, have, slots)
    ensures |ids| == |slots| && forall id :: id in ids <==> id in slots
  {
    assert forall id :: id in ids.Keys <==> id in slots.Keys;
    assert ids.Keys == slots.Keys;
  }

  lemma FoundHas(slots: map<nat, Slot>, id: nat)
    requires id in slots && slots[id].Has?
    ensures |Found(slots)| > 0
  {
    assert id in Found(slots);
  }

  /** Before the scans nothing is found, and different short ids have different slots. */
  lemma WantedReflects(m: Message, layout: seq<Option<Tx>>, ids: map<nat, nat>, have: seq<bool>)
    requires SlotMap(m, layout, ids) && |have| == |layout| && forall k :: 0 <= k < |have| ==> !have[k]
    ensures Reflects(ids, layout, have, Wanted(m)) && |Found(Wanted(m))| == 0
  {
    hide FreeSlots;
    var free := FreeSlots(layout);
    forall id | id in ids ensures ids[id] < |layout| && layout[ids[id]] == None {
      var i :| 0 <= i < |m.shortIds| && m.shortIds[i] == id;
      assert ids[id] == free[i];
    }
    forall id, id' | id in ids && id' in ids && id != id' ensures ids[id] != ids[id'] {
      var i :| 0 <= i < |m.shortIds| && m.shortIds[i] == id;
      var j :| 0 <= j < |m.shortIds| && m.shortIds[j] == id';
      assert ids[id] == free[i] && ids[id'] == free[j];
    }
    assert forall id :: id !in Found(Wanted(m));
    assert Found(Wanted(m)) == {};
  }

  lemma ShowsSlots(m: Message, layout: seq<Option<Tx>>, ids: map<nat, nat>, s: seq<Option<Tx>>, have: seq<bool>, slots: map<nat, Slot>)
    requires SlotMap(m, layout, ids) && Reflects(ids, s, have, slots) && |s| == |layout|
    requires forall k :: 0 <= k < |s| && k !in ids.Values ==> s[k] == layout[k]
    ensures Shows(m, layout, slots, s)
  {
    hide FreeSlots;
    var free := FreeSlots(layout);
    forall k | 0 <= k < |s| && layout[k].Some? ensures k !in ids.Values {
      forall id | id in ids ensures ids[id] != k {
        var i :| 0 <= i < |m.shortIds| && m.shortIds[i] == id;
        assert ids[id] == free[i];
      }
    }
    forall i | 0 <= i < |m.shortIds| ensures m.shortIds[i] in slots && s[free[i]] == Shown(slots[m.shortIds[i]]) {
      var id := m.shortIds[i];
      assert id in ids && ids[id] == free[i];
    }
  }

  ghost predicate InPlace(was: seq<Option<Tx>>, missing: seq<Tx>, k: nat, tx: Tx)
    requires k < |was|
  {
    if was[k].Some? then tx == was[k].value
    else var n := |FreeSlots(was[..k])|; n < |missing| && tx == missing[n]
  }

  lemma InPlaceFilled(was: seq<Option<Tx>>, missing: seq<Tx>, block: seq<Tx>)
    requires |missing| == |FreeSlots(was)| && |block| == |was| && forall k :: 0 <= k < |was| ==> InPlace(was, missing, k, block[k])
    ensures block == Filled(was, missing)
  {
    hide FreeSlots;
    forall k | 0 <= k < |was| ensures block[k] == Filled(was, missing)[k] {
      assert InPlace(was, missing, k, block[k]);
      assert Filled(was, missing)[k] == FilledAt(was, missing, k);
      if was[k] == None { FreeListed(was, k); }
    }
  }

  lemma PositionStep(p: seq<Prefilled>, i: nat)
    requires i < |p|
    ensures Position(p, i) == (if i == 0 then -1 else Position(p, i - 1)) + p[i].index + 1
  {
  }

  lemma SeenStart(s: seq<nat>)
    ensures Seen(s, 0) == {}
  {
  }

  lemma SeenStep(s: seq<nat>, i: nat, ids: map<nat, nat>, k: nat)
    requires i < |s| && ids.Keys == Seen(s, i)
    ensures ids[s[i] := k].Keys == Seen(s, i + 1)
    ensures DistinctTo(s, i + 1) ==> DistinctTo(s, i) && forall j :: 0 <= j < i ==> s[j] != s[i]
  {
    var after, seen := ids[s[i] := k].Keys, Seen(s, i + 1);
    assert forall x :: x in after <==> x in seen;
  }

  lemma SeenAll(s: seq<nat>)
    ensures forall x: nat :: x in Seen(s, |s|) <==> x in s
  {
    forall x: nat ensures x in Seen(s, |s|) <==> x in s {
      SeenIff(s, |s|, x);
    }
  }

  lemma FreeNone(s: seq<Option<Tx>>)
    ensures FreeSlots(s[..0]) == []
  {
  }

  /** While short ids are left there is a free slot ahead. */
  lemma NotFull(s: seq<Option<Tx>>, k: nat)
    requires k <= |s| && |FreeSlots(s[..k])| < |FreeSlots(s)|
    ensures k < |s|
  {
    assert s[..|s|] == s;
  }
}
