/**
 * Compact block relay (BIP 152): messages, the layout of a block under reconstruction, and what
 * the candidates of the memory pool and the extra pool do to each slot.
 */
module CompactBlocks {
  import opened Common

  /** A transaction with its two hashes. */
  datatype Tx = Tx(txid: int, wtxid: int, isNull: bool)

  /** A pool entry: the hash the pool lists it under, and the transaction. */
  datatype Candidate = Candidate(hash: int, tx: Tx)

  /** A transaction sent in full; index counts from just after the previous one. */
  datatype Prefilled = Prefilled(index: nat, tx: Tx)

  datatype Header = NullHeader | Header(hash: int)

  /** shortId is the keyed 6-byte hash selected by header and nonce. */
  datatype Message = Message(header: Header, shortId: int -> nat, shortIds: seq<nat>, prefilled: seq<Prefilled>)

  datatype Status = Ok | Invalid | Failed | CheckBlockFailed

  /** MAX_BLOCK_WEIGHT / MIN_SERIALIZABLE_TRANSACTION_WEIGHT. */
  const MAX_TRANSACTIONS: nat := 4_000_000 / 40
  const MAX_INDEX: nat := 0xffff

  function TxCount(m: Message): nat {
    |m.shortIds| + |m.prefilled|
  }

  /** What reading a message from the network enforces: 16-bit indexes and a 16-bit count. */
  predicate Readable(m: Message) {
    TxCount(m) <= MAX_INDEX && forall i :: 0 <= i < |m.prefilled| ==> m.prefilled[i].index <= MAX_INDEX
  }

  // ---------- prefilled positions ----------

  /** The position of the i-th prefilled transaction. */
  function Position(p: seq<Prefilled>, i: nat): nat
    requires i < |p|
  {
    if i == 0 then p[0].index else Position(p, i - 1) + p[i].index + 1
  }

  lemma {:induction false} PositionsIncrease(p: seq<Prefilled>, i: nat, j: nat)
    requires i < j < |p|
    ensures Position(p, i) < Position(p, j)
    decreases j
  {
    if i < j - 1 { PositionsIncrease(p, i, j - 1); }
  }

  predicate PrefilledOk(m: Message, i: nat)
    requires i < |m.prefilled|
  {
    !m.prefilled[i].tx.isNull && Position(m.prefilled, i) <= MAX_INDEX && Position(m.prefilled, i) <= |m.shortIds| + i
  }

  /** When InitData does not call the message invalid. */
  predicate Acceptable(m: Message) {
    m.header.Header? && 0 < TxCount(m) <= MAX_TRANSACTIONS && forall i :: 0 <= i < |m.prefilled| ==> PrefilledOk(m, i)
  }

  // ---------- free slots ----------

  /** The positions without a transaction, in order. */
  function FreeSlots(s: seq<Option<Tx>>): (r: seq<nat>)
    ensures |r| <= |s| && forall i :: 0 <= i < |r| ==> r[i] < |s| && s[r[i]] == None
    ensures forall i, j :: 0 <= i < j < |r| ==> r[i] < r[j]
  {
    if s == [] then [] else FreeSlots(s[..|s| - 1]) + if s[|s| - 1] == None then [|s| - 1] else []
  }

  lemma FreeStep(s: seq<Option<Tx>>, k: nat)
    requires k < |s|
    ensures FreeSlots(s[..k + 1]) == FreeSlots(s[..k]) + if s[k] == None then [k] else []
  {
    assert s[..k + 1][..k] == s[..k];
  }

  lemma {:induction false} FreePrefix(s: seq<Option<Tx>>, k: nat)
    requires k <= |s|
    ensures FreeSlots(s[..k]) <= FreeSlots(s)
    decreases |s| - k
  {
    if k == |s| {
      assert s[..k] == s;
    } else {
      FreePrefix(s, k + 1);
      FreeStep(s, k);
    }
  }

  lemma {:induction false} AllFree(s: seq<Option<Tx>>)
    requires forall i :: 0 <= i < |s| ==> s[i] == None
    ensures |FreeSlots(s)| == |s|
  {
    if s != [] { AllFree(s[..|s| - 1]); }
  }

  /** Every empty position is listed. */
  lemma {:induction false} FreeListed(s: seq<Option<Tx>>, k: nat)
    requires k < |s| && s[k] == None
    ensures k in FreeSlots(s) && |FreeSlots(s[..k])| < |FreeSlots(s)| && FreeSlots(s)[|FreeSlots(s[..k])|] == k
  {
    FreePrefix(s, k + 1);
    FreeStep(s, k);
    var i := |FreeSlots(s[..k])|;
    assert FreeSlots(s[..k + 1])[i] == k;
    assert FreeSlots(s)[i] == k;
  }

  /** Filling one empty slot leaves one fewer. */
  lemma {:induction false} FillOne(s: seq<Option<Tx>>, k: nat, tx: Tx)
    requires k < |s| && s[k] == None
    ensures |FreeSlots(s[k := Some(tx)])| == |FreeSlots(s)| - 1
  {
    var n := |s| - 1;
    var t := s[k := Some(tx)];
    if k == n {
      assert t[..n] == s[..n];
    } else {
      FillOne(s[..n], k, tx);
      assert t[..n] == s[..n][k := Some(tx)];
    }
  }

  // ---------- what candidates do to a slot ----------

  /** A slot wanted by a short id: nothing seen, one transaction, or given up after a second. */
  datatype Slot = Empty | Has(tx: Tx) | Conflict

  /** A second candidate empties the slot; one from the extra pool only if its witness hash differs. */
  function Offer(s: Slot, tx: Tx, strict: bool): Slot {
    match s
    case Empty => Has(tx)
    case Has(t) => if strict || t.wtxid != tx.wtxid then Conflict else s
    case Conflict => Conflict
  }

  /** A list of candidates, as one short id sees it. */
  function Offers(s: Slot, cands: seq<Candidate>, shortId: int -> nat, id: nat, strict: bool): Slot {
    if cands == [] then s
    else
      var n := |cands| - 1;
      var before := Offers(s, cands[..n], shortId, id, strict);
      if shortId(cands[n].hash) == id then Offer(before, cands[n].tx, strict) else before
  }

  lemma OffersStep(s: Slot, cands: seq<Candidate>, k: nat, shortId: int -> nat, id: nat, strict: bool)
    requires k < |cands|
    ensures Offers(s, cands[..k + 1], shortId, id, strict) ==
            var before := Offers(s, cands[..k], shortId, id, strict);
            if shortId(cands[k].hash) == id then Offer(before, cands[k].tx, strict) else before
  {
    assert cands[..k + 1][..k] == cands[..k];
  }

  /** A slot only ever shows a transaction that was offered under its short id. */
  lemma {:induction false} OffersGenuine(s: Slot, cands: seq<Candidate>, shortId: int -> nat, id: nat, strict: bool, tx: Tx)
    requires s.Has? ==> s.tx == tx
    requires forall c :: c in cands && shortId(c.hash) == id ==> c.tx == tx
    ensures var r := Offers(s, cands, shortId, id, strict); r.Has? ==> r.tx == tx
  {
    if cands != [] {
      var n := |cands| - 1;
      OffersGenuine(s, cands[..n], shortId, id, strict, tx);
      assert cands[n] in cands;
    }
  }

  // ---------- counting candidates ----------

  predicate Matches(c: Candidate, shortId: int -> nat, id: nat) {
    shortId(c.hash) == id
  }

  ghost predicate NoMatch(cands: seq<Candidate>, shortId: int -> nat, id: nat) {
    forall j :: 0 <= j < |cands| ==> !Matches(cands[j], shortId, id)
  }

  ghost predicate OnlyMatch(cands: seq<Candidate>, shortId: int -> nat, id: nat, i: nat) {
    i < |cands| && Matches(cands[i], shortId, id) && forall j :: 0 <= j < |cands| && j != i ==> !Matches(cands[j], shortId, id)
  }

  ghost predicate FirstMatch(cands: seq<Candidate>, shortId: int -> nat, id: nat, i: nat) {
    i < |cands| && Matches(cands[i], shortId, id) && forall j :: 0 <= j < i ==> !Matches(cands[j], shortId, id)
  }

  /** Every match has this witness hash. */
  ghost predicate SameWitness(cands: seq<Candidate>, shortId: int -> nat, id: nat, wtxid: int) {
    forall j :: 0 <= j < |cands| && Matches(cands[j], shortId, id) ==> cands[j].tx.wtxid == wtxid
  }

  /** There is exactly one match, and it is this transaction. */
  ghost predicate OnlyIs(cands: seq<Candidate>, shortId: int -> nat, id: nat, tx: Tx) {
    exists i: nat :: OnlyMatch(cands, shortId, id, i) && cands[i].tx == tx
  }

  ghost predicate FirstIs(cands: seq<Candidate>, shortId: int -> nat, id: nat, tx: Tx) {
    exists i: nat :: FirstMatch(cands, shortId, id, i) && cands[i].tx == tx
  }

  lemma MatchExtended(init: seq<Candidate>, c: Candidate, shortId: int -> nat, id: nat, tx: Tx)
    ensures var cands := init + [c];
            && (NoMatch(cands, shortId, id) <==> NoMatch(init, shortId, id) && !Matches(c, shortId, id))
            && (SameWitness(cands, shortId, id, tx.wtxid) <==>
                  SameWitness(init, shortId, id, tx.wtxid) && (Matches(c, shortId, id) ==> c.tx.wtxid == tx.wtxid))
  {
    var cands, n := init + [c], |init|;
    assert cands[n] == c && forall j :: 0 <= j < n ==> cands[j] == init[j];
  }

  lemma OnlyExtended(init: seq<Candidate>, c: Candidate, shortId: int -> nat, id: nat, tx: Tx)
    ensures OnlyIs(init + [c], shortId, id, tx) <==>
            if Matches(c, shortId, id) then NoMatch(init, shortId, id) && c.tx == tx else OnlyIs(init, shortId, id, tx)
  {
    var cands, n := init + [c], |init|;
    if i: nat :| OnlyMatch(cands, shortId, id, i) && cands[i].tx == tx {
      if Matches(c, shortId, id) {
        assert cands[n] == c;
        forall j | 0 <= j < n ensures !Matches(init[j], shortId, id) { assert cands[j] == init[j]; }
      } else {
        forall j | 0 <= j < n && j != i ensures !Matches(init[j], shortId, id) { assert cands[j] == init[j]; }
        assert OnlyMatch(init, shortId, id, i);
      }
    }
    if Matches(c, shortId, id) && NoMatch(init, shortId, id) { assert OnlyMatch(cands, shortId, id, n); }
    if i: nat :| !Matches(c, shortId, id) && OnlyMatch(init, shortId, id, i) && init[i].tx == tx { assert OnlyMatch(cands, shortId, id, i); }
  }

  lemma FirstExtended(init: seq<Candidate>, c: Candidate, shortId: int -> nat, id: nat, tx: Tx)
    ensures FirstIs(init + [c], shortId, id, tx) <==>
            FirstIs(init, shortId, id, tx) || (NoMatch(init, shortId, id) && Matches(c, shortId, id) && c.tx == tx)
  {
    var cands, n := init + [c], |init|;
    if i: nat :| FirstMatch(cands, shortId, id, i) && cands[i].tx == tx {
      if i < n {
        forall j | 0 <= j < i ensures !Matches(init[j], shortId, id) { assert cands[j] == init[j]; }
        assert FirstMatch(init, shortId, id, i);
      } else {
        forall j | 0 <= j < n ensures !Matches(init[j], shortId, id) { assert cands[j] == init[j]; }
      }
    }
    if i: nat :| FirstMatch(init, shortId, id, i) && init[i].tx == tx { assert FirstMatch(cands, shortId, id, i); }
    if NoMatch(init, shortId, id) && Matches(c, shortId, id) { assert FirstMatch(cands, shortId, id, n); }
  }


  /** After the pool a slot shows exactly the transaction that is the only match of its short id. */
  lemma {:induction false} PoolOutcome(cands: seq<Candidate>, shortId: int -> nat, id: nat, tx: Tx)
    ensures var r := Offers(Empty, cands, shortId, id, true);
            && (r == Empty <==> NoMatch(cands, shortId, id))
            && (r == Has(tx) <==> OnlyIs(cands, shortId, id, tx))
  {
    hide NoMatch, OnlyIs, SameWitness;
    if cands == [] {
      NothingMatches(shortId, id, tx);
    } else {
      var n := |cands| - 1;
      PoolOutcome(cands[..n], shortId, id, tx);
      assert cands[..n] + [cands[n]] == cands;
      MatchExtended(cands[..n], cands[n], shortId, id, tx);
      OnlyExtended(cands[..n], cands[n], shortId, id, tx);
    }
  }

  lemma NothingMatches(shortId: int -> nat, id: nat, tx: Tx)
    ensures NoMatch([], shortId, id) && !OnlyIs([], shortId, id, tx) && !FirstIs([], shortId, id, tx) && SameWitness([], shortId, id, tx.wtxid)
  {
  }

  /** After the extra pool it shows what was met first, unless a match of another witness hash was met too. */
  lemma {:induction false} ExtraOutcome(s: Slot, cands: seq<Candidate>, shortId: int -> nat, id: nat, tx: Tx)
    ensures var r := Offers(s, cands, shortId, id, false);
            && (r == Empty <==> s == Empty && NoMatch(cands, shortId, id))
            && (r == Has(tx) <==> (s == Has(tx) || (s == Empty && FirstIs(cands, shortId, id, tx))) && SameWitness(cands, shortId, id, tx.wtxid))
  {
    hide NoMatch, FirstIs, SameWitness;
    if cands == [] {
      NothingMatches(shortId, id, tx);
    } else {
      var n := |cands| - 1;
      ExtraOutcome(s, cands[..n], shortId, id, tx);
      assert cands[..n] + [cands[n]] == cands;
      MatchExtended(cands[..n], cands[n], shortId, id, tx);
      FirstExtended(cands[..n], cands[n], shortId, id, tx);
      if NoMatch(cands[..n], shortId, id) { VacuousWitness(cands[..n], shortId, id, tx); }
    }
  }

  lemma VacuousWitness(cands: seq<Candidate>, shortId: int -> nat, id: nat, tx: Tx)
    requires NoMatch(cands, shortId, id)
    ensures SameWitness(cands, shortId, id, tx.wtxid) && !FirstIs(cands, shortId, id, tx)
  {
  }

  /**
   * What stands in a slot after both scans: the only match of the pool, or else the first match of
   * the extra pool; nothing once a second match of the pool or one of another witness hash was met.
   */
  ghost predicate Chosen(pool: seq<Candidate>, extra: seq<Candidate>, shortId: int -> nat, id: nat, tx: Tx) {
    && (OnlyIs(pool, shortId, id, tx) || (NoMatch(pool, shortId, id) && FirstIs(extra, shortId, id, tx)))
    && SameWitness(extra, shortId, id, tx.wtxid)
  }

  lemma BothOutcomes(pool: seq<Candidate>, extra: seq<Candidate>, shortId: int -> nat, id: nat, tx: Tx)
    ensures Offers(Offers(Empty, pool, shortId, id, true), extra, shortId, id, false) == Has(tx) <==> Chosen(pool, extra, shortId, id, tx)
  {
    hide NoMatch, OnlyIs, FirstIs, SameWitness, Offers;
    PoolOutcome(pool, shortId, id, tx);
    ExtraOutcome(Offers(Empty, pool, shortId, id, true), extra, shortId, id, tx);
  }

  // ---------- filling ----------

  function FilledAt(s: seq<Option<Tx>>, missing: seq<Tx>, k: nat): Tx
    requires |missing| == |FreeSlots(s)| && k < |s|
  {
    if s[k].Some? then s[k].value else FreeListed(s, k); missing[|FreeSlots(s[..k])|]
  }

  /** The block: available transactions in place, the missing ones in order in the free slots. */
  function Filled(s: seq<Option<Tx>>, missing: seq<Tx>): (r: seq<Tx>)
    requires |missing| == |FreeSlots(s)|
    ensures |r| == |s|
  {
    seq(|s|, k requires 0 <= k < |s| => FilledAt(s, missing, k))
  }

  /** The transactions of a block at given positions. */
  function Pick(block: seq<Tx>, indexes: seq<nat>): (r: seq<Tx>)
    requires forall i :: 0 <= i < |indexes| ==> indexes[i] < |block|
    ensures |r| == |indexes|
  {
    seq(|indexes|, i requires 0 <= i < |indexes| => block[indexes[i]])
  }

  /** If what is available is right, supplying what is not rebuilds the block. */
  lemma FilledIsBlock(s: seq<Option<Tx>>, block: seq<Tx>)
    requires |s| == |block| && forall k :: 0 <= k < |s| && s[k].Some? ==> s[k].value == block[k]
    ensures Filled(s, Pick(block, FreeSlots(s))) == block
  {
    hide FreeSlots;
    var missing := Pick(block, FreeSlots(s));
    var r := Filled(s, missing);
    forall k | 0 <= k < |s| ensures r[k] == block[k] {
      assert r[k] == FilledAt(s, missing, k);
      if s[k] == None { FreeListed(s, k); }
    }
  }
}
