/** The block-by-block sync with the Bitcoin chain: each round as the list of its row
    writes, whole runs of rounds with lookups failing anywhere, and the loop itself. */
module BlockSync {
  import opened Int64
  import opened SelfTransfer
  import opened TxOrder
  import opened Positions
  import opened BlockTables
  import opened BlockLedger
  import opened Wrappers

  datatype Block = Block(hash: string, time: int, txs: seq<Transaction>)

  /** A fixed Bitcoin chain and the height at which DNN numbering starts. */
  datatype Chain = Chain(genesis: int, blocks: map<int, Block>)

  /** What one round meets: the reported height, the lookups that fail, and the hashes the
      independent REST source reports (none where it fails). */
  datatype Round = Round(height: Option<int>, hashFails: set<int>, blockFails: set<int>, rest: map<int, string>)

  datatype Outcome = HeightFailed | CaughtUp | Diverged(at: int) | Finished

  ghost predicate GoodBlock(h: int, b: Block) {
    InInt64(h) && HasTxids(b.txs) && DistinctTxids(b.txs)
  }

  ghost predicate IdsApart(a: Block, b: Block) {
    Ids(a.txs) !! Ids(b.txs)
  }

  /** 64-digit txids, none of them twice on the chain, and heights that fit an int64. */
  ghost predicate GoodChain(c: Chain) {
    && InInt64(c.genesis - 1)
    && (forall h {:trigger GoodBlock(h, c.blocks[h])} :: h in c.blocks ==> GoodBlock(h, c.blocks[h]))
    && (forall h, k {:trigger IdsApart(c.blocks[h], c.blocks[k])} ::
          h in c.blocks && k in c.blocks && h != k ==> IdsApart(c.blocks[h], c.blocks[k]))
  }

  function EntryOf(b: Block): Entry {
    Entry(b.hash, b.time, Ordered(ValidTxs(b.txs)))
  }

  function LedgerOf(c: Chain): Ledger {
    Ledger(c.genesis, map h | h in c.blocks :: EntryOf(c.blocks[h]))
  }

  lemma EntryIds(b: Block)
    requires HasTxids(b.txs) && DistinctTxids(b.txs)
    ensures DistinctIds(EntryOf(b).valid)
    ensures forall k :: 0 <= k < |EntryOf(b).valid| ==> EntryOf(b).valid[k].txid in Ids(b.txs)
  {
    var v, p := ValidTxs(b.txs), EntryOf(b).valid;
    ValidTxsIds(b.txs);
    ValidTxsEntries(b.txs);
    OrderedSorts(v);
    SamePlacesSameIds(v, p);
    forall k | 0 <= k < |p| ensures p[k].txid in Ids(b.txs) {
      assert p[k] in multiset(p);
      var i :| 0 <= i < |v| && v[i] == p[k];
    }
  }

  lemma LedgerIsGood(c: Chain)
    requires GoodChain(c)
    ensures GoodLedger(LedgerOf(c))
  {
    var l := LedgerOf(c);
    forall h | h in l.blocks ensures InInt64(h) && DistinctIds(l.blocks[h].valid) {
      assert GoodBlock(h, c.blocks[h]);
      EntryIds(c.blocks[h]);
    }
    forall h, k | h in l.blocks && k in l.blocks && h != k ensures NoneShared(l.blocks[h].valid, l.blocks[k].valid) {
      assert GoodBlock(h, c.blocks[h]) && GoodBlock(k, c.blocks[k]) && IdsApart(c.blocks[h], c.blocks[k]);
      EntryIds(c.blocks[h]);
      EntryIds(c.blocks[k]);
    }
  }

  // ----- one round -----

  /** The REST check runs on the first block of a round and on every hundredth; a failing
      REST lookup lets the block pass. */
  predicate Disagrees(l: Ledger, r: Round, first: int, h: int) {
    && h in l.blocks && h !in r.hashFails
    && (h == first || h % 100 == 0) && h in r.rest && r.rest[h] != l.blocks[h].hash
  }

  /** Whether a round stops in front of block h. */
  predicate Stops(l: Ledger, r: Round, first: int, h: int) {
    h !in l.blocks || h in r.hashFails || Disagrees(l, r, first, h) || h in r.blockFails
  }

  ghost predicate NothingStops(l: Ledger, r: Round, first: int, end: int) {
    forall h :: first <= h <= end ==> !Stops(l, r, first, h)
  }

  /** `last` is the last block before the first stop. */
  ghost predicate Reached(l: Ledger, r: Round, first: int, end: int, last: int) {
    first - 1 <= last <= end && NothingStops(l, r, first, last) && (last < end ==> Stops(l, r, first, last + 1))
  }

  function Reach(l: Ledger, r: Round, first: int, h: int, end: int): (last: int)
    requires h <= end + 1
    ensures h - 1 <= last <= end
    decreases end - h + 1
  {
    if h > end || Stops(l, r, first, h) then h - 1 else Reach(l, r, first, h + 1, end)
  }

  lemma {:induction false} ReachPasses(l: Ledger, r: Round, first: int, h: int, end: int)
    requires h <= end + 1
    ensures forall i :: h <= i <= Reach(l, r, first, h, end) ==> !Stops(l, r, first, i)
    ensures Reach(l, r, first, h, end) < end ==> Stops(l, r, first, Reach(l, r, first, h, end) + 1)
    decreases end - h + 1
  {
    if h <= end && !Stops(l, r, first, h) {
      ReachPasses(l, r, first, h + 1, end);
    }
  }

  lemma ReachedOnce(l: Ledger, r: Round, first: int, end: int, last: int, last': int)
    requires Reached(l, r, first, end, last) && Reached(l, r, first, end, last')
    ensures last == last'
  {
    assert last < last' ==> Stops(l, r, first, last + 1);
    assert last' < last ==> Stops(l, r, first, last' + 1);
  }

  lemma {:induction false} ReachIs(l: Ledger, r: Round, first: int, end: int, last: int)
    requires first <= end + 1
    ensures Reached(l, r, first, end, last) <==> last == Reach(l, r, first, first, end)
  {
    var e := Reach(l, r, first, first, end);
    ReachPasses(l, r, first, first, end);
    assert Reached(l, r, first, end, e);
    if Reached(l, r, first, end, last) {
      ReachedOnce(l, r, first, end, last, e);
    }
  }

  lemma Covered(l: Ledger, r: Round, first: int, end: int)
    requires NothingStops(l, r, first, end)
    ensures forall h :: first <= h <= end ==> h in l.blocks
  {
    forall h | first <= h <= end ensures h in l.blocks {
      assert !Stops(l, r, first, h);
    }
  }

  /** Where a round may go at most: `batch` blocks on, and not above the chain's height. */
  function Limit(batch: int, last: int, height: int): int {
    if last + batch > height then height else last + batch
  }

  /** The last block a round gets through; `last` when it gets through none. */
  function RoundEnd(l: Ledger, batch: int, last: int, r: Round): int {
    if r.height.None? || last >= r.height.value || Limit(batch, last, r.height.value) < last then last
    else Reach(l, r, last + 1, last + 1, Limit(batch, last, r.height.value))
  }

  lemma RoundEndCovered(l: Ledger, batch: int, last: int, r: Round)
    ensures last <= RoundEnd(l, batch, last, r)
    ensures forall h :: last < h <= RoundEnd(l, batch, last, r) ==> h in l.blocks
  {
    var e := RoundEnd(l, batch, last, r);
    if last < e {
      ReachIs(l, r, last + 1, Limit(batch, last, r.height.value), e);
      Covered(l, r, last + 1, e);
    }
  }

  function RoundOutcome(l: Ledger, batch: int, last: int, r: Round): Outcome {
    if r.height.None? then HeightFailed
    else if last >= r.height.value then CaughtUp
    else
      var e := RoundEnd(l, batch, last, r);
      if e < Limit(batch, last, r.height.value) && Disagrees(l, r, last + 1, e + 1) then Diverged(e + 1) else Finished
  }

  lemma StateBeforeBlocks(l: Ledger, t: Tables, first: int)
    ensures ApplyAll(t, WritesBetween(l, first, first - 1)) == t
  {
  }

  function Last(l: Ledger, t: Tables): int {
    LastSynced(l.genesis, t.lastSynced)
  }

  function RoundWrites(l: Ledger, batch: int, t: Tables, r: Round): seq<Write> {
    RoundEndCovered(l, batch, Last(l, t), r);
    WritesBetween(l, Last(l, t) + 1, RoundEnd(l, batch, Last(l, t), r))
  }

  // ----- whole runs -----

  /** Each state follows from the one before by the first `cuts[i]` writes of a round, the
      rest of which the process did not live to do. */
  ghost predicate IsRun(l: Ledger, batch: int, states: seq<Tables>, rounds: seq<Round>, cuts: seq<nat>) {
    && |states| == |rounds| + 1 && |cuts| == |rounds|
    && states[0] == EMPTY
    && (forall i :: 0 <= i < |rounds| ==> IsStep(l, batch, states[i], states[i + 1], rounds[i], cuts[i]))
  }

  ghost predicate IsStep(l: Ledger, batch: int, t: Tables, t': Tables, r: Round, cut: nat) {
    cut <= |RoundWrites(l, batch, t, r)| && t' == ApplyAll(t, RoundWrites(l, batch, t, r)[..cut])
  }

  ghost predicate Uncut(l: Ledger, batch: int, states: seq<Tables>, rounds: seq<Round>, cuts: seq<nat>)
    requires |states| == |rounds| + 1 && |cuts| == |rounds|
  {
    forall i :: 0 <= i < |rounds| ==> cuts[i] == |RoundWrites(l, batch, states[i], rounds[i])|
  }

  lemma EmptyIsExact(l: Ledger)
    ensures Exact(l, EMPTY) && Consistent(l, EMPTY)
  {
  }

  lemma ExactIsConsistent(l: Ledger, t: Tables)
    requires Exact(l, t)
    ensures Consistent(l, t)
  {
    AboveIsWeaker(l, t, Last(l, t));
  }

  /** One round, cut anywhere, keeps the tables consistent and never moves the mark back. */
  lemma StepKeeps(l: Ledger, batch: int, t: Tables, t': Tables, r: Round, cut: nat)
    requires GoodLedger(l) && Consistent(l, t) && IsStep(l, batch, t, t', r, cut)
    ensures Consistent(l, t') && Last(l, t) <= Last(l, t') <= RoundEnd(l, batch, Last(l, t), r)
  {
    RoundEndCovered(l, batch, Last(l, t), r);
    CutBlocks(l, t, Last(l, t), RoundEnd(l, batch, Last(l, t), r), cut, RoundWrites(l, batch, t, r)[..cut]);
  }

  /** A round left to finish ends exactly at its last block, and if that is a new one, with
      whatever an earlier cut had left in part repaired. */
  lemma {:induction false} FinishedRoundIsExact(l: Ledger, batch: int, t: Tables, r: Round)
    requires GoodLedger(l) && Consistent(l, t)
    requires Exact(l, t) || RoundEnd(l, batch, Last(l, t), r) > Last(l, t)
    ensures Exact(l, ApplyAll(t, RoundWrites(l, batch, t, r)))
    ensures Last(l, ApplyAll(t, RoundWrites(l, batch, t, r))) == RoundEnd(l, batch, Last(l, t), r)
  {
    hide ApplyAll, WritesBetween;
    var last := Last(l, t);
    var end := RoundEnd(l, batch, last, r);
    RoundEndCovered(l, batch, last, r);
    if last < end {
      SomeBlocks(l, t, last, end);
    } else {
      StateBeforeBlocks(l, t, last + 1);
    }
  }

  /** Cuts and failures anywhere: no state of any run has a gap, a row too many or a wrong
      row up to its mark. */
  lemma {:induction false} RunStaysConsistent(l: Ledger, batch: int, states: seq<Tables>, rounds: seq<Round>, cuts: seq<nat>, i: nat)
    requires GoodLedger(l) && IsRun(l, batch, states, rounds, cuts) && i < |states|
    ensures Consistent(l, states[i])
    ensures i > 0 ==> Last(l, states[i - 1]) <= Last(l, states[i])
  {
    if i == 0 {
      EmptyIsExact(l);
    } else {
      RunStaysConsistent(l, batch, states, rounds, cuts, i - 1);
      assert IsStep(l, batch, states[i - 1], states[i - 1 + 1], rounds[i - 1], cuts[i - 1]);
      StepKeeps(l, batch, states[i - 1], states[i], rounds[i - 1], cuts[i - 1]);
    }
  }

  /** Without cuts every state holds exactly the blocks up to its mark. */
  lemma {:induction false} UncutRunIsExact(l: Ledger, batch: int, states: seq<Tables>, rounds: seq<Round>, cuts: seq<nat>, i: nat)
    requires GoodLedger(l) && IsRun(l, batch, states, rounds, cuts) && i < |states|
    requires Uncut(l, batch, states, rounds, cuts)
    ensures Exact(l, states[i])
  {
    if i == 0 {
      EmptyIsExact(l);
    } else {
      var t, r, cut := states[i - 1], rounds[i - 1], cuts[i - 1];
      UncutRunIsExact(l, batch, states, rounds, cuts, i - 1);
      ExactIsConsistent(l, t);
      FinishedRoundIsExact(l, batch, t, r);
      assert IsStep(l, batch, t, states[i - 1 + 1], r, cut);
      var ws := RoundWrites(l, batch, t, r);
      assert ws[..cut] == ws;
    }
  }

  /** The same for a Bitcoin chain of whole blocks: wherever lookups fail and rounds are cut,
      there is no gap below the mark; with no cuts the tables are exact after every round. */
  lemma SyncLeavesNoGap(c: Chain, batch: int, states: seq<Tables>, rounds: seq<Round>, cuts: seq<nat>, i: nat)
    requires GoodChain(c) && IsRun(LedgerOf(c), batch, states, rounds, cuts) && i < |states|
    ensures Consistent(LedgerOf(c), states[i])
    ensures Uncut(LedgerOf(c), batch, states, rounds, cuts) ==> Exact(LedgerOf(c), states[i])
  {
    hide Exact, Consistent, IsStep, Uncut, LedgerOf, GoodChain, GoodLedger;
    LedgerIsGood(c);
    RunStaysConsistent(LedgerOf(c), batch, states, rounds, cuts, i);
    if Uncut(LedgerOf(c), batch, states, rounds, cuts) {
      UncutRunIsExact(LedgerOf(c), batch, states, rounds, cuts, i);
    }
  }

  /** Exact tables are those of processing genesis..mark in one go, with nothing failing. */
  lemma {:induction false} ExactIsProcessedInOrder(l: Ledger, t: Tables)
    requires GoodLedger(l) && Exact(l, t)
    ensures forall h :: l.genesis <= h <= Last(l, t) ==> h in l.blocks
    ensures ApplyAll(EMPTY, WritesBetween(l, l.genesis, Last(l, t))).blocks == t.blocks
    ensures ApplyAll(EMPTY, WritesBetween(l, l.genesis, Last(l, t))).txs == t.txs
  {
    hide ApplyAll, WritesBetween, Sound;
    var last := Last(l, t);
    forall h | l.genesis <= h <= last ensures h in l.blocks {
      assert HasBlock(l, t, h);
    }
    EmptyIsExact(l);
    if last < l.genesis {
      StateBeforeBlocks(l, EMPTY, l.genesis);
      ExactIsUnique(l, t, EMPTY);
    } else {
      SomeBlocks(l, EMPTY, l.genesis - 1, last);
      ExactIsUnique(l, t, ApplyAll(EMPTY, WritesBetween(l, l.genesis, last)));
    }
  }

  /** Two nodes on one chain hold the same rows for every block up to the lower of their
      marks, whatever batches they used, whatever failed and wherever they were stopped. */
  lemma NodesAgree(l: Ledger, batch: int, states: seq<Tables>, rounds: seq<Round>, cuts: seq<nat>, i: nat,
                   batch': int, states': seq<Tables>, rounds': seq<Round>, cuts': seq<nat>, j: nat, top: int)
    requires GoodLedger(l) && IsRun(l, batch, states, rounds, cuts) && IsRun(l, batch', states', rounds', cuts')
    requires i < |states| && j < |states'| && top <= Last(l, states[i]) && top <= Last(l, states'[j])
    ensures WithinBelow(l.genesis, states[i], states'[j], top) && WithinBelow(l.genesis, states'[j], states[i], top)
  {
    RunStaysConsistent(l, batch, states, rounds, cuts, i);
    RunStaysConsistent(l, batch', states', rounds', cuts', j);
    ConsistentAgreeBelow(l, states[i], states'[j], top);
  }

  /** If neither was stopped inside a round and their marks agree, their tables are equal. */
  lemma FinishedNodesAreEqual(l: Ledger, batch: int, states: seq<Tables>, rounds: seq<Round>, cuts: seq<nat>, i: nat,
                              batch': int, states': seq<Tables>, rounds': seq<Round>, cuts': seq<nat>, j: nat)
    requires GoodLedger(l) && IsRun(l, batch, states, rounds, cuts) && Uncut(l, batch, states, rounds, cuts)
    requires IsRun(l, batch', states', rounds', cuts') && Uncut(l, batch', states', rounds', cuts')
    requires i < |states| && j < |states'| && Last(l, states[i]) == Last(l, states'[j])
    ensures states[i].blocks == states'[j].blocks && states[i].txs == states'[j].txs
  {
    UncutRunIsExact(l, batch, states, rounds, cuts, i);
    UncutRunIsExact(l, batch', states', rounds', cuts', j);
    ExactIsUnique(l, states[i], states'[j]);
  }

  /** A round ends at its limit exactly when nothing in its way stops it. */
  lemma RoundReachesLimit(l: Ledger, batch: int, last: int, r: Round)
    requires r.height.Some? && last < r.height.value && batch >= 0
    ensures RoundEnd(l, batch, last, r) == Limit(batch, last, r.height.value)
       <==> NothingStops(l, r, last + 1, Limit(batch, last, r.height.value))
  {
    var end := Limit(batch, last, r.height.value);
    var e := RoundEnd(l, batch, last, r);
    ReachIs(l, r, last + 1, end, e);
    if e < end {
      assert Stops(l, r, last + 1, e + 1);
    }
  }

  // ----- the loop -----

  lemma StateAfterRow(l: Ledger, t: Tables, h: int, k: nat, x: ValidTx)
    requires h in l.blocks && k < |l.blocks[h].valid| && x == l.blocks[h].valid[k]
    ensures ApplyAll(t, RowWrites(l, h, k + 1))
         == Apply(ApplyAll(t, RowWrites(l, h, k)), WriteTx(x.txid, RowOfTx(h, l.genesis, x, k)))
  {
    ApplyOneMore(t, RowWrites(l, h, k), WriteTx(x.txid, RowOfTx(h, l.genesis, x, k)));
  }

  lemma {:induction false} StateAfterFirst(l: Ledger, t: Tables, h: int)
    requires h in l.blocks
    ensures ApplyAll(t, RowWrites(l, h, 0)) == Apply(t, WriteBlock(h - l.genesis, RowOfBlock(h, l.blocks[h])))
  {
    var w := WriteBlock(h - l.genesis, RowOfBlock(h, l.blocks[h]));
    ApplyOneMore(t, [], w);
    assert [] + [w] == [w];
  }

  lemma {:induction false} StateAfterMark(l: Ledger, t: Tables, h: int)
    requires h in l.blocks
    ensures ApplyAll(t, BlockWrites(l, h)) == Apply(ApplyAll(t, RowWrites(l, h, |l.blocks[h].valid|)), Mark(h))
  {
    ApplyOneMore(t, RowWrites(l, h, |l.blocks[h].valid|), Mark(h));
  }

  lemma StateAfterBlock(l: Ledger, t: Tables, first: int, h: int)
    requires first <= h && forall i :: first <= i <= h ==> i in l.blocks
    ensures ApplyAll(t, WritesBetween(l, first, h)) == ApplyAll(ApplyAll(t, WritesBetween(l, first, h - 1)), BlockWrites(l, h))
  {
    ApplyAllAppend(t, WritesBetween(l, first, h - 1), BlockWrites(l, h));
  }

  class Syncer {
    const db: Database
    const chain: Chain
    const batch: int
    /** How often the header cache was thrown away. */
    var headerClears: nat

    constructor (db: Database, chain: Chain, batch: int)
      ensures this.db == db && this.chain == chain && this.batch == batch && headerClears == 0
    {
      this.db, this.chain, this.batch := db, chain, batch;
      headerClears := 0;
    }

    /** Stores one block: its row, its transactions at positions 1..n, then the mark. */
    method StoreBlock(height: int)
      requires GoodChain(chain) && height in chain.blocks
      modifies db
      ensures db.View() == ApplyAll(old(db.View()), BlockWrites(LedgerOf(chain), height))
    {
      hide ApplyAll, BlockWrites, RowWrites, Ordered, ValidTxs, Sorted, IdsApart, HasTxids, DistinctTxids;
      ghost var l := LedgerOf(chain);
      ghost var t := db.View();
      var block := chain.blocks[height];
      assert GoodBlock(height, block);
      db.CreateOrUpdateDNNBlock(height - chain.genesis, height, block.hash, block.time);
      var validTxs := FindValidDNNTransactions(block.txs);
      StateAfterFirst(l, t, height);
      StoreTransactions(height, validTxs, l, t);
      db.UpdateSyncState(height);
      StateAfterMark(l, t, height);
    }

    method StoreTransactions(height: int, validTxs: seq<ValidTx>, ghost l: Ledger, ghost t: Tables)
      requires l.genesis == chain.genesis && height in l.blocks && validTxs == l.blocks[height].valid
      requires db.View() == ApplyAll(t, RowWrites(l, height, 0))
      modifies db`txs
      ensures db.View() == ApplyAll(t, RowWrites(l, height, |validTxs|))
    {
      hide ApplyAll, RowWrites;
      ghost var now := db.View();
      for i := 0 to |validTxs|
        invariant now == ApplyAll(t, RowWrites(l, height, i))
        invariant db.blocks == now.blocks && db.txs == now.txs && db.lastSynced == now.lastSynced
      {
        var tx := validTxs[i];
        StateAfterRow(l, t, height, i, tx);
        now := Apply(now, WriteTx(tx.txid, RowOfTx(height, l.genesis, tx, i)));
        db.StoreBitcoinTransaction(tx.txid, height, height - chain.genesis, i + 1, tx.address, tx.sum);
      }
    }

    method ReadMark() returns (last: int)
      ensures last == LastSynced(chain.genesis, db.lastSynced)
    {
      last := chain.genesis - 1;
      if db.lastSynced != "" {
        var parsed := ParseInt(db.lastSynced);
        if parsed.Some? {
          last := parsed.value;
        }
      }
    }

    /** The loop over the blocks first..end of a round. */
    method ProcessBlocks(first: int, end: int, r: Round) returns (o: Outcome, ghost e: int)
      requires GoodChain(chain) && first <= end + 1
      modifies db, this`headerClears
      ensures Reached(LedgerOf(chain), r, first, end, e)
      ensures forall i :: first <= i <= e ==> i in LedgerOf(chain).blocks
      ensures db.View() == ApplyAll(old(db.View()), WritesBetween(LedgerOf(chain), first, e))
      ensures o == if e < end && Disagrees(LedgerOf(chain), r, first, e + 1) then Diverged(e + 1) else Finished
      ensures headerClears == old(headerClears) + if o.Diverged? then 1 else 0
    {
      hide ApplyAll, WritesBetween, BlockWrites, Ordered, ValidTxs, IdsApart, GoodBlock;
      ghost var l := LedgerOf(chain);
      ghost var t := db.View();
      StateBeforeBlocks(l, t, first);
      o, e := Finished, first - 1;
      var h := first;
      while h <= end
        invariant first <= h <= end + 1 && e == h - 1
        invariant forall i :: first <= i <= e ==> i in l.blocks
        invariant NothingStops(l, r, first, e)
        invariant db.View() == ApplyAll(t, WritesBetween(l, first, e))
        invariant headerClears == old(headerClears)
      {
        if h !in chain.blocks || h in r.hashFails {
          return;
        }
        if (h == first || h % 100 == 0) && h in r.rest && r.rest[h] != chain.blocks[h].hash {
          headerClears := headerClears + 1;
          o := Diverged(h);
          return;
        }
        if h in r.blockFails {
          return;
        }
        StateAfterBlock(l, t, first, h);
        StoreBlock(h);
        h, e := h + 1, h;
      }
    }

    method SyncBitcoin(r: Round) returns (o: Outcome)
      requires GoodChain(chain)
      modifies db, this`headerClears
      ensures db.View() == ApplyAll(old(db.View()), RoundWrites(LedgerOf(chain), batch, old(db.View()), r))
      ensures o == RoundOutcome(LedgerOf(chain), batch, Last(LedgerOf(chain), old(db.View())), r)
      ensures headerClears == old(headerClears) + if o.Diverged? then 1 else 0
    {
      hide ApplyAll, WritesBetween, Disagrees, Reached, Ordered, ValidTxs, GoodChain;
      ghost var l := LedgerOf(chain);
      ghost var t := db.View();
      var last := ReadMark();
      StateBeforeBlocks(l, t, last + 1);
      if r.height.None? {
        return HeightFailed;
      }
      var end := last + batch;
      if end > r.height.value {
        end := r.height.value;
      }
      if last >= r.height.value {
        return CaughtUp;
      }
      if end < last {
        return Finished;
      }
      ghost var e;
      o, e := ProcessBlocks(last + 1, end, r);
      ReachIs(l, r, last + 1, end, e);
    }
  }
}
