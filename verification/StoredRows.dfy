/** What synced tables say about the Bitcoin chain, field by field: which rows there are and
    what stands in them, in every state of every run. */
module StoredRows {
  import opened SelfTransfer
  import opened StringOrder
  import opened TxOrder
  import opened Positions
  import opened BlockTables
  import opened BlockLedger
  import opened BlockSync

  /** Some transaction of the block has this id and transfers to itself at this address. */
  ghost predicate IsSelfTransferIn(b: Block, id: string, address: string) {
    exists k :: 0 <= k < |b.txs| && b.txs[k].txid == id && TransfersToItself(b.txs[k], address)
  }

  lemma EntryOfBlock(c: Chain, h: int)
    requires GoodChain(c) && h in c.blocks
    ensures h in LedgerOf(c).blocks && LedgerOf(c).genesis == c.genesis
    ensures var e := LedgerOf(c).blocks[h];
      && e.hash == c.blocks[h].hash && e.time == c.blocks[h].time
      && Entries(e.valid) && Sorted(e.valid)
      && (forall x :: x in e.valid <==> x.sum == DigitSum(x.txid) && IsSelfTransferIn(c.blocks[h], x.txid, x.address))
  {
    hide Ordered, ValidTxs, Sorted, TransfersToItself, DigitSum, HasTxids, DistinctTxids;
    var b := c.blocks[h];
    assert GoodBlock(h, b);
    ValidTxsIds(b.txs);
    ValidTxsEntries(b.txs);
    OrderedSorts(ValidTxs(b.txs));
    SamePlacesSameIds(ValidTxs(b.txs), Ordered(ValidTxs(b.txs)));
    forall x
      ensures x in Ordered(ValidTxs(b.txs)) <==> x.sum == DigitSum(x.txid) && IsSelfTransferIn(b, x.txid, x.address)
    {
      EntriesAre(b.txs, x);
      SameElements(Ordered(ValidTxs(b.txs)), ValidTxs(b.txs), x);
    }
  }

  lemma SameElements(xs: seq<ValidTx>, ys: seq<ValidTx>, x: ValidTx)
    requires multiset(xs) == multiset(ys)
    ensures x in xs <==> x in ys
  {
    assert x in multiset(xs) <==> x in multiset(ys);
  }

  lemma ConsistentState(c: Chain, batch: int, states: seq<Tables>, rounds: seq<Round>, cuts: seq<nat>, i: nat)
    requires GoodChain(c) && IsRun(LedgerOf(c), batch, states, rounds, cuts) && i < |states|
    ensures GoodLedger(LedgerOf(c)) && Consistent(LedgerOf(c), states[i])
  {
    hide LedgerOf, IsRun, Consistent, GoodChain, GoodLedger;
    LedgerIsGood(c);
    RunStaysConsistent(LedgerOf(c), batch, states, rounds, cuts, i);
  }

  lemma SameHeights(c: Chain)
    ensures LedgerOf(c).genesis == c.genesis && forall h :: h in LedgerOf(c).blocks <==> h in c.blocks
  {
  }

  /** The mark as a height of this chain. */
  function MarkOf(c: Chain, t: Tables): int {
    LastSynced(c.genesis, t.lastSynced)
  }

  /** A block row is filed under the distance from genesis and copies its block's hash and
      time; every block up to the mark has one, and none is more than one above it. */
  lemma BlockRowsAre(c: Chain, batch: int, states: seq<Tables>, rounds: seq<Round>, cuts: seq<nat>, i: nat, n: int)
    requires GoodChain(c) && IsRun(LedgerOf(c), batch, states, rounds, cuts) && i < |states|
    ensures n in states[i].blocks ==>
      && c.genesis + n in c.blocks && 0 <= n <= MarkOf(c, states[i]) + 1 - c.genesis
      && states[i].blocks[n] == BlockRow(c.genesis + n, c.blocks[c.genesis + n].hash, c.blocks[c.genesis + n].time)
    ensures 0 <= n <= MarkOf(c, states[i]) - c.genesis ==> n in states[i].blocks
  {
    hide IsRun, GoodChain, GoodLedger, Consistent, LedgerOf, Entries, Sorted;
    ConsistentState(c, batch, states, rounds, cuts, i);
    SameHeights(c);
    BlockRowIs(LedgerOf(c), states[i], n);
    if n in states[i].blocks {
      EntryOfBlock(c, c.genesis + n);
    }
  }

  lemma BlockRowIs(l: Ledger, t: Tables, n: int)
    requires Consistent(l, t)
    ensures n in t.blocks ==>
      && l.genesis + n in l.blocks && 0 <= n <= LastSynced(l.genesis, t.lastSynced) + 1 - l.genesis
      && t.blocks[n] == BlockRow(l.genesis + n, l.blocks[l.genesis + n].hash, l.blocks[l.genesis + n].time)
    ensures 0 <= n <= LastSynced(l.genesis, t.lastSynced) - l.genesis ==> n in t.blocks
  {
    hide RightTx;
    if n in t.blocks {
      assert RightBlock(l, n, t.blocks[n], LastSynced(l.genesis, t.lastSynced) + 1);
    }
    if 0 <= n <= LastSynced(l.genesis, t.lastSynced) - l.genesis {
      assert HasBlock(l, t, l.genesis + n);
    }
  }

  lemma RowIsEntry(c: Chain, t: Tables, id: string)
    requires GoodChain(c) && Consistent(LedgerOf(c), t) && id in t.txs
    ensures var row := t.txs[id];
      && row.bitcoinBlock in c.blocks && row.bitcoinBlock in LedgerOf(c).blocks
      && c.genesis <= row.bitcoinBlock <= MarkOf(c, t) + 1
      && row.dnnBlock == row.bitcoinBlock - c.genesis
      && 1 <= row.position <= |LedgerOf(c).blocks[row.bitcoinBlock].valid|
      && LedgerOf(c).blocks[row.bitcoinBlock].valid[row.position - 1] == ValidTx(id, row.address, row.sum)
  {
    hide GoodChain;
    assert RightTx(LedgerOf(c), id, t.txs[id], MarkOf(c, t) + 1);
  }

  /** A transaction row tells its block, the block's DNN number and the address and digit sum
      of a self-transfer with this id in that block. */
  lemma {:induction false} TxRowsAre(c: Chain, batch: int, states: seq<Tables>, rounds: seq<Round>, cuts: seq<nat>, i: nat, id: string)
    requires GoodChain(c) && IsRun(LedgerOf(c), batch, states, rounds, cuts) && i < |states|
    requires id in states[i].txs
    ensures var row := states[i].txs[id];
      && row.bitcoinBlock in c.blocks && c.genesis <= row.bitcoinBlock <= MarkOf(c, states[i]) + 1
      && row.dnnBlock == row.bitcoinBlock - c.genesis && row.position >= 1
      && row.sum == DigitSum(id) && IsSelfTransferIn(c.blocks[row.bitcoinBlock], id, row.address)
  {
    hide IsRun, GoodChain, GoodLedger, Consistent, LedgerOf, Entries, Sorted;
    var row := states[i].txs[id];
    ConsistentState(c, batch, states, rounds, cuts, i);
    RowIsEntry(c, states[i], id);
    EntryOfBlock(c, row.bitcoinBlock);
    assert ValidTx(id, row.address, row.sum) in LedgerOf(c).blocks[row.bitcoinBlock].valid;
  }

  lemma EntryIsStored(l: Ledger, t: Tables, h: int, k: nat)
    requires GoodLedger(l) && Consistent(l, t) && l.genesis <= h <= LastSynced(l.genesis, t.lastSynced)
    ensures h in l.blocks
    ensures k < |l.blocks[h].valid| ==> l.blocks[h].valid[k].txid in t.txs
    ensures k < |l.blocks[h].valid| ==> t.txs[l.blocks[h].valid[k].txid] == RowOfTx(h, l.genesis, l.blocks[h].valid[k], k)
  {
    hide GoodLedger;
    assert HasBlock(l, t, h);
    if k < |l.blocks[h].valid| {
      var x, top := l.blocks[h].valid[k], LastSynced(l.genesis, t.lastSynced) + 1;
      RowIsRight(l, h, k);
      assert RightTx(l, x.txid, t.txs[x.txid], top);
      RightTxAnyTop(l, x.txid, RowOfTx(h, l.genesis, x, k), t.txs[x.txid], h, top);
    }
  }

  /** Every self-transfer of every block from genesis to the mark has its row. */
  lemma SelfTransfersAreStored(c: Chain, batch: int, states: seq<Tables>, rounds: seq<Round>, cuts: seq<nat>, i: nat,
                               h: int, id: string, address: string)
    requires GoodChain(c) && IsRun(LedgerOf(c), batch, states, rounds, cuts) && i < |states|
    requires c.genesis <= h <= MarkOf(c, states[i])
    ensures h in c.blocks
    ensures IsSelfTransferIn(c.blocks[h], id, address) ==>
      id in states[i].txs && states[i].txs[id].bitcoinBlock == h && states[i].txs[id].address == address
  {
    hide IsRun, GoodChain, GoodLedger, Consistent, LedgerOf, IsSelfTransferIn, DigitSum, Entries, Sorted;
    var l, t := LedgerOf(c), states[i];
    ConsistentState(c, batch, states, rounds, cuts, i);
    SameHeights(c);
    EntryIsStored(l, t, h, 0);
    EntryOfBlock(c, h);
    if IsSelfTransferIn(c.blocks[h], id, address) {
      var x := ValidTx(id, address, DigitSum(id));
      assert x in l.blocks[h].valid;
      var k :| 0 <= k < |l.blocks[h].valid| && l.blocks[h].valid[k] == x;
      EntryIsStored(l, t, h, k);
    }
  }

  /** Within a block positions follow the rule of the name system: the greater digit sum
      first, of equal sums the greater id; and no position is left out. */
  lemma {:induction false} PositionsFollowRank(c: Chain, batch: int, states: seq<Tables>, rounds: seq<Round>, cuts: seq<nat>, i: nat,
                            id: string, id': string)
    requires GoodChain(c) && IsRun(LedgerOf(c), batch, states, rounds, cuts) && i < |states|
    requires id in states[i].txs && id' in states[i].txs && states[i].txs[id].bitcoinBlock == states[i].txs[id'].bitcoinBlock
    ensures states[i].txs[id].position < states[i].txs[id'].position
       <==> DigitSum(id) > DigitSum(id') || (DigitSum(id) == DigitSum(id') && Less(id', id))
  {
    hide IsRun, GoodChain, GoodLedger, Consistent, LedgerOf, DigitSum, Less, Entries, Sorted;
    var t := states[i];
    ConsistentState(c, batch, states, rounds, cuts, i);
    RowIsEntry(c, t, id);
    RowIsEntry(c, t, id');
    EntryOfBlock(c, t.txs[id].bitcoinBlock);
    PositionIsRank(LedgerOf(c).blocks[t.txs[id].bitcoinBlock].valid, t.txs[id].position - 1, t.txs[id'].position - 1);
  }

  lemma NoPositionIsLeftOut(c: Chain, batch: int, states: seq<Tables>, rounds: seq<Round>, cuts: seq<nat>, i: nat, id: string, p: nat)
    returns (id': string)
    requires GoodChain(c) && IsRun(LedgerOf(c), batch, states, rounds, cuts) && i < |states|
    requires id in states[i].txs && states[i].txs[id].bitcoinBlock <= MarkOf(c, states[i]) && 1 <= p <= states[i].txs[id].position
    ensures id' in states[i].txs && states[i].txs[id'].bitcoinBlock == states[i].txs[id].bitcoinBlock
    ensures states[i].txs[id'].position == p
  {
    hide IsRun, GoodChain, GoodLedger, Consistent, LedgerOf;
    var l, t := LedgerOf(c), states[i];
    ConsistentState(c, batch, states, rounds, cuts, i);
    SameHeights(c);
    RowIsEntry(c, t, id);
    id' := l.blocks[t.txs[id].bitcoinBlock].valid[p - 1].txid;
    EntryIsStored(l, t, t.txs[id].bitcoinBlock, p - 1);
  }
}
