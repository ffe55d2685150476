/** What the block and transaction tables should hold for a given chain, and what single
    row writes do to tables that hold part of it. */
module BlockLedger {
  import opened Int64
  import opened TxOrder
  import opened BlockTables
  import opened Wrappers

  /** One block as far as the tables go: its valid transactions are in position order. */
  datatype Entry = Entry(hash: string, time: int, valid: seq<ValidTx>)

  /** A fixed chain and the height at which DNN numbering starts. */
  datatype Ledger = Ledger(genesis: int, blocks: map<int, Entry>)

  ghost predicate DistinctIds(valid: seq<ValidTx>) {
    forall i, j :: 0 <= i < j < |valid| ==> valid[i].txid != valid[j].txid
  }

  ghost predicate NoneShared(a: seq<ValidTx>, b: seq<ValidTx>) {
    forall i, j :: 0 <= i < |a| && 0 <= j < |b| ==> a[i].txid != b[j].txid
  }

  /** Heights fit the stored form and no transaction id occurs twice. */
  ghost predicate GoodLedger(l: Ledger) {
    && InInt64(l.genesis - 1)
    && (forall h :: h in l.blocks ==> InInt64(h) && DistinctIds(l.blocks[h].valid))
    && (forall h, k {:trigger NoneShared(l.blocks[h].valid, l.blocks[k].valid)} ::
          h in l.blocks && k in l.blocks && h != k ==> NoneShared(l.blocks[h].valid, l.blocks[k].valid))
  }

  // ----- what the tables should hold -----

  function RowOfBlock(h: int, e: Entry): BlockRow {
    BlockRow(h, e.hash, e.time)
  }

  /** Position k + 1 goes to the transaction at index k. */
  function RowOfTx(h: int, genesis: int, x: ValidTx, k: nat): TxRow {
    TxRow(h, h - genesis, k + 1, x.address, x.sum)
  }

  ghost predicate RightBlock(l: Ledger, n: int, row: BlockRow, top: int) {
    0 <= n <= top - l.genesis && l.genesis + n in l.blocks && row == RowOfBlock(l.genesis + n, l.blocks[l.genesis + n])
  }

  ghost predicate RightTx(l: Ledger, id: string, row: TxRow, top: int) {
    && l.genesis <= row.bitcoinBlock <= top
    && row.bitcoinBlock in l.blocks
    && 1 <= row.position <= |l.blocks[row.bitcoinBlock].valid|
    && var x := l.blocks[row.bitcoinBlock].valid[row.position - 1];
       x.txid == id && row == RowOfTx(row.bitcoinBlock, l.genesis, x, row.position - 1)
  }

  /** Every row is the right one for a block between genesis and `top`. */
  ghost predicate Sound(l: Ledger, t: Tables, top: int) {
    && (forall n {:trigger RightBlock(l, n, t.blocks[n], top)} :: n in t.blocks ==> RightBlock(l, n, t.blocks[n], top))
    && (forall id {:trigger RightTx(l, id, t.txs[id], top)} :: id in t.txs ==> RightTx(l, id, t.txs[id], top))
  }

  ghost predicate HasBlock(l: Ledger, t: Tables, h: int) {
    && h in l.blocks
    && h - l.genesis in t.blocks
    && (forall k :: 0 <= k < |l.blocks[h].valid| ==> l.blocks[h].valid[k].txid in t.txs)
  }

  /** Nothing of the blocks from genesis to `last` is missing. */
  ghost predicate Complete(l: Ledger, t: Tables, last: int) {
    forall h :: l.genesis <= h <= last ==> HasBlock(l, t, h)
  }

  /** The stored mark, read the way the sync reads it: just below genesis when there is
      none or it does not parse. */
  function LastSynced(genesis: int, mark: string): int {
    if mark == "" then genesis - 1
    else match ParseInt(mark)
      case None => genesis - 1
      case Some(n) => n
  }

  /** The mark is `last`, nothing up to it is missing and nothing above `top` is there. */
  ghost predicate Held(l: Ledger, t: Tables, last: int, top: int) {
    l.genesis - 1 <= last && LastSynced(l.genesis, t.lastSynced) == last && Sound(l, t, top) && Complete(l, t, last)
  }

  /** The tables hold exactly what processing genesis..last_synced_block in order gives. */
  ghost predicate Exact(l: Ledger, t: Tables) {
    var last := LastSynced(l.genesis, t.lastSynced);
    Held(l, t, last, last)
  }

  /** As Exact, except that the next block may be there in part. */
  ghost predicate Consistent(l: Ledger, t: Tables) {
    var last := LastSynced(l.genesis, t.lastSynced);
    Held(l, t, last, last + 1)
  }

  lemma RightTxIsFound(l: Ledger, t: Tables, u: Tables, last: int, id: string)
    requires Sound(l, t, last) && Sound(l, u, last) && Complete(l, u, last) && GoodLedger(l) && id in t.txs
    ensures id in u.txs && u.txs[id] == t.txs[id]
  {
    var row := t.txs[id];
    assert RightTx(l, id, row, last);
    assert HasBlock(l, u, row.bitcoinBlock);
    assert l.blocks[row.bitcoinBlock].valid[row.position - 1].txid in u.txs;
    SameIdSameRow(l, id, row, u.txs[id], last);
  }

  /** The mark alone determines the tables: no two databases agree on it and differ in a row. */
  lemma ExactIsUnique(l: Ledger, t: Tables, u: Tables)
    requires GoodLedger(l) && Exact(l, t) && Exact(l, u)
    requires LastSynced(l.genesis, t.lastSynced) == LastSynced(l.genesis, u.lastSynced)
    ensures t.blocks == u.blocks && t.txs == u.txs
  {
    var last := LastSynced(l.genesis, t.lastSynced);
    forall id | id in t.txs ensures id in u.txs && u.txs[id] == t.txs[id] {
      RightTxIsFound(l, t, u, last, id);
    }
    forall id | id in u.txs ensures id in t.txs {
      RightTxIsFound(l, u, t, last, id);
    }
    SameBlocks(l, t, u, last);
  }

  lemma SameBlocks(l: Ledger, t: Tables, u: Tables, last: int)
    requires Held(l, t, last, last) && Held(l, u, last, last)
    ensures t.blocks == u.blocks
  {
    forall n ensures n in t.blocks <==> n in u.blocks {
      if n in t.blocks {
        assert RightBlock(l, n, t.blocks[n], last);
        assert HasBlock(l, u, l.genesis + n);
      }
      if n in u.blocks {
        assert RightBlock(l, n, u.blocks[n], last);
        assert HasBlock(l, t, l.genesis + n);
      }
    }
    forall n | n in t.blocks ensures t.blocks[n] == u.blocks[n] {
      assert RightBlock(l, n, t.blocks[n], last) && RightBlock(l, n, u.blocks[n], last);
    }
  }

  /** t's rows of blocks up to `top` are u's. */
  ghost predicate WithinBelow(genesis: int, t: Tables, u: Tables, top: int) {
    && (forall n :: n in t.blocks && genesis + n <= top ==> n in u.blocks && u.blocks[n] == t.blocks[n])
    && (forall id :: id in t.txs && t.txs[id].bitcoinBlock <= top ==> id in u.txs && u.txs[id] == t.txs[id])
  }

  lemma SoundWithinComplete(l: Ledger, t: Tables, u: Tables, tTop: int, uTop: int, top: int)
    requires GoodLedger(l) && Sound(l, t, tTop) && Sound(l, u, uTop) && Complete(l, u, top)
    ensures WithinBelow(l.genesis, t, u, top)
  {
    forall n | n in t.blocks && l.genesis + n <= top ensures n in u.blocks && u.blocks[n] == t.blocks[n] {
      assert RightBlock(l, n, t.blocks[n], tTop);
      assert HasBlock(l, u, l.genesis + n);
      assert RightBlock(l, n, u.blocks[n], uTop);
    }
    forall id | id in t.txs && t.txs[id].bitcoinBlock <= top ensures id in u.txs && u.txs[id] == t.txs[id] {
      var row := t.txs[id];
      assert RightTx(l, id, row, tTop);
      assert HasBlock(l, u, row.bitcoinBlock);
      assert l.blocks[row.bitcoinBlock].valid[row.position - 1].txid in u.txs;
      assert RightTx(l, id, u.txs[id], uTop);
      RightTxAnyTop(l, id, row, u.txs[id], tTop, uTop);
    }
  }

  lemma RightTxAnyTop(l: Ledger, id: string, row: TxRow, row': TxRow, top: int, top': int)
    requires GoodLedger(l) && RightTx(l, id, row, top) && RightTx(l, id, row', top')
    ensures row == row'
  {
    var both := if top < top' then top' else top;
    assert RightTx(l, id, row, both) && RightTx(l, id, row', both);
    SameIdSameRow(l, id, row, row', both);
  }

  /** Consistent tables of one chain agree on every block up to the lower mark, and a
      transaction of such a block is in both or in neither, wherever the nodes stopped. */
  lemma ConsistentAgreeBelow(l: Ledger, t: Tables, u: Tables, top: int)
    requires GoodLedger(l) && Consistent(l, t) && Consistent(l, u)
    requires top <= LastSynced(l.genesis, t.lastSynced) && top <= LastSynced(l.genesis, u.lastSynced)
    ensures WithinBelow(l.genesis, t, u, top) && WithinBelow(l.genesis, u, t, top)
  {
    var a, b := LastSynced(l.genesis, t.lastSynced), LastSynced(l.genesis, u.lastSynced);
    CompleteBelow(l, t, a, top);
    CompleteBelow(l, u, b, top);
    SoundWithinComplete(l, t, u, a + 1, b + 1, top);
    SoundWithinComplete(l, u, t, b + 1, a + 1, top);
  }

  lemma CompleteBelow(l: Ledger, t: Tables, last: int, top: int)
    requires Complete(l, t, last) && top <= last
    ensures Complete(l, t, top)
  {
  }

  /** An id has one right row. */
  lemma SameIdSameRow(l: Ledger, id: string, row: TxRow, row': TxRow, top: int)
    requires GoodLedger(l) && RightTx(l, id, row, top) && RightTx(l, id, row', top)
    ensures row == row'
  {
    var v, v' := l.blocks[row.bitcoinBlock].valid, l.blocks[row'.bitcoinBlock].valid;
    var i, i' := row.position - 1, row'.position - 1;
    assert row.bitcoinBlock != row'.bitcoinBlock ==> NoneShared(v, v');
    assert v[i].txid == v'[i'].txid;
  }

  // ----- single writes -----

  datatype Write = WriteBlock(n: int, row: BlockRow) | WriteTx(id: string, txRow: TxRow) | Mark(height: int)

  function Apply(t: Tables, w: Write): Tables {
    match w
    case WriteBlock(n, row) => t.(blocks := PutBlock(t.blocks, n, row))
    case WriteTx(id, row) => t.(txs := PutTx(t.txs, id, row))
    case Mark(h) => t.(lastSynced := FormatInt(h))
  }

  function ApplyAll(t: Tables, ws: seq<Write>): Tables {
    if ws == [] then t else Apply(ApplyAll(t, ws[..|ws| - 1]), ws[|ws| - 1])
  }

  lemma {:induction false} ApplyAllAppend(t: Tables, a: seq<Write>, b: seq<Write>)
    ensures ApplyAll(t, a + b) == ApplyAll(ApplyAll(t, a), b)
  {
    if b == [] {
      assert a + b == a;
    } else {
      var n := |b| - 1;
      ApplyAllAppend(t, a, b[..n]);
      var ab := a + b;
      assert ab[..|ab| - 1] == a + b[..n] && ab[|ab| - 1] == b[n];
    }
  }

  lemma {:induction false} ApplyOneMore(t: Tables, ws: seq<Write>, w: Write)
    ensures ApplyAll(t, ws + [w]) == Apply(ApplyAll(t, ws), w)
  {
    assert (ws + [w])[..|ws|] == ws;
  }

  /** Writing the right block row replaces at most that row. */
  lemma PutRightBlock(l: Ledger, t: Tables, h: int)
    requires Sound(l, t, h) && h in l.blocks && l.genesis <= h
    ensures PutBlock(t.blocks, h - l.genesis, RowOfBlock(h, l.blocks[h]))
         == t.blocks[h - l.genesis := RowOfBlock(h, l.blocks[h])]
  {
    forall n | n in t.blocks && t.blocks[n].bitcoinBlock == h ensures n == h - l.genesis {
      assert RightBlock(l, n, t.blocks[n], h);
    }
  }

  lemma SoundWithBlock(l: Ledger, t: Tables, h: int)
    requires Sound(l, t, h) && h in l.blocks && l.genesis <= h
    ensures Sound(l, t.(blocks := t.blocks[h - l.genesis := RowOfBlock(h, l.blocks[h])]), h)
  {
    assert RightBlock(l, h - l.genesis, RowOfBlock(h, l.blocks[h]), h);
  }

  lemma RowIsRight(l: Ledger, h: int, k: nat)
    requires h in l.blocks && l.genesis <= h && k < |l.blocks[h].valid|
    ensures RightTx(l, l.blocks[h].valid[k].txid, RowOfTx(h, l.genesis, l.blocks[h].valid[k], k), h)
  {
  }

  /** A right row for another id cannot sit at this position. */
  lemma PlaceIsFree(l: Ledger, id: string, row: TxRow, id': string, row': TxRow, top: int)
    requires RightTx(l, id, row, top) && RightTx(l, id', row', top) && id != id'
    ensures !(row.bitcoinBlock == row'.bitcoinBlock && row.position == row'.position)
  {
  }

  /** Writing a right transaction row makes it present and changes no other, even if it is
      there already. */
  lemma PutRightTx(l: Ledger, t: Tables, id: string, row: TxRow, top: int)
    requires GoodLedger(l) && Sound(l, t, top) && RightTx(l, id, row, top)
    ensures PutTx(t.txs, id, row) == t.txs[id := row]
    ensures Sound(l, t.(txs := t.txs[id := row]), top)
  {
    if id in t.txs {
      SameIdSameRow(l, id, row, t.txs[id], top);
      assert t.txs[id := row] == t.txs;
    } else {
      forall j | j in t.txs
        ensures !(t.txs[j].bitcoinBlock == row.bitcoinBlock && t.txs[j].position == row.position)
      {
        PlaceIsFree(l, j, t.txs[j], id, row, top);
      }
    }
  }

  // ----- the writes of one block -----

  /** The block row, then its first `k` transactions. */
  function RowWrites(l: Ledger, h: int, k: nat): (ws: seq<Write>)
    requires h in l.blocks && k <= |l.blocks[h].valid|
    ensures |ws| == k + 1
  {
    if k == 0 then [WriteBlock(h - l.genesis, RowOfBlock(h, l.blocks[h]))]
    else
      var x := l.blocks[h].valid[k - 1];
      RowWrites(l, h, k - 1) + [WriteTx(x.txid, RowOfTx(h, l.genesis, x, k - 1))]
  }

  /** All writes of a block; the mark comes last. */
  function BlockWrites(l: Ledger, h: int): seq<Write>
    requires h in l.blocks
  {
    RowWrites(l, h, |l.blocks[h].valid|) + [Mark(h)]
  }

  /** The writes of the blocks first..last. */
  function WritesBetween(l: Ledger, first: int, last: int): seq<Write>
    requires forall h :: first <= h <= last ==> h in l.blocks
    decreases last - first + 1
  {
    if last < first then [] else WritesBetween(l, first, last - 1) + BlockWrites(l, last)
  }

  /** t' is t with the row of block h and its first `k` transactions in place. */
  ghost predicate PartWritten(l: Ledger, t: Tables, t': Tables, h: int, k: nat) {
    && h in l.blocks && k <= |l.blocks[h].valid|
    && Sound(l, t', h) && t'.lastSynced == t.lastSynced
    && t.blocks.Keys <= t'.blocks.Keys && t.txs.Keys <= t'.txs.Keys
    && h - l.genesis in t'.blocks
    && (forall j :: 0 <= j < k ==> l.blocks[h].valid[j].txid in t'.txs)
  }

  ghost predicate PartAfter(l: Ledger, t: Tables, ws: seq<Write>, h: int, k: nat) {
    PartWritten(l, t, ApplyAll(t, ws), h, k)
  }

  ghost predicate HeldAfter(l: Ledger, t: Tables, ws: seq<Write>, last: int, top: int) {
    Held(l, ApplyAll(t, ws), last, top)
  }

  lemma FirstRow(l: Ledger, t: Tables, h: int)
    requires Sound(l, t, h) && h in l.blocks && l.genesis <= h
    ensures PartAfter(l, t, [WriteBlock(h - l.genesis, RowOfBlock(h, l.blocks[h]))], h, 0)
  {
    var w := WriteBlock(h - l.genesis, RowOfBlock(h, l.blocks[h]));
    PutRightBlock(l, t, h);
    SoundWithBlock(l, t, h);
    ApplyOneMore(t, [], w);
    assert [] + [w] == [w];
  }

  lemma NextRow(l: Ledger, t: Tables, t': Tables, h: int, k: nat, x: ValidTx)
    requires GoodLedger(l) && h in l.blocks && l.genesis <= h && k < |l.blocks[h].valid|
    requires PartWritten(l, t, t', h, k) && x == l.blocks[h].valid[k]
    ensures PartWritten(l, t, Apply(t', WriteTx(x.txid, RowOfTx(h, l.genesis, x, k))), h, k + 1)
  {
    RowIsRight(l, h, k);
    PutRightTx(l, t', x.txid, RowOfTx(h, l.genesis, x, k), h);
  }

  lemma NextRowAfter(l: Ledger, t: Tables, ws: seq<Write>, h: int, k: nat, x: ValidTx)
    requires GoodLedger(l) && h in l.blocks && l.genesis <= h && k < |l.blocks[h].valid|
    requires PartAfter(l, t, ws, h, k) && x == l.blocks[h].valid[k]
    ensures PartAfter(l, t, ws + [WriteTx(x.txid, RowOfTx(h, l.genesis, x, k))], h, k + 1)
  {
    NextRow(l, t, ApplyAll(t, ws), h, k, x);
    ApplyOneMore(t, ws, WriteTx(x.txid, RowOfTx(h, l.genesis, x, k)));
  }

  lemma {:induction false} RowWritesKeep(l: Ledger, t: Tables, h: int, k: nat)
    requires GoodLedger(l) && Sound(l, t, h) && h in l.blocks && l.genesis <= h && k <= |l.blocks[h].valid|
    ensures PartAfter(l, t, RowWrites(l, h, k), h, k)
  {
    if k == 0 {
      FirstRow(l, t, h);
    } else {
      RowWritesKeep(l, t, h, k - 1);
      NextRowAfter(l, t, RowWrites(l, h, k - 1), h, k - 1, l.blocks[h].valid[k - 1]);
    }
  }

  lemma StaysComplete(l: Ledger, t: Tables, t': Tables, last: int)
    requires Complete(l, t, last) && t.blocks.Keys <= t'.blocks.Keys && t.txs.Keys <= t'.txs.Keys
    ensures Complete(l, t', last)
  {
    forall h | l.genesis <= h <= last ensures HasBlock(l, t', h) {
      assert HasBlock(l, t, h);
    }
  }

  /** Stopping inside a block leaves the mark and what is below it. */
  lemma PartOfBlock(l: Ledger, t: Tables, last: int, k: nat)
    requires GoodLedger(l) && Held(l, t, last, last + 1) && last + 1 in l.blocks && k <= |l.blocks[last + 1].valid|
    ensures HeldAfter(l, t, RowWrites(l, last + 1, k), last, last + 1)
  {
    var ws := RowWrites(l, last + 1, k);
    RowWritesKeep(l, t, last + 1, k);
    StaysComplete(l, t, ApplyAll(t, ws), last);
  }

  lemma {:induction false} MarkKeeps(l: Ledger, t: Tables, ws: seq<Write>, last: int)
    requires GoodLedger(l) && HeldAfter(l, t, ws, last, last + 1) && HasBlock(l, ApplyAll(t, ws), last + 1)
    ensures HeldAfter(l, t, ws + [Mark(last + 1)], last + 1, last + 1)
  {
    var before := ApplyAll(t, ws);
    var t' := Apply(before, Mark(last + 1));
    ApplyOneMore(t, ws, Mark(last + 1));
    ParseOfFormat(last + 1);
    forall h | l.genesis <= h <= last + 1 ensures HasBlock(l, t', h) {
      assert HasBlock(l, before, h);
    }
  }

  lemma WholeBlock(l: Ledger, t: Tables, last: int)
    requires GoodLedger(l) && Held(l, t, last, last + 1) && last + 1 in l.blocks
    ensures HeldAfter(l, t, BlockWrites(l, last + 1), last + 1, last + 1)
  {
    var k := |l.blocks[last + 1].valid|;
    PartOfBlock(l, t, last, k);
    RowWritesKeep(l, t, last + 1, k);
    MarkKeeps(l, t, RowWrites(l, last + 1, k), last);
  }

  lemma AboveIsWeaker(l: Ledger, t: Tables, last: int)
    requires Held(l, t, last, last)
    ensures Held(l, t, last, last + 1)
  {
    forall n | n in t.blocks ensures RightBlock(l, n, t.blocks[n], last + 1) {
      assert RightBlock(l, n, t.blocks[n], last);
    }
    forall id | id in t.txs ensures RightTx(l, id, t.txs[id], last + 1) {
      assert RightTx(l, id, t.txs[id], last);
    }
  }

  lemma {:induction false} ThenMore(l: Ledger, t: Tables, a: seq<Write>, b: seq<Write>, last: int, top: int)
    requires HeldAfter(l, ApplyAll(t, a), b, last, top)
    ensures HeldAfter(l, t, a + b, last, top)
  {
    ApplyAllAppend(t, a, b);
  }

  lemma {:induction false} WholeBlocks(l: Ledger, t: Tables, last: int, end: int)
    requires GoodLedger(l) && Held(l, t, last, last + 1) && last <= end
    requires forall h :: last < h <= end ==> h in l.blocks
    ensures HeldAfter(l, t, WritesBetween(l, last + 1, end), end, end + 1)
    decreases end - last, 1
  {
    if last < end {
      SomeBlocks(l, t, last, end);
      AboveIsWeaker(l, ApplyAll(t, WritesBetween(l, last + 1, end)), end);
    }
  }

  /** Processing at least one block to its end leaves nothing in part. */
  lemma {:induction false} SomeBlocks(l: Ledger, t: Tables, last: int, end: int)
    requires GoodLedger(l) && Held(l, t, last, last + 1) && last < end
    requires forall h :: last < h <= end ==> h in l.blocks
    ensures HeldAfter(l, t, WritesBetween(l, last + 1, end), end, end)
    decreases end - last, 0
  {
    var before := WritesBetween(l, last + 1, end - 1);
    WholeBlocks(l, t, last, end - 1);
    WholeBlock(l, ApplyAll(t, before), end - 1);
    ThenMore(l, t, before, BlockWrites(l, end), end, end);
  }

  lemma {:induction false} RowsCut(l: Ledger, h: int, n: nat, m: nat)
    requires h in l.blocks && m <= n <= |l.blocks[h].valid|
    ensures RowWrites(l, h, n)[..m + 1] == RowWrites(l, h, m)
  {
    if m < n {
      RowsCut(l, h, n - 1, m);
    }
  }

  lemma {:induction false} CutBeforeMark(l: Ledger, h: int, n: nat)
    requires h in l.blocks && 1 <= n <= |l.blocks[h].valid| + 1
    ensures BlockWrites(l, h)[..n] == RowWrites(l, h, n - 1)
  {
    var k := |l.blocks[h].valid|;
    RowsCut(l, h, k, n - 1);
    assert BlockWrites(l, h)[..n] == RowWrites(l, h, k)[..n];
  }

  lemma CutOfTwo<T>(a: seq<T>, b: seq<T>, n: nat)
    requires n <= |a + b|
    ensures (a + b)[..n] == if n <= |a| then a[..n] else a + b[..n - |a|]
  {
  }

  /** A round cut short: whole blocks, then `m` writes of the next one, its mark excepted. */
  function CutWrites(l: Ledger, first: int, last: int, m: nat): seq<Write>
    requires forall h :: first <= h <= last ==> h in l.blocks
    requires m > 0 ==> last + 1 in l.blocks && m <= |l.blocks[last + 1].valid| + 1
  {
    WritesBetween(l, first, last) + if m == 0 then [] else RowWrites(l, last + 1, m - 1)
  }

  lemma {:induction false} CutIsCutWrites(l: Ledger, first: int, end: int, n: nat) returns (last: int, m: nat)
    requires first - 1 <= end
    requires forall h :: first <= h <= end ==> h in l.blocks
    requires n <= |WritesBetween(l, first, end)|
    ensures first - 1 <= last <= end
    ensures m > 0 ==> last < end && m <= |l.blocks[last + 1].valid| + 1
    ensures WritesBetween(l, first, end)[..n] == CutWrites(l, first, last, m)
    decreases end - first
  {
    var before := WritesBetween(l, first, end - 1);
    if first > end || n == |WritesBetween(l, first, end)| {
      last, m := end, 0;
    } else if n <= |before| {
      last, m := CutIsCutWrites(l, first, end - 1, n);
      CutOfTwo(before, BlockWrites(l, end), n);
    } else {
      last, m := end - 1, n - |before|;
      CutInLast(l, first, end, m);
    }
  }

  lemma CutInLast(l: Ledger, first: int, end: int, m: nat)
    requires first <= end && forall h :: first <= h <= end ==> h in l.blocks
    requires 1 <= m <= |l.blocks[end].valid| + 1
    ensures var n := |WritesBetween(l, first, end - 1)| + m;
            n <= |WritesBetween(l, first, end)| && WritesBetween(l, first, end)[..n] == CutWrites(l, first, end - 1, m)
  {
    var before := WritesBetween(l, first, end - 1);
    CutOfTwo(before, BlockWrites(l, end), |before| + m);
    CutBeforeMark(l, end, m);
  }

  lemma CutWritesHeld(l: Ledger, t: Tables, first: int, last: int, m: nat)
    requires GoodLedger(l) && Held(l, t, first - 1, first) && first - 1 <= last
    requires forall h :: first <= h <= last ==> h in l.blocks
    requires m > 0 ==> last + 1 in l.blocks && m <= |l.blocks[last + 1].valid| + 1
    ensures HeldAfter(l, t, CutWrites(l, first, last, m), last, last + 1)
  {
    hide ApplyAll, WritesBetween, RowWrites, Held, GoodLedger;
    var before := WritesBetween(l, first, last);
    WholeBlocks(l, t, first - 1, last);
    if m == 0 {
      assert before + [] == before;
    } else {
      PartOfBlock(l, ApplyAll(t, before), last, m - 1);
      ThenMore(l, t, before, RowWrites(l, last + 1, m - 1), last, last + 1);
    }
  }

  lemma {:induction false} HeldIsConsistent(l: Ledger, t: Tables, ws: seq<Write>, last: int)
    requires HeldAfter(l, t, ws, last, last + 1)
    ensures Consistent(l, ApplyAll(t, ws)) && LastSynced(l.genesis, ApplyAll(t, ws).lastSynced) == last
  {
  }

  /** Wherever a round is cut, the tables are consistent and the mark did not fall. */
  lemma CutBlocks(l: Ledger, t: Tables, last: int, end: int, n: nat, ws: seq<Write>)
    requires GoodLedger(l) && Held(l, t, last, last + 1) && last <= end
    requires forall h :: last < h <= end ==> h in l.blocks
    requires n <= |WritesBetween(l, last + 1, end)| && ws == WritesBetween(l, last + 1, end)[..n]
    ensures Consistent(l, ApplyAll(t, ws))
    ensures last <= LastSynced(l.genesis, ApplyAll(t, ws).lastSynced) <= end
  {
    var mark, m := CutIsCutWrites(l, last + 1, end, n);
    CutWritesHeld(l, t, last + 1, mark, m);
    HeldIsConsistent(l, t, ws, mark);
  }

  // ----- the unique keys of the schema -----

  predicate SamePlace(a: TxRow, b: TxRow) {
    a.bitcoinBlock == b.bitcoinBlock && a.position == b.position
  }

  /** No two block rows share a Bitcoin block, no two transaction rows a position in one. */
  ghost predicate KeysUnique(t: Tables) {
    && (forall n, k :: n in t.blocks && k in t.blocks && t.blocks[n].bitcoinBlock == t.blocks[k].bitcoinBlock ==> n == k)
    && (forall id, id' :: id in t.txs && id' in t.txs && SamePlace(t.txs[id], t.txs[id']) ==> id == id')
  }

  /** What a write asked for is there afterwards, unless it is a transaction whose id or
      place was taken; no transaction row ever changes; block rows go only if they clash. */
  lemma WriteTakesEffect(t: Tables, w: Write)
    ensures w.WriteBlock? ==> w.n in Apply(t, w).blocks && Apply(t, w).blocks[w.n] == w.row
    ensures w.WriteBlock? ==> forall k :: k in t.blocks && k != w.n && t.blocks[k].bitcoinBlock != w.row.bitcoinBlock ==>
              k in Apply(t, w).blocks && Apply(t, w).blocks[k] == t.blocks[k]
    ensures w.WriteTx? && w.id !in Apply(t, w).txs ==>
              exists k :: k in t.txs && SamePlace(t.txs[k], w.txRow)
    ensures w.WriteTx? && w.id in Apply(t, w).txs && w.id !in t.txs ==> Apply(t, w).txs[w.id] == w.txRow
    ensures forall k :: k in t.txs ==> k in Apply(t, w).txs && Apply(t, w).txs[k] == t.txs[k]
    ensures w.Mark? && InInt64(w.height) ==> ParseInt(Apply(t, w).lastSynced) == Some(w.height)
  {
    if w.Mark? && InInt64(w.height) {
      ParseOfFormat(w.height);
    }
  }

  /** Whatever is written, right or wrong, in whatever order, the keys stay unique. */
  lemma {:induction false} WritesKeepKeysUnique(t: Tables, ws: seq<Write>)
    requires KeysUnique(t)
    ensures KeysUnique(ApplyAll(t, ws))
  {
    if ws != [] {
      WritesKeepKeysUnique(t, ws[..|ws| - 1]);
      WriteKeepsKeysUnique(ApplyAll(t, ws[..|ws| - 1]), ws[|ws| - 1]);
    }
  }

  lemma WriteKeepsKeysUnique(t: Tables, w: Write)
    requires KeysUnique(t)
    ensures KeysUnique(Apply(t, w))
  {
  }
}
