/** From a Bitcoin block to the DNN positions of its valid transactions. */
module Positions {
  import opened SelfTransfer
  import opened StringOrder
  import opened TxOrder
  import opened Wrappers

  /** The valid transactions of a block, in block order. */
  function ValidTxs(txs: seq<Transaction>): seq<ValidTx> {
    if txs == [] then []
    else ValidTxs(txs[..|txs| - 1]) + ValidOne(txs[|txs| - 1])
  }

  function ValidOne(tx: Transaction): seq<ValidTx> {
    match SelfTransferAddress(tx)
    case None => []
    case Some(a) => [ValidTx(tx.txid, a, DigitSum(tx.txid))]
  }

  predicate HasTxids(txs: seq<Transaction>) {
    forall i :: 0 <= i < |txs| ==> IsTxid(txs[i].txid)
  }

  predicate DistinctTxids(txs: seq<Transaction>) {
    forall i, j :: 0 <= i < j < |txs| ==> txs[i].txid != txs[j].txid
  }

  /** Entries in position order: position k is at index k - 1. */
  function Ordered(xs: seq<ValidTx>): seq<ValidTx> {
    if xs == [] then [] else Insert(xs[0], Ordered(xs[1..]))
  }

  function Insert(x: ValidTx, xs: seq<ValidTx>): seq<ValidTx> {
    if xs == [] || Before(x, xs[0]) then [x] + xs else [xs[0]] + Insert(x, xs[1..])
  }

  ghost predicate AllWellFormed(xs: seq<ValidTx>) {
    forall i :: 0 <= i < |xs| ==> WellFormed(xs[i])
  }

  lemma {:induction false} InsertKeeps(x: ValidTx, xs: seq<ValidTx>)
    ensures multiset(Insert(x, xs)) == multiset(xs) + multiset{x}
  {
    if xs != [] && !Before(x, xs[0]) {
      InsertKeeps(x, xs[1..]);
      assert xs == [xs[0]] + xs[1..];
    }
  }

  /** No entry of `xs` belongs before `x`. */
  ghost predicate NoneBefore(x: ValidTx, xs: seq<ValidTx>) {
    forall j :: 0 <= j < |xs| ==> !Before(xs[j], x)
  }

  lemma NoneBeforeSame(x: ValidTx, xs: seq<ValidTx>, ys: seq<ValidTx>)
    requires NoneBefore(x, xs) && forall y :: y in multiset(ys) ==> y in multiset(xs)
    ensures NoneBefore(x, ys)
  {
    forall j | 0 <= j < |ys| ensures !Before(ys[j], x) {
      assert ys[j] in multiset(ys);
      var k :| 0 <= k < |xs| && xs[k] == ys[j];
    }
  }

  lemma SortedCons(x: ValidTx, xs: seq<ValidTx>)
    requires NoneBefore(x, xs) && Sorted(xs)
    ensures Sorted([x] + xs)
  {
    var r := [x] + xs;
    forall i, j | 0 <= i < j < |r| ensures !Before(r[j], r[i]) {
      assert r[j] == xs[j - 1];
      if i > 0 {
        assert r[i] == xs[i - 1];
      }
    }
  }

  lemma FirstThenRest(x: ValidTx, xs: seq<ValidTx>)
    requires WellFormed(x) && AllWellFormed(xs) && Sorted(xs)
    requires xs == [] || !Before(xs[0], x)
    ensures NoneBefore(x, xs)
  {
    forall j | 0 <= j < |xs| ensures !Before(xs[j], x) {
      if j > 0 {
        assert !Before(xs[j], xs[0]);
        NotBeforeTransitive(x, xs[0], xs[j]);
      }
    }
  }

  lemma {:induction false} InsertSorts(x: ValidTx, xs: seq<ValidTx>)
    requires WellFormed(x) && AllWellFormed(xs) && Sorted(xs)
    ensures Sorted(Insert(x, xs))
  {
    if xs == [] {
    } else if Before(x, xs[0]) {
      BeforeIsStrictTotalOrder(x, xs[0], x);
      FirstThenRest(x, xs);
      SortedCons(x, xs);
    } else {
      InsertSorts(x, xs[1..]);
      InsertKeeps(x, xs[1..]);
      assert NoneBefore(xs[0], [x] + xs[1..]);
      NoneBeforeSame(xs[0], [x] + xs[1..], Insert(x, xs[1..]));
      SortedCons(xs[0], Insert(x, xs[1..]));
    }
  }

  lemma WellFormedSame(xs: seq<ValidTx>, ys: seq<ValidTx>)
    requires AllWellFormed(xs) && multiset(ys) == multiset(xs)
    ensures AllWellFormed(ys)
  {
    forall i | 0 <= i < |ys| ensures WellFormed(ys[i]) {
      assert ys[i] in multiset(xs);
    }
  }

  lemma NothingSorted()
    ensures Sorted([]) && Ordered([]) == []
  {
  }

  lemma TailWellFormed(xs: seq<ValidTx>)
    requires xs != [] && AllWellFormed(xs)
    ensures WellFormed(xs[0]) && AllWellFormed(xs[1..])
  {
  }

  lemma {:induction false} OrderedSorts(xs: seq<ValidTx>)
    requires AllWellFormed(xs)
    ensures Sorted(Ordered(xs)) && multiset(Ordered(xs)) == multiset(xs)
  {
    hide Sorted, AllWellFormed, Before;
    if xs == [] {
      NothingSorted();
    } else {
      TailWellFormed(xs);
      OrderedSorts(xs[1..]);
      WellFormedSame(xs[1..], Ordered(xs[1..]));
      InsertSorts(xs[0], Ordered(xs[1..]));
      InsertKeeps(xs[0], Ordered(xs[1..]));
      assert xs == [xs[0]] + xs[1..];
    }
  }

  function Ids(txs: seq<Transaction>): set<string> {
    set i | 0 <= i < |txs| :: txs[i].txid
  }

  lemma {:induction false} ValidTxsIds(txs: seq<Transaction>)
    requires HasTxids(txs)
    ensures AllWellFormed(ValidTxs(txs))
    ensures forall j :: 0 <= j < |ValidTxs(txs)| ==> ValidTxs(txs)[j].txid in Ids(txs)
  {
    hide DigitSum, IsTxid, SelfTransferAddress;
    if txs != [] {
      var n := |txs| - 1;
      ValidTxsIds(txs[..n]);
      assert IsTxid(txs[n].txid) && txs[n].txid in Ids(txs);
      assert Ids(txs[..n]) <= Ids(txs) by {
        assert forall i :: 0 <= i < n ==> txs[..n][i] == txs[i];
      }
    }
  }

  lemma EntriesOneMore(xs: seq<ValidTx>, one: seq<ValidTx>)
    requires Entries(xs) && |one| <= 1
    requires one != [] ==> WellFormed(one[0]) && forall j :: 0 <= j < |xs| ==> xs[j].txid != one[0].txid
    ensures Entries(xs + one)
  {
  }

  lemma ValidOneIds(tx: Transaction)
    requires IsTxid(tx.txid)
    ensures |ValidOne(tx)| <= 1 && (ValidOne(tx) != [] ==> ValidOne(tx)[0].txid == tx.txid && WellFormed(ValidOne(tx)[0]))
  {
  }

  lemma {:induction false} ValidTxsEntries(txs: seq<Transaction>)
    requires HasTxids(txs) && DistinctTxids(txs)
    ensures Entries(ValidTxs(txs))
  {
    hide IsTxid, WellFormed, ValidOne, Entries;
    if txs == [] {
      NoEntries();
    } else {
      var n := |txs| - 1;
      ValidTxsEntries(txs[..n]);
      ValidTxsIds(txs[..n]);
      ValidOneIds(txs[n]);
      assert txs[n].txid !in Ids(txs[..n]);
      EntriesOneMore(ValidTxs(txs[..n]), ValidOne(txs[n]));
    }
  }

  lemma NoEntries()
    ensures Entries(ValidTxs([]))
  {
  }

  lemma {:induction false} SamePlacesSameIds(xs: seq<ValidTx>, ys: seq<ValidTx>)
    requires Entries(xs) && multiset(xs) == multiset(ys)
    ensures Entries(ys)
  {
    forall i | 0 <= i < |ys| ensures WellFormed(ys[i]) {
      assert ys[i] in multiset(xs);
    }
    forall i, j | 0 <= i < j < |ys| ensures ys[i].txid != ys[j].txid {
      if ys[i].txid == ys[j].txid {
        assert ys[i] in multiset(xs) && ys[j] in multiset(xs);
        var p :| 0 <= p < |xs| && xs[p] == ys[i];
        var q :| 0 <= q < |xs| && xs[q] == ys[j];
        assert p == q && ys[i] == ys[j];
        TwiceInSeq(ys, i, j);
        OnceInEntries(xs, p);
      }
    }
  }

  lemma TwiceInSeq(ys: seq<ValidTx>, i: nat, j: nat)
    requires i < j < |ys| && ys[i] == ys[j]
    ensures multiset(ys)[ys[i]] >= 2
  {
    assert ys == ys[..j] + [ys[j]] + ys[j + 1..];
    assert ys[..j][i] == ys[i];
  }

  lemma OnceInEntries(xs: seq<ValidTx>, p: nat)
    requires Entries(xs) && p < |xs|
    ensures multiset(xs)[xs[p]] == 1
  {
    assert xs == xs[..p] + [xs[p]] + xs[p + 1..];
    assert xs[p] !in xs[..p] && xs[p] !in xs[p + 1..];
  }

  /** Filter the block, then sort in place. */
  method FindValidDNNTransactions(txs: seq<Transaction>) returns (positions: seq<ValidTx>)
    requires HasTxids(txs)
    ensures Sorted(positions) && multiset(positions) == multiset(ValidTxs(txs))
    ensures DistinctTxids(txs) ==> positions == Ordered(ValidTxs(txs))
  {
    hide IsTxid, DigitSum, SelfTransferAddress, Ordered, Sorted, DistinctTxids, HasTxids;
    var found: seq<ValidTx> := [];
    for i := 0 to |txs|
      invariant found == ValidTxs(txs[..i])
    {
      assert txs[..i + 1][..i] == txs[..i];
      var valid := IsValidDNNTransaction(txs[i]);
      if valid.Some? {
        var sum := TxidDigitSum(txs[i].txid);
        found := found + [ValidTx(txs[i].txid, valid.value, sum)];
      }
    }
    assert txs[..|txs|] == txs;
    ValidTxsIds(txs);
    if found == [] {
      NothingSorted();
      return found;
    }
    var slice := new ValidTx[|found|](i requires 0 <= i < |found| => found[i]);
    assert slice[..] == found;
    SortSlice(slice);
    positions := slice[..];
    if DistinctTxids(txs) {
      SortedIsOrdered(txs, positions);
    }
  }

  lemma {:induction false} SortedIsOrdered(txs: seq<Transaction>, positions: seq<ValidTx>)
    requires HasTxids(txs) && DistinctTxids(txs)
    requires Sorted(positions) && multiset(positions) == multiset(ValidTxs(txs))
    ensures positions == Ordered(ValidTxs(txs))
  {
    hide ValidTxs, Ordered, Sorted, Entries;
    var found := ValidTxs(txs);
    ValidTxsEntries(txs);
    ValidTxsIds(txs);
    OrderedSorts(found);
    SamePlacesSameIds(found, positions);
    SamePlacesSameIds(found, Ordered(found));
    SortedArrangementUnique(positions, Ordered(found));
  }

  lemma Assoc(a: seq<ValidTx>, b: seq<ValidTx>, c: seq<ValidTx>)
    ensures (a + b) + c == a + (b + c)
  {
  }

  lemma NoValidTxs()
    ensures ValidTxs([]) == []
  {
  }

  lemma {:induction false} ValidTxsOneMore(txs: seq<Transaction>, x: Transaction)
    ensures ValidTxs(txs + [x]) == ValidTxs(txs) + ValidOne(x)
  {
    assert (txs + [x])[..|txs|] == txs;
  }

  lemma {:induction false} ValidTxsConcat(a: seq<Transaction>, b: seq<Transaction>)
    ensures ValidTxs(a + b) == ValidTxs(a) + ValidTxs(b)
  {
    hide ValidTxs, ValidOne;
    NoValidTxs();
    if b == [] {
      assert a + b == a;
    } else {
      var n := |b| - 1;
      ValidTxsConcat(a, b[..n]);
      ValidTxsOneMore(b[..n], b[n]);
      ValidTxsOneMore(a + b[..n], b[n]);
      assert b[..n] + [b[n]] == b && (a + b[..n]) + [b[n]] == a + b;
      Assoc(ValidTxs(a), ValidTxs(b[..n]), ValidOne(b[n]));
    }
  }

  lemma {:induction false} ValidTxsAround(p: seq<Transaction>, x: Transaction, q: seq<Transaction>)
    ensures multiset(ValidTxs(p + ([x] + q))) == multiset(ValidTxs(p + q)) + multiset(ValidTxs([x]))
  {
    ValidTxsConcat(p, [x] + q);
    ValidTxsConcat([x], q);
    ValidTxsConcat(p, q);
  }

  lemma MultisetAround(p: seq<Transaction>, x: Transaction, q: seq<Transaction>)
    ensures multiset(p + ([x] + q)) == multiset(p + q) + multiset{x}
  {
  }

  lemma SplitAt(b: seq<Transaction>, k: nat)
    requires k < |b|
    ensures b == b[..k] + ([b[k]] + b[k + 1..])
  {
  }

  lemma {:induction false} ValidTxsOfRearranged(a: seq<Transaction>, b: seq<Transaction>)
    requires multiset(a) == multiset(b)
    ensures multiset(ValidTxs(a)) == multiset(ValidTxs(b))
    decreases |a|
  {
    if a == [] {
      assert |multiset(b)| == 0;
    } else {
      var x, s := a[0], a[1..];
      SplitAt(a, 0);
      assert a == [x] + s;
      assert x in multiset(b);
      var k :| 0 <= k < |b| && b[k] == x;
      var p, q := b[..k], b[k + 1..];
      SplitAt(b, k);
      RestIsRearranged(a, b, x, s, p, q);
      ValidTxsOfRearranged(s, p + q);
      Reassemble(x, s, p, q);
    }
  }

  lemma RestIsRearranged(a: seq<Transaction>, b: seq<Transaction>, x: Transaction, s: seq<Transaction>,
                         p: seq<Transaction>, q: seq<Transaction>)
    requires a == [x] + s && b == p + ([x] + q) && multiset(a) == multiset(b)
    ensures multiset(s) == multiset(p + q)
  {
    MultisetAround(p, x, q);
    assert multiset(s) == multiset(a) - multiset{x};
    assert multiset(p + q) == multiset(b) - multiset{x};
  }

  lemma {:induction false} Reassemble(x: Transaction, s: seq<Transaction>, p: seq<Transaction>, q: seq<Transaction>)
    requires multiset(ValidTxs(s)) == multiset(ValidTxs(p + q))
    ensures multiset(ValidTxs([x] + s)) == multiset(ValidTxs(p + ([x] + q)))
  {
    ValidTxsConcat([x], s);
    ValidTxsAround(p, x, q);
    assert multiset(ValidTxs([x]) + ValidTxs(s)) == multiset(ValidTxs([x])) + multiset(ValidTxs(s));
  }

  /** Every node gives the same position to the same transaction: rearranging a block's
      transactions does not change who is at which position. */
  lemma {:induction false} PositionsIgnoreBlockOrder(a: seq<Transaction>, b: seq<Transaction>)
    requires HasTxids(a) && DistinctTxids(a) && HasTxids(b) && DistinctTxids(b)
    requires multiset(a) == multiset(b)
    ensures Ordered(ValidTxs(a)) == Ordered(ValidTxs(b))
  {
    var x, y := ValidTxs(a), ValidTxs(b);
    ValidTxsOfRearranged(a, b);
    ValidTxsEntries(a);
    ValidTxsEntries(b);
    OrderedSorts(x);
    OrderedSorts(y);
    SamePlacesSameIds(x, Ordered(x));
    SamePlacesSameIds(y, Ordered(y));
    SortedArrangementUnique(Ordered(x), Ordered(y));
  }

  // ----- who gets which position -----

  /** Exactly the transactions that transfer to themselves are entries, with their id,
      address and digit sum. */
  lemma {:induction false} EntriesAre(txs: seq<Transaction>, x: ValidTx)
    ensures x in ValidTxs(txs)
       <==> x.sum == DigitSum(x.txid) && exists i :: 0 <= i < |txs| && txs[i].txid == x.txid && TransfersToItself(txs[i], x.address)
  {
    hide TransfersToItself, DigitSum;
    if txs != [] {
      var n := |txs| - 1;
      EntriesAre(txs[..n], x);
      OneEntryIs(txs[n], x);
      if i :| 0 <= i < |txs| && txs[i].txid == x.txid && TransfersToItself(txs[i], x.address) {
        assert i < n ==> txs[..n][i] == txs[i];
      }
    }
  }

  lemma OneEntryIs(tx: Transaction, x: ValidTx)
    ensures x in ValidOne(tx) <==> x.sum == DigitSum(x.txid) && tx.txid == x.txid && TransfersToItself(tx, x.address)
  {
    hide DigitSum;
  }

  /** The entry at index k, position k + 1, is the one that exactly k entries outrank: those
      with a greater digit sum, or the same sum and a greater id. */
  lemma PositionIsRank(xs: seq<ValidTx>, j: nat, k: nat)
    requires Entries(xs) && Sorted(xs) && j < |xs| && k < |xs|
    ensures j < k <==> DigitSum(xs[j].txid) > DigitSum(xs[k].txid)
                       || (DigitSum(xs[j].txid) == DigitSum(xs[k].txid) && Less(xs[k].txid, xs[j].txid))
  {
    hide DigitSum, Less;
    assert WellFormed(xs[j]) && WellFormed(xs[k]);
    BeforeIsBySumThenText(xs[j], xs[k]);
    BeforeIsStrictTotalOrder(xs[j], xs[k], xs[k]);
  }
}
