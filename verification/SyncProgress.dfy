/** When sync rounds get on: where a round ends and why, and how repeated rounds catch up
    with the chain. */
module SyncProgress {
  import opened Int64
  import opened BlockTables
  import opened BlockLedger
  import opened BlockSync
  import opened Wrappers

  /** Block h is there, both lookups of it succeed and, where the REST source is asked (the
      first block of a round and every hundredth), it fails or tells the same hash. */
  ghost predicate GoesThrough(l: Ledger, r: Round, last: int, h: int) {
    && h in l.blocks && h !in r.hashFails && h !in r.blockFails
    && ((h == last + 1 || h % 100 == 0) && h in r.rest ==> r.rest[h] == l.blocks[h].hash)
  }

  /** A round that has anything to do ends at its batch or at the chain's height, whichever
      comes first, or in front of the first block that does not go through. */
  lemma RoundEndsExactly(l: Ledger, batch: nat, last: int, r: Round, height: int, e: int)
    requires r.height == Some(height) && last < height
    ensures RoundEnd(l, batch, last, r) == e
       <==> && last <= e <= height && e <= last + batch
            && (forall h :: last < h <= e ==> GoesThrough(l, r, last, h))
            && (e < height && e < last + batch ==> !GoesThrough(l, r, last, e + 1))
  {
    var limit := if last + batch < height then last + batch else height;
    ReachIs(l, r, last + 1, limit, e);
    ReachedExactly(l, r, last, limit, e);
  }

  lemma ReachedExactly(l: Ledger, r: Round, last: int, limit: int, e: int)
    ensures Reached(l, r, last + 1, limit, e)
       <==> last <= e <= limit && (forall h :: last < h <= e ==> GoesThrough(l, r, last, h)) && (e < limit ==> !GoesThrough(l, r, last, e + 1))
  {
    hide GoesThrough, Stops;
    StopsExactly(l, r, last, e + 1);
    if Reached(l, r, last + 1, limit, e) {
      forall h | last < h <= e ensures GoesThrough(l, r, last, h) {
        StopsExactly(l, r, last, h);
      }
    }
    if forall h :: last < h <= e ==> GoesThrough(l, r, last, h) {
      var first := last + 1;
      forall h | first <= h <= e ensures !Stops(l, r, first, h) {
        StopsExactly(l, r, last, h);
      }
    }
  }

  lemma StopsExactly(l: Ledger, r: Round, last: int, h: int)
    ensures Stops(l, r, last + 1, h) <==> !GoesThrough(l, r, last, h)
  {
  }

  /** Otherwise it goes nowhere. */
  lemma RoundStaysExactly(l: Ledger, batch: int, last: int, r: Round)
    ensures r.height.None? || last >= r.height.value || batch <= 0 ==> RoundEnd(l, batch, last, r) == last
    ensures RoundOutcome(l, batch, last, r) == HeightFailed <==> r.height.None?
    ensures RoundOutcome(l, batch, last, r) == CaughtUp <==> r.height.Some? && last >= r.height.value
  {
    RoundEndCovered(l, batch, last, r);
  }

  /** A divergence is reported, and the header cache dropped, exactly when the REST source is
      asked in front of the block a round stops at and tells another hash. */
  lemma DivergesExactly(l: Ledger, batch: nat, last: int, r: Round, height: int, h: int)
    requires r.height == Some(height) && last < height
    ensures RoundOutcome(l, batch, last, r) == Diverged(h)
       <==> && last < h <= height && h <= last + batch && RoundEnd(l, batch, last, r) == h - 1
            && h in l.blocks && h !in r.hashFails && (h == last + 1 || h % 100 == 0)
            && h in r.rest && r.rest[h] != l.blocks[h].hash
  {
    RoundEndsExactly(l, batch, last, r, height, RoundEnd(l, batch, last, r));
  }

  lemma {:induction false} FirstWrite(l: Ledger, first: int, last: int)
    requires first <= last && forall h :: first <= h <= last ==> h in l.blocks
    ensures WritesBetween(l, first, last) != []
    ensures WritesBetween(l, first, last)[0] == WriteBlock(first - l.genesis, RowOfBlock(first, l.blocks[first]))
    decreases last - first
  {
    if first < last {
      FirstWrite(l, first, last - 1);
    } else {
      RowsCut(l, last, |l.blocks[last].valid|, 0);
      assert RowWrites(l, last, |l.blocks[last].valid|)[0] == RowWrites(l, last, |l.blocks[last].valid|)[..1][0];
    }
  }

  /** A round that gets anywhere begins with the block after the mark, or, where there is no
      mark or none that can be read, with genesis. */
  lemma {:induction false} RoundBeginsWith(l: Ledger, batch: nat, t: Tables, r: Round, first: int)
    requires first == (if t.lastSynced == "" || ParseInt(t.lastSynced).None? then l.genesis else ParseInt(t.lastSynced).value + 1)
    ensures RoundWrites(l, batch, t, r) != [] ==>
      && first in l.blocks
      && RoundWrites(l, batch, t, r)[0]
         == WriteBlock(first - l.genesis, BlockRow(first, l.blocks[first].hash, l.blocks[first].time))
  {
    hide WritesBetween, RoundEnd;
    RoundEndCovered(l, batch, Last(l, t), r);
    if first <= RoundEnd(l, batch, Last(l, t), r) {
      FirstWrite(l, first, RoundEnd(l, batch, Last(l, t), r));
    } else {
      NoWrites(l, first, RoundEnd(l, batch, Last(l, t), r));
    }
  }

  lemma {:induction false} NoWrites(l: Ledger, first: int, last: int)
    requires last < first
    ensures WritesBetween(l, first, last) == []
  {
  }

  // ----- catching up -----

  /** The mark after a round that is left to finish. */
  lemma {:induction false} MarkAfterRound(l: Ledger, batch: int, t: Tables, r: Round)
    requires GoodLedger(l) && Consistent(l, t)
    ensures Last(l, ApplyAll(t, RoundWrites(l, batch, t, r))) == RoundEnd(l, batch, Last(l, t), r)
  {
    RoundEndCovered(l, batch, Last(l, t), r);
    if RoundEnd(l, batch, Last(l, t), r) > Last(l, t) {
      FinishedRoundIsExact(l, batch, t, r);
    } else {
      StateBeforeBlocks(l, t, Last(l, t) + 1);
    }
  }

  /** Everything up to `height` can be looked up in this round. */
  ghost predicate ClearWay(l: Ledger, r: Round, height: int, from: int) {
    r.height == Some(height) && forall h :: from < h <= height ==> GoesThrough(l, r, from, h)
  }

  /** A round that finds the way clear moves the mark by its batch, or to the tip. */
  lemma {:induction false} RoundAdvances(l: Ledger, batch: nat, t: Tables, r: Round, height: int)
    requires GoodLedger(l) && Consistent(l, t) && Last(l, t) <= height && ClearWay(l, r, height, Last(l, t))
    ensures Last(l, ApplyAll(t, RoundWrites(l, batch, t, r))) == if Last(l, t) + batch < height then Last(l, t) + batch else height
  {
    var last := Last(l, t);
    MarkAfterRound(l, batch, t, r);
    if last < height {
      RoundEndsExactly(l, batch, last, r, height, if last + batch < height then last + batch else height);
    } else {
      RoundStaysExactly(l, batch, last, r);
    }
  }

  /** Rounds i.. of a run finish and find the way clear. */
  ghost predicate Unhindered(l: Ledger, batch: nat, states: seq<Tables>, rounds: seq<Round>, cuts: seq<nat>, i: nat, j: nat, height: int)
    requires |states| == |rounds| + 1 && |cuts| == |rounds| && i <= j <= |rounds|
  {
    forall k :: i <= k < j ==>
      ClearWay(l, rounds[k], height, Last(l, states[k])) && cuts[k] == |RoundWrites(l, batch, states[k], rounds[k])|
  }

  /** From any state of any run, wherever earlier rounds failed or were cut: rounds that are
      not hindered move the mark batch by batch until it is at the tip. */
  lemma {:induction false} RunCatchesUp(l: Ledger, batch: nat, states: seq<Tables>, rounds: seq<Round>, cuts: seq<nat>, i: nat, j: nat, height: int)
    requires GoodLedger(l) && IsRun(l, batch, states, rounds, cuts) && i <= j < |states|
    requires Unhindered(l, batch, states, rounds, cuts, i, j, height) && Last(l, states[i]) <= height
    ensures Last(l, states[j])
         == if Last(l, states[i]) + (j - i) * batch < height then Last(l, states[i]) + (j - i) * batch else height
  {
    hide Consistent, GoodLedger, ClearWay, RoundWrites, LastSynced, IsStep;
    if i < j {
      RunCatchesUp(l, batch, states, rounds, cuts, i, j - 1, height);
      RunStaysConsistent(l, batch, states, rounds, cuts, j - 1);
      assert IsStep(l, batch, states[j - 1], states[j - 1 + 1], rounds[j - 1], cuts[j - 1]);
      assert ClearWay(l, rounds[j - 1], height, Last(l, states[j - 1]));
      StepAdvances(l, batch, states[j - 1], states[j], rounds[j - 1], cuts[j - 1], height);
      OneBatchMore(j - i, batch);
    }
  }

  lemma StepAdvances(l: Ledger, batch: nat, t: Tables, t': Tables, r: Round, cut: nat, height: int)
    requires GoodLedger(l) && Consistent(l, t) && Last(l, t) <= height && ClearWay(l, r, height, Last(l, t))
    requires IsStep(l, batch, t, t', r, cut) && cut == |RoundWrites(l, batch, t, r)|
    ensures Last(l, t') == if Last(l, t) + batch < height then Last(l, t) + batch else height
  {
    hide Consistent, GoodLedger, ClearWay, RoundWrites, LastSynced;
    var ws := RoundWrites(l, batch, t, r);
    assert ws[..cut] == ws;
    RoundAdvances(l, batch, t, r, height);
  }

  lemma OneBatchMore(k: nat, batch: nat)
    requires k > 0
    ensures k * batch == (k - 1) * batch + batch
  {
  }
}
