/** Runs that mix sync rounds, cut anywhere, with reorganisation checks, on tables that an
    earlier chain may have left: which rows are wrong after which steps, and where gaps
    come from. */
module ReorgRuns {
  import opened Wrappers
  import opened Int64
  import opened BlockTables
  import opened BlockLedger
  import opened BlockSync
  import opened Reorg

  datatype Event = SyncRound(batch: int, round: Round, cut: nat) | Check(sources: Sources) | FailedCheck

  /** The ledger of the present chain, and its hashes at all heights. */
  ghost predicate LedgerTells(l: Ledger, c: int -> string) {
    forall h :: h in l.blocks ==> l.blocks[h].hash == c(h)
  }

  /** Row n is there with the chain's hash. */
  ghost predicate Right(genesis: int, c: int -> string, t: Tables, n: int) {
    n in t.blocks && t.blocks[n].hash == c(genesis + n)
  }

  /** What a check meets while the mark is at `mark`: sources that tell the chain, and
      heights that do not fall below the mark or each other. */
  ghost predicate FairSources(genesis: int, c: int -> string, s: Sources, mark: int) {
    && s.height1.Some? && SourcesTell(s, c, WindowStart(genesis, s.height1.value))
    && mark <= s.height1.value <= s.height2.value
  }

  ghost predicate MixedStep(l: Ledger, c: int -> string, t: Tables, e: Event, t': Tables) {
    match e
    case SyncRound(batch, r, cut) => IsStep(l, batch, t, t', r, cut)
    case Check(s) =>
      && FairSources(l.genesis, c, s, Last(l, t))
      && After(l.genesis, t.blocks, s, t'.blocks) && t' == t.(blocks := t'.blocks)
    case FailedCheck => t' == t
  }

  ghost predicate IsMixedRun(l: Ledger, c: int -> string, states: seq<Tables>, events: seq<Event>) {
    |states| == |events| + 1 && forall i :: 0 <= i < |events| ==> MixedStep(l, c, states[i], events[i], states[i + 1])
  }

  /** Rows in their places, none missing up to the mark. */
  ghost predicate InOrder(l: Ledger, t: Tables) {
    Aligned(l.genesis, t.blocks) && l.genesis - 1 <= Last(l, t) && Covers(t.blocks, Last(l, t) - l.genesis)
  }

  // ----- what writes do to the block rows -----

  /** t' is t with the present chain's rows for first..last. */
  ghost predicate RowsWritten(l: Ledger, t: Tables, t': Tables, first: int, last: int) {
    && (forall h :: first <= h <= last ==> h in l.blocks)
    && (forall n :: n in t'.blocks <==> n in t.blocks || first <= l.genesis + n <= last)
    && (forall n :: n in t'.blocks ==>
          t'.blocks[n] == if first <= l.genesis + n <= last then RowOfBlock(l.genesis + n, l.blocks[l.genesis + n]) else t.blocks[n])
  }

  lemma RowsWrittenAligned(l: Ledger, t: Tables, t': Tables, first: int, last: int)
    requires Aligned(l.genesis, t.blocks) && RowsWritten(l, t, t', first, last) && l.genesis <= first
    ensures Aligned(l.genesis, t'.blocks)
  {
  }

  lemma WriteNextBlock(l: Ledger, t: Tables, t': Tables, first: int, h: int)
    requires Aligned(l.genesis, t.blocks) && RowsWritten(l, t, t', first, h - 1) && l.genesis <= first <= h && h in l.blocks
    ensures RowsWritten(l, t, Apply(t', WriteBlock(h - l.genesis, RowOfBlock(h, l.blocks[h]))), first, h)
  {
    RowsWrittenAligned(l, t, t', first, h - 1);
    var n := h - l.genesis;
    forall k | k in t'.blocks && t'.blocks[k].bitcoinBlock == h ensures k == n {}
    assert PutBlock(t'.blocks, n, RowOfBlock(h, l.blocks[h])) == t'.blocks[n := RowOfBlock(h, l.blocks[h])];
  }

  /** Writing transactions leaves the block rows. */
  lemma {:induction false} RowWritesRows(l: Ledger, t: Tables, h: int, k: nat)
    requires Aligned(l.genesis, t.blocks) && l.genesis <= h && h in l.blocks && k <= |l.blocks[h].valid|
    ensures ApplyAll(t, RowWrites(l, h, k)).blocks == Apply(t, WriteBlock(h - l.genesis, RowOfBlock(h, l.blocks[h]))).blocks
  {
    hide ApplyAll, RowWrites, PutBlock;
    if k == 0 {
      StateAfterFirst(l, t, h);
    } else {
      RowWritesRows(l, t, h, k - 1);
      StateAfterRow(l, t, h, k - 1, l.blocks[h].valid[k - 1]);
    }
  }

  lemma NoRowsWritten(l: Ledger, t: Tables, first: int)
    ensures RowsWritten(l, t, t, first, first - 1)
  {
  }

  /** The block rows after the whole blocks first..last. */
  lemma {:induction false} BlocksWritten(l: Ledger, t: Tables, first: int, last: int)
    requires Aligned(l.genesis, t.blocks) && l.genesis <= first && first - 1 <= last
    requires forall h :: first <= h <= last ==> h in l.blocks
    ensures RowsWritten(l, t, ApplyAll(t, WritesBetween(l, first, last)), first, last)
    decreases last - first
  {
    hide ApplyAll, WritesBetween, BlockWrites, RowWrites, FormatInt, RowsWritten, Aligned;
    if last < first {
      StateBeforeBlocks(l, t, first);
      NoRowsWritten(l, t, first);
    } else {
      var before := ApplyAll(t, WritesBetween(l, first, last - 1));
      BlocksWritten(l, t, first, last - 1);
      StateAfterBlock(l, t, first, last);
      StateAfterMark(l, before, last);
      var rows := ApplyAll(before, RowWrites(l, last, |l.blocks[last].valid|));
      RowsOfNextBlock(l, t, before, first, last, |l.blocks[last].valid|);
      SameRowsWritten(l, t, rows, Apply(rows, Mark(last)), first, last);
    }
  }

  /** A cut round is some whole blocks and part of the next. */
  lemma StepIsCut(l: Ledger, batch: int, t: Tables, t': Tables, r: Round, cut: nat) returns (last: int, m: nat)
    requires IsStep(l, batch, t, t', r, cut)
    ensures Last(l, t) <= last <= RoundEnd(l, batch, Last(l, t), r)
    ensures forall h :: Last(l, t) < h <= last ==> h in l.blocks
    ensures m > 0 ==> last + 1 in l.blocks && m <= |l.blocks[last + 1].valid| + 1
    ensures t' == ApplyAll(t, CutWrites(l, Last(l, t) + 1, last, m))
  {
    hide ApplyAll, WritesBetween, CutWrites, RoundEnd;
    var first, end := Last(l, t) + 1, RoundEnd(l, batch, Last(l, t), r);
    RoundEndCovered(l, batch, Last(l, t), r);
    last, m := CutIsCutWrites(l, first, end, cut);
  }

  /** A round, cut anywhere, writes the rows above the mark up to some block, and moves the
      mark to that block or the one below it. */
  lemma CutRoundWritesRows(l: Ledger, batch: int, t: Tables, t': Tables, r: Round, cut: nat) returns (top: int)
    requires GoodLedger(l) && Aligned(l.genesis, t.blocks) && l.genesis - 1 <= Last(l, t) && IsStep(l, batch, t, t', r, cut)
    ensures RowsWritten(l, t, t', Last(l, t) + 1, top)
    ensures Last(l, t) <= Last(l, t') <= top <= Last(l, t') + 1
  {
    hide IsStep, ApplyAll, CutWrites, RowsWritten, GoodLedger, LastSynced, FormatInt;
    var first := Last(l, t) + 1;
    var last, m := StepIsCut(l, batch, t, t', r, cut);
    top := if m == 0 then last else last + 1;
    CutWritesRows(l, t, first, last, m);
    CutMark(l, t, first, last, m);
    MarkAfter(l, t, t', first, last);
  }

  lemma MarkAfter(l: Ledger, t: Tables, t': Tables, first: int, last: int)
    requires GoodLedger(l) && first == Last(l, t) + 1 && first - 1 <= last && (first <= last ==> last in l.blocks)
    requires t'.lastSynced == if first <= last then FormatInt(last) else t.lastSynced
    ensures Last(l, t') == last
  {
    if first <= last {
      ParseOfFormat(last);
    }
  }

  lemma {:induction false} CutMark(l: Ledger, t: Tables, first: int, last: int, m: nat)
    requires first - 1 <= last && forall h :: first <= h <= last ==> h in l.blocks
    requires m > 0 ==> last + 1 in l.blocks && m <= |l.blocks[last + 1].valid| + 1
    ensures ApplyAll(t, CutWrites(l, first, last, m)).lastSynced == if first <= last then FormatInt(last) else t.lastSynced
  {
    hide ApplyAll, WritesBetween, RowWrites, FormatInt;
    var whole := WritesBetween(l, first, last);
    BlocksMark(l, t, first, last);
    if m == 0 {
      assert whole + [] == whole;
    } else {
      ApplyAllAppend(t, whole, RowWrites(l, last + 1, m - 1));
      RowWritesMark(l, ApplyAll(t, whole), last + 1, m - 1);
    }
  }

  lemma {:induction false} RowWritesMark(l: Ledger, t: Tables, h: int, k: nat)
    requires h in l.blocks && k <= |l.blocks[h].valid|
    ensures ApplyAll(t, RowWrites(l, h, k)).lastSynced == t.lastSynced
  {
    hide ApplyAll, RowWrites, PutBlock;
    if k == 0 {
      StateAfterFirst(l, t, h);
    } else {
      RowWritesMark(l, t, h, k - 1);
      StateAfterRow(l, t, h, k - 1, l.blocks[h].valid[k - 1]);
    }
  }

  lemma {:induction false} BlocksMark(l: Ledger, t: Tables, first: int, last: int)
    requires first - 1 <= last && forall h :: first <= h <= last ==> h in l.blocks
    ensures ApplyAll(t, WritesBetween(l, first, last)).lastSynced == if first <= last then FormatInt(last) else t.lastSynced
  {
    hide ApplyAll, WritesBetween, BlockWrites, FormatInt;
    if first <= last {
      StateAfterBlock(l, t, first, last);
      StateAfterMark(l, ApplyAll(t, WritesBetween(l, first, last - 1)), last);
    } else {
      StateBeforeBlocks(l, t, first);
    }
  }

  lemma {:induction false} CutWritesRows(l: Ledger, t: Tables, first: int, last: int, m: nat)
    requires Aligned(l.genesis, t.blocks) && l.genesis <= first && first - 1 <= last
    requires forall h :: first <= h <= last ==> h in l.blocks
    requires m > 0 ==> last + 1 in l.blocks && m <= |l.blocks[last + 1].valid| + 1
    ensures RowsWritten(l, t, ApplyAll(t, CutWrites(l, first, last, m)), first, if m == 0 then last else last + 1)
  {
    hide ApplyAll, WritesBetween, RowWrites, FormatInt, RowsWritten, Aligned;
    var whole := WritesBetween(l, first, last);
    BlocksWritten(l, t, first, last);
    if m == 0 {
      assert whole + [] == whole;
    } else {
      ApplyAllAppend(t, whole, RowWrites(l, last + 1, m - 1));
      RowsOfNextBlock(l, t, ApplyAll(t, whole), first, last + 1, m - 1);
    }
  }

  lemma {:induction false} RowsOfNextBlock(l: Ledger, t: Tables, t': Tables, first: int, h: int, k: nat)
    requires Aligned(l.genesis, t.blocks) && RowsWritten(l, t, t', first, h - 1) && l.genesis <= first <= h && h in l.blocks
    requires k <= |l.blocks[h].valid|
    ensures RowsWritten(l, t, ApplyAll(t', RowWrites(l, h, k)), first, h)
  {
    hide ApplyAll, RowWrites;
    RowsWrittenAligned(l, t, t', first, h - 1);
    RowWritesRows(l, t', h, k);
    WriteNextBlock(l, t, t', first, h);
    SameRowsWritten(l, t, Apply(t', WriteBlock(h - l.genesis, RowOfBlock(h, l.blocks[h]))), ApplyAll(t', RowWrites(l, h, k)), first, h);
  }

  lemma SameRowsWritten(l: Ledger, t: Tables, a: Tables, b: Tables, first: int, last: int)
    requires RowsWritten(l, t, a, first, last) && a.blocks == b.blocks
    ensures RowsWritten(l, t, b, first, last)
  {
  }

  /** A round moves the mark at most to the height it was told. */
  lemma MarkNotAboveHeight(l: Ledger, batch: int, t: Tables, t': Tables, r: Round, cut: nat)
    requires GoodLedger(l) && IsStep(l, batch, t, t', r, cut) && Last(l, t) < Last(l, t')
    ensures r.height.Some? && Last(l, t') <= r.height.value
  {
    hide IsStep, ApplyAll, WritesBetween, RowWrites, FormatInt;
    var last, m := StepIsCut(l, batch, t, t', r, cut);
    CutMark(l, t, Last(l, t) + 1, last, m);
    MarkAfter(l, t, t', Last(l, t) + 1, last);
  }

  // ----- one step -----

  lemma SyncKeepsOrder(l: Ledger, c: int -> string, batch: int, t: Tables, t': Tables, r: Round, cut: nat, n: int)
    requires GoodLedger(l) && LedgerTells(l, c) && InOrder(l, t) && IsStep(l, batch, t, t', r, cut)
    ensures InOrder(l, t') && Last(l, t) <= Last(l, t')
    ensures l.genesis + n <= Last(l, t) ==> (n in t'.blocks <==> n in t.blocks) && (Right(l.genesis, c, t', n) <==> Right(l.genesis, c, t, n))
    ensures Last(l, t) < l.genesis + n <= Last(l, t') ==> Right(l.genesis, c, t', n)
  {
    hide IsStep, GoodLedger;
    var top := CutRoundWritesRows(l, batch, t, t', r, cut);
    RowsWrittenAligned(l, t, t', Last(l, t) + 1, top);
    if Last(l, t) < l.genesis + n <= Last(l, t') {
      assert n in t'.blocks;
    }
  }

  /** A sync never fills a gap: what is missing below the mark stays missing. */
  lemma GapStays(l: Ledger, c: int -> string, batch: int, t: Tables, t': Tables, r: Round, cut: nat, n: int)
    requires GoodLedger(l) && LedgerTells(l, c) && Aligned(l.genesis, t.blocks) && l.genesis - 1 <= Last(l, t)
    requires IsStep(l, batch, t, t', r, cut) && l.genesis + n <= Last(l, t)
    ensures n in t'.blocks <==> n in t.blocks
  {
    hide IsStep, GoodLedger, Aligned;
    var top := CutRoundWritesRows(l, batch, t, t', r, cut);
  }

  /** A check that goes through mends exactly the wrong rows inside its window, and leaves no
      gap. */
  lemma CheckKeepsOrder(l: Ledger, c: int -> string, t: Tables, t': Tables, s: Sources, n: int)
    requires InOrder(l, t) && FairSources(l.genesis, c, s, Last(l, t))
    requires After(l.genesis, t.blocks, s, t'.blocks) && t'.lastSynced == t.lastSynced
    ensures InOrder(l, t')
    ensures 0 <= n && l.genesis + n <= Last(l, t) ==>
      (Right(l.genesis, c, t', n) <==> Right(l.genesis, c, t, n) || WindowStart(l.genesis, s.height1.value) <= l.genesis + n)
  {
    hide Rebuilt;
    CheckKeepsRows(l.genesis, t.blocks, t'.blocks, s, Last(l, t));
    if 0 <= n && l.genesis + n <= Last(l, t) {
      if l.genesis + n < WindowStart(l.genesis, s.height1.value) {
        BelowWindowUntouched(l.genesis, t.blocks, s, t'.blocks, n);
      } else {
        WindowRowMended(l.genesis, t.blocks, s, c, t'.blocks, n);
      }
    }
  }

  lemma CheckKeepsRows(genesis: int, t: map<int, BlockRow>, t': map<int, BlockRow>, s: Sources, mark: int)
    requires Aligned(genesis, t) && Covers(t, mark - genesis) && After(genesis, t, s, t')
    requires s.height1.Some? && s.height2.Some? && mark <= s.height2.value
    ensures Aligned(genesis, t') && Covers(t', mark - genesis)
  {
    hide Rebuilt;
    if t' != t {
      var start :| Found(genesis, t, s, start) && Rescannable(s, start)
        && t' == Rebuilt(genesis, t, s, start, s.height2.value);
      forall n ensures n in t' ==> n >= 0 && t'[n].bitcoinBlock == genesis + n
        ensures 0 <= n <= mark - genesis ==> n in t'
      {
        RebuiltAt(genesis, t, s, start, s.height2.value, n);
        if n in t' {
          RebuiltNumbers(genesis, t, s, start, s.height2.value, n);
        }
      }
    }
  }

  // ----- whole runs -----

  /** One of the checks before step i has this height in or below its window. */
  ghost predicate CheckedFrom(genesis: int, events: seq<Event>, i: nat, h: int) {
    exists k :: 0 <= k < i && k < |events| && ChecksFrom(genesis, events[k], h)
  }

  ghost predicate ChecksFrom(genesis: int, e: Event, h: int) {
    e.Check? && e.sources.height1.Some? && WindowStart(genesis, e.sources.height1.value) <= h
  }

  lemma CheckedOneMore(genesis: int, events: seq<Event>, i: nat, h: int)
    requires 0 < i <= |events|
    ensures CheckedFrom(genesis, events, i, h) <==> CheckedFrom(genesis, events, i - 1, h) || ChecksFrom(genesis, events[i - 1], h)
  {
    if CheckedFrom(genesis, events, i, h) {
      var k :| 0 <= k < i && k < |events| && ChecksFrom(genesis, events[k], h);
      assert k < i - 1 || k == i - 1;
    }
  }

  lemma StepKeepsOrder(l: Ledger, c: int -> string, t: Tables, e: Event, t': Tables, n: int)
    requires GoodLedger(l) && LedgerTells(l, c) && InOrder(l, t) && MixedStep(l, c, t, e, t')
    ensures InOrder(l, t') && Last(l, t) <= Last(l, t')
    ensures 0 <= n && l.genesis + n <= Last(l, t) ==>
      (Right(l.genesis, c, t', n) <==> Right(l.genesis, c, t, n) || ChecksFrom(l.genesis, e, l.genesis + n))
    ensures Last(l, t) < l.genesis + n <= Last(l, t') ==> Right(l.genesis, c, t', n)
  {
    hide IsStep, After, GoodLedger;
    match e
    case SyncRound(batch, r, cut) => SyncKeepsOrder(l, c, batch, t, t', r, cut, n);
    case Check(s) => CheckKeepsOrder(l, c, t, t', s, n);
    case FailedCheck =>
  }

  lemma InOrderCovers(l: Ledger, t: Tables)
    requires InOrder(l, t)
    ensures l.genesis - 1 <= Last(l, t) && Covers(t.blocks, Last(l, t) - l.genesis)
  {
  }

  lemma NothingChecked(genesis: int, events: seq<Event>, h: int)
    ensures !CheckedFrom(genesis, events, 0, h)
  {
  }

  /** In every state of a mixed run no row is missing up to the mark. A row that was below
      the mark at the start is right exactly when it was right then or some check so far had
      it in its window; rows synced since are right. */
  lemma {:induction false} MixedRunRows(l: Ledger, c: int -> string, states: seq<Tables>, events: seq<Event>, i: nat, n: int)
    requires GoodLedger(l) && LedgerTells(l, c) && IsMixedRun(l, c, states, events) && i < |states|
    requires InOrder(l, states[0])
    ensures InOrder(l, states[i]) && Last(l, states[0]) <= Last(l, states[i])
    ensures 0 <= n && l.genesis + n <= Last(l, states[0]) ==>
      (Right(l.genesis, c, states[i], n) <==> Right(l.genesis, c, states[0], n) || CheckedFrom(l.genesis, events, i, l.genesis + n))
    ensures Last(l, states[0]) < l.genesis + n <= Last(l, states[i]) ==> Right(l.genesis, c, states[i], n)
  {
    hide GoodLedger, LedgerTells, InOrder, Right, ChecksFrom, CheckedFrom, MixedStep, LastSynced;
    if i == 0 {
      NothingChecked(l.genesis, events, l.genesis + n);
    } else {
      MixedRunRows(l, c, states, events, i - 1, n);
      InOrderCovers(l, states[0]);
      assert MixedStep(l, c, states[i - 1], events[i - 1], states[i - 1 + 1]);
      StepKeepsOrder(l, c, states[i - 1], events[i - 1], states[i], n);
      CheckedOneMore(l.genesis, events, i, l.genesis + n);
    }
  }

  /** Check k has the lowest window of the first i steps, starting at `lo`. */
  ghost predicate IsLowestWindow(genesis: int, events: seq<Event>, i: nat, k: nat, lo: int) {
    && k < i <= |events| && ChecksFrom(genesis, events[k], lo)
    && forall j, h :: 0 <= j < i && h < lo ==> !ChecksFrom(genesis, events[j], h)
  }

  /** For hash-linked rows a single one tells: after checks whose lowest window starts at
      `lo`, all rows up to the mark are right exactly when, before the run, the highest row
      below that window was (or there was none). */
  lemma RunMendedExactlyWhenForkInLowestWindow(
      l: Ledger, c: int -> string, parent: string -> string, states: seq<Tables>, events: seq<Event>, i: nat, k: nat, lo: int)
    requires GoodLedger(l) && LedgerTells(l, c) && IsMixedRun(l, c, states, events) && i < |states|
    requires InOrder(l, states[0]) && RowsLinked(states[0].blocks, parent)
    requires ChainLinked(c, parent, l.genesis, Last(l, states[0]))
    requires IsLowestWindow(l.genesis, events, i, k, lo)
    ensures var b := RowBelow(l.genesis, Last(l, states[0]) - l.genesis, lo);
            (forall n :: 0 <= n && l.genesis + n <= Last(l, states[i]) ==> Right(l.genesis, c, states[i], n))
            <==> b < 0 || Right(l.genesis, c, states[0], b)
  {
    hide GoodLedger, InOrder, MixedStep;
    var g, mark := l.genesis, Last(l, states[0]);
    var b := RowBelow(g, mark - g, lo);
    forall n ensures MixedRow(l, c, states, i, lo, n) {
      LowestWindowDecides(l, c, states, events, i, k, lo, n);
    }
    if b >= 0 {
      assert MixedRow(l, c, states, i, lo, b);
      InOrderCovers(l, states[0]);
    }
    if b < 0 || Right(g, c, states[0], b) {
      forall n | 0 <= n && g + n <= Last(l, states[i]) ensures Right(g, c, states[i], n) {
        assert MixedRow(l, c, states, i, lo, n);
        if g + n <= mark && g + n < lo {
          MatchCarriesDown(g, states[0].blocks, c, parent, n, b);
        }
      }
    }
  }

  /** Row n in state i: below the first mark it is right if it was or if it lies in the lowest
      window; above, it is right. */
  ghost predicate MixedRow(l: Ledger, c: int -> string, states: seq<Tables>, i: nat, lo: int, n: int)
    requires i < |states|
  {
    && Last(l, states[0]) <= Last(l, states[i])
    && (0 <= n && l.genesis + n <= Last(l, states[0]) ==>
          (Right(l.genesis, c, states[i], n) <==> Right(l.genesis, c, states[0], n) || lo <= l.genesis + n))
    && (Last(l, states[0]) < l.genesis + n <= Last(l, states[i]) ==> Right(l.genesis, c, states[i], n))
  }

  lemma LowestWindowDecides(l: Ledger, c: int -> string, states: seq<Tables>, events: seq<Event>, i: nat, k: nat, lo: int, n: int)
    requires GoodLedger(l) && LedgerTells(l, c) && IsMixedRun(l, c, states, events) && i < |states| && InOrder(l, states[0])
    requires IsLowestWindow(l.genesis, events, i, k, lo)
    ensures MixedRow(l, c, states, i, lo, n)
  {
    hide GoodLedger, InOrder, Right;
    MixedRunRows(l, c, states, events, i, n);
    if lo <= l.genesis + n {
      assert ChecksFrom(l.genesis, events[k], l.genesis + n);
    }
  }

  /** A run may start from whatever a sync of an earlier chain left, cut or not. */
  lemma EarlierSyncIsAStart(earlier: Ledger, l: Ledger, t: Tables, parent: string -> string)
    requires Consistent(earlier, t) && earlier.genesis == l.genesis
    requires forall h :: h in earlier.blocks && h - 1 in earlier.blocks ==>
               parent(earlier.blocks[h].hash) == earlier.blocks[h - 1].hash
    ensures InOrder(l, t) && RowsLinked(t.blocks, parent)
  {
    SyncedTablesAreLinked(earlier, t, parent);
  }

  /** Rows that are right are linked, so after a run that mended everything the next
      reorganisation starts from linked rows again. */
  lemma RightRowsAreLinked(l: Ledger, c: int -> string, parent: string -> string, t: Tables, top: int)
    requires Stored(t.blocks, top) && ChainLinked(c, parent, l.genesis, l.genesis + top)
    requires forall n :: 0 <= n <= top ==> Right(l.genesis, c, t, n)
    ensures RowsLinked(t.blocks, parent)
  {
    forall n | n in t.blocks && n - 1 in t.blocks ensures parent(t.blocks[n].hash) == t.blocks[n - 1].hash {
      assert Right(l.genesis, c, t, n) && Right(l.genesis, c, t, n - 1);
      assert parent(c(l.genesis + n)) == c(l.genesis + n - 1);
    }
  }
}
