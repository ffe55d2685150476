/** The periodic check of stored block hashes against the chain, and the recovery that
    truncates the block table at the fork and rescans from there. */
module Reorg {
  import opened Int64
  import opened BlockTables
  import opened BlockLedger
  import opened Wrappers

  const CHECK_INTERVAL := 144
  const LOOKBACK := 1008

  /** What one check meets. A lookup that is missing fails; `rest` is asked first, `later`
      and `height2` are what recovery sees. */
  datatype Sources = Sources(
    height1: Option<int>, rest: map<int, string>, p2p: map<int, string>,
    height2: Option<int>, later: map<int, string>, times: map<string, int>)

  datatype Outcome = NotDue | HeightFailed | NoReorg | RecoveryFailed(from: int) | Recovered(start: int)

  /** Every writer files Bitcoin block b under DNN number b - genesis. */
  ghost predicate Aligned(genesis: int, t: map<int, BlockRow>) {
    forall n :: n in t ==> n >= 0 && t[n].bitcoinBlock == genesis + n
  }

  function StoredHash(genesis: int, t: map<int, BlockRow>, h: int): Option<string> {
    if h - genesis in t then Some(t[h - genesis].hash) else None
  }

  /** REST is preferred; an empty or failed answer falls back to P2P. */
  function CurrentHash(s: Sources, h: int): Option<string> {
    if h in s.rest && s.rest[h] != "" then Some(s.rest[h])
    else if h in s.p2p then Some(s.p2p[h]) else None
  }

  predicate Mismatch(genesis: int, t: map<int, BlockRow>, s: Sources, h: int) {
    var stored, current := StoredHash(genesis, t, h), CurrentHash(s, h);
    stored.Some? && current.Some? && stored.value != current.value
  }

  function WindowStart(genesis: int, tip: int): int {
    if tip - LOOKBACK < genesis then genesis else tip - LOOKBACK
  }

  /** `start` is the lowest mismatching height of lo..hi. */
  ghost predicate IsFirstMismatch(genesis: int, t: map<int, BlockRow>, s: Sources, lo: int, hi: int, start: int) {
    lo <= start <= hi && Mismatch(genesis, t, s, start) && NoMismatch(genesis, t, s, lo, start - 1)
  }

  ghost predicate NoMismatch(genesis: int, t: map<int, BlockRow>, s: Sources, lo: int, hi: int) {
    forall h :: lo <= h <= hi ==> !Mismatch(genesis, t, s, h)
  }

  ghost predicate Found(genesis: int, t: map<int, BlockRow>, s: Sources, start: int)
    requires s.height1.Some?
  {
    IsFirstMismatch(genesis, t, s, WindowStart(genesis, s.height1.value), s.height1.value, start)
  }

  /** What the scan reports: the lowest mismatch. Since 0 also stands for "none yet", a
      lowest mismatch at height 0 gives way to the next one. */
  ghost predicate Reported(genesis: int, t: map<int, BlockRow>, s: Sources, start: int)
    requires s.height1.Some?
  {
    var tip := s.height1.value;
    ReportedUpTo(genesis, t, s, WindowStart(genesis, tip), tip, tip, start)
  }

  ghost predicate ReportedUpTo(genesis: int, t: map<int, BlockRow>, s: Sources, lo: int, hi: int, scanned: int, start: int) {
    || (IsFirstMismatch(genesis, t, s, lo, hi, start) && (start == 0 ==> NoMismatch(genesis, t, s, 1, scanned)))
    || (IsFirstMismatch(genesis, t, s, lo, hi, 0) && IsFirstMismatch(genesis, t, s, 1, hi, start))
  }

  ghost predicate NothingFound(genesis: int, t: map<int, BlockRow>, s: Sources)
    requires s.height1.Some?
  {
    NoMismatch(genesis, t, s, WindowStart(genesis, s.height1.value), s.height1.value)
  }

  ghost predicate Rescannable(s: Sources, start: int) {
    s.height2.Some? && forall h :: start <= h <= s.height2.value ==> h in s.later && s.later[h] in s.times
  }

  /** The rows up to the fork row, overlaid with the chain's rows for start..last. */
  function Rebuilt(genesis: int, t: map<int, BlockRow>, s: Sources, start: int, last: int): map<int, BlockRow>
    requires forall h :: start <= h <= last ==> h in s.later && s.later[h] in s.times
  {
    DeleteAfter(t, start - genesis)
    + map n: int | start - genesis <= n <= last - genesis :: ChainRow(genesis, s, n)
  }

  function ChainRow(genesis: int, s: Sources, n: int): BlockRow
    requires genesis + n in s.later && s.later[genesis + n] in s.times
  {
    BlockRow(genesis + n, s.later[genesis + n], s.times[s.later[genesis + n]])
  }

  /** Rebuilt, row by row. */
  lemma RebuiltAt(genesis: int, t: map<int, BlockRow>, s: Sources, start: int, last: int, n: int)
    requires forall h :: start <= h <= last ==> h in s.later && s.later[h] in s.times
    ensures n in Rebuilt(genesis, t, s, start, last)
       <==> (n in t && n <= start - genesis) || start - genesis <= n <= last - genesis
    ensures start - genesis <= n <= last - genesis ==>
              Rebuilt(genesis, t, s, start, last)[n] == ChainRow(genesis, s, n)
    ensures n in t && n <= start - genesis && !(start - genesis <= n <= last - genesis) ==>
              Rebuilt(genesis, t, s, start, last)[n] == t[n]
  {
  }

  lemma RebuiltNumbers(genesis: int, t: map<int, BlockRow>, s: Sources, start: int, last: int, n: int)
    requires forall h :: start <= h <= last ==> h in s.later && s.later[h] in s.times
    requires Aligned(genesis, t) && n in Rebuilt(genesis, t, s, start, last)
    ensures Rebuilt(genesis, t, s, start, last)[n].bitcoinBlock == genesis + n
  {
    RebuiltAt(genesis, t, s, start, last, n);
  }

  lemma PutNextRow(genesis: int, t: map<int, BlockRow>, s: Sources, start: int, h: int)
    requires Aligned(genesis, t) && genesis <= start <= h
    requires forall i :: start <= i <= h ==> i in s.later && s.later[i] in s.times
    ensures PutBlock(Rebuilt(genesis, t, s, start, h - 1), h - genesis, ChainRow(genesis, s, h - genesis))
         == Rebuilt(genesis, t, s, start, h)
  {
    hide Rebuilt, Aligned;
    var before, after := Rebuilt(genesis, t, s, start, h - 1), Rebuilt(genesis, t, s, start, h);
    var put := PutBlock(before, h - genesis, ChainRow(genesis, s, h - genesis));
    forall n ensures n in put <==> n in after
      ensures n in put ==> put[n] == after[n]
    {
      RebuiltAt(genesis, t, s, start, h - 1, n);
      RebuiltAt(genesis, t, s, start, h, n);
      if n in before {
        RebuiltNumbers(genesis, t, s, start, h - 1, n);
      }
    }
  }

  lemma RebuiltFirst(genesis: int, t: map<int, BlockRow>, s: Sources, start: int, last: int)
    requires last < start
    ensures Rebuilt(genesis, t, s, start, last) == DeleteAfter(t, start - genesis)
  {
  }

  /** The handler; `checksRecorded` counts the updates of the last-check time. */
  class ReorgHandler {
    const db: Database
    const genesis: int
    var checksRecorded: nat

    constructor (db: Database, genesis: int)
      ensures this.db == db && this.genesis == genesis && checksRecorded == 0
    {
      this.db, this.genesis, checksRecorded := db, genesis, 0;
    }

    /** The transaction: all of the rescan or none of it. */
    method HandleReorg(start: int, s: Sources) returns (ok: bool)
      requires Aligned(genesis, db.blocks) && genesis <= start
      modifies db`blocks, this`checksRecorded
      ensures ok <==> Rescannable(s, start)
      ensures db.blocks == if ok then Rebuilt(genesis, old(db.blocks), s, start, s.height2.value) else old(db.blocks)
      ensures checksRecorded == old(checksRecorded) + if ok then 1 else 0
    {
      hide Rebuilt, Aligned, PutBlock, DeleteAfter;
      ghost var before := db.blocks;
      var saved := db.blocks;
      RebuiltFirst(genesis, before, s, start, start - 1);
      var dnnStart := start - genesis;
      if dnnStart < 0 {
        dnnStart := 0;
      }
      db.InvalidateDNNBlocksAfter(dnnStart);
      if s.height2.None? {
        db.blocks := saved;
        return false;
      }
      var h := start;
      while h <= s.height2.value
        invariant start <= h && (h <= s.height2.value + 1 || h == start)
        invariant forall i :: start <= i < h ==> i in s.later && s.later[i] in s.times
        invariant db.blocks == Rebuilt(genesis, before, s, start, h - 1)
        invariant saved == before && checksRecorded == old(checksRecorded)
      {
        if h !in s.later || s.later[h] !in s.times {
          db.blocks := saved;
          return false;
        }
        var dnn := h - genesis;
        if dnn >= 0 {
          PutNextRow(genesis, before, s, start, h);
          db.UpdateDNNBlock(dnn, h, s.later[h], s.times[s.later[h]]);
        }
        h := h + 1;
      }
      if s.height2.value < start {
        RebuiltFirst(genesis, before, s, start, s.height2.value);
      }
      checksRecorded := checksRecorded + 1;
      ok := true;
    }

    method CheckAndHandleReorg(currentDNNBlock: int, s: Sources) returns (o: Outcome)
      requires Aligned(genesis, db.blocks)
      modifies db`blocks, this`checksRecorded
      ensures o.NotDue? <==> !(currentDNNBlock > 0 && currentDNNBlock % 144 == 0)
      ensures o.HeightFailed? <==> !o.NotDue? && s.height1.None?
      ensures o.NoReorg? || o.RecoveryFailed? || o.Recovered? ==> s.height1.Some?
      ensures o.NoReorg? ==> NothingFound(genesis, old(db.blocks), s)
      ensures o.RecoveryFailed? ==> Reported(genesis, old(db.blocks), s, o.from) && !Rescannable(s, o.from)
      ensures o.Recovered? ==> Reported(genesis, old(db.blocks), s, o.start) && Rescannable(s, o.start)
      ensures db.blocks == if o.Recovered? then Rebuilt(genesis, old(db.blocks), s, o.start, s.height2.value) else old(db.blocks)
      ensures checksRecorded == old(checksRecorded) + if o.NoReorg? || o.Recovered? then 1 else 0
    {
      if !(currentDNNBlock > 0 && currentDNNBlock % CHECK_INTERVAL == 0) {
        return NotDue;
      }
      if s.height1.None? {
        return HeightFailed;
      }
      var start, detected := FindFork(s);
      if !detected {
        checksRecorded := checksRecorded + 1;
        return NoReorg;
      }
      ReportedIsFound(genesis, db.blocks, s, start);
      var ok := HandleReorg(start, s);
      o := if ok then Recovered(start) else RecoveryFailed(start);
    }

    /** The scan; 0 stands for "none yet". */
    method FindFork(s: Sources) returns (start: int, detected: bool)
      requires Aligned(genesis, db.blocks) && s.height1.Some?
      ensures if detected then Reported(genesis, db.blocks, s, start) else NothingFound(genesis, db.blocks, s)
    {
      var end := s.height1.value;
      var lo := end - LOOKBACK;
      if lo < genesis {
        lo := genesis;
      }
      detected, start := false, 0;
      var h := lo;
      while h <= end
        invariant lo <= h
        invariant !detected ==> start == 0 && NoMismatch(genesis, db.blocks, s, lo, h - 1)
        invariant detected ==> start < h && ReportedUpTo(genesis, db.blocks, s, lo, end, h - 1, start)
      {
        var stored := db.GetBitcoinBlockHash(h);
        if stored.Some? {
          StoredIsFound(genesis, db.blocks, h, stored.value);
          var current := if h in s.rest then Some(s.rest[h]) else None;
          if current.None? || current.value == "" {
            current := if h in s.p2p then Some(s.p2p[h]) else None;
          }
          if current.Some? && stored.value != current.value {
            detected := true;
            if start == 0 || h < start {
              start := h;
            }
          }
        }
        h := h + 1;
      }
    }
  }

  /** With a positive genesis height, as all configured ones are, it is the lowest mismatch. */
  lemma ReportedIsFound(genesis: int, t: map<int, BlockRow>, s: Sources, start: int)
    requires s.height1.Some? && Reported(genesis, t, s, start)
    ensures genesis > 0 ==> Found(genesis, t, s, start)
    ensures genesis <= start
  {
  }

  /** The stored row of height h, if there is one, has the hash the sources tell: that of the
      REST source where it answers and the answer is not empty, whatever the peer-to-peer
      client says, and the client's where REST is silent or empty. */
  ghost predicate Agrees(genesis: int, t: map<int, BlockRow>, s: Sources, h: int) {
    h - genesis in t ==>
      && (h in s.rest && s.rest[h] != "" ==> t[h - genesis].hash == s.rest[h])
      && ((h !in s.rest || s.rest[h] == "") && h in s.p2p ==> t[h - genesis].hash == s.p2p[h])
  }

  /** A check passes exactly when every stored row of the last 1008 blocks below the tip, and
      not below genesis, agrees; otherwise it finds the lowest that does not. */
  lemma CheckFindsExactly(genesis: int, t: map<int, BlockRow>, s: Sources, tip: int, start: int)
    requires s.height1 == Some(tip)
    ensures NothingFound(genesis, t, s) <==> forall h :: genesis <= h && tip - 1008 <= h <= tip ==> Agrees(genesis, t, s, h)
    ensures Found(genesis, t, s, start)
       <==> && genesis <= start && tip - 1008 <= start <= tip && !Agrees(genesis, t, s, start)
            && forall h :: genesis <= h && tip - 1008 <= h < start ==> Agrees(genesis, t, s, h)
  {
    forall h ensures Mismatch(genesis, t, s, h) <==> !Agrees(genesis, t, s, h) {}
  }

  lemma StoredIsFound(genesis: int, t: map<int, BlockRow>, h: int, hash: string)
    requires Aligned(genesis, t)
    requires exists k :: k in t && t[k].bitcoinBlock == h && t[k].hash == hash
    ensures StoredHash(genesis, t, h) == Some(hash)
  {
  }

  // ----- what a recovery is worth -----

  /** The table after a check that was due and went through. */
  ghost predicate After(genesis: int, t: map<int, BlockRow>, s: Sources, t': map<int, BlockRow>) {
    s.height1.Some?
    && ((NothingFound(genesis, t, s) && t' == t)
        || (exists start :: Found(genesis, t, s, start) && Rescannable(s, start)
              && t' == Rebuilt(genesis, t, s, start, s.height2.value)))
  }

  /** `c` gives the hash of every height, and the scan is told it from `lo` up. */
  ghost predicate ScanTold(s: Sources, c: int -> string, lo: int) {
    s.height1.Some? && forall h :: lo <= h <= s.height1.value ==> CurrentHash(s, h) == Some(c(h))
  }

  /** So is the rescan, for heights start..hi. */
  ghost predicate RescanTold(s: Sources, c: int -> string, start: int, hi: int) {
    forall h :: start <= h <= hi && h in s.later ==> s.later[h] == c(h)
  }

  ghost predicate SourcesTell(s: Sources, c: int -> string, lo: int) {
    ScanTold(s, c, lo) && s.height2.Some? && RescanTold(s, c, lo, s.height2.value)
  }

  ghost predicate Matches(genesis: int, t: map<int, BlockRow>, c: int -> string, lo: int, hi: int) {
    forall h :: lo <= h <= hi && h - genesis in t ==> t[h - genesis].hash == c(h)
  }

  function Lower(x: int, y: int): int {
    if x < y then x else y
  }

  /** What recovery does to the window is decided by what the rescan, which asks only the
      peer-to-peer client, is told. (ReorgCache says what that is.) */
  lemma MendedExactlyWhenRescanTold(genesis: int, t: map<int, BlockRow>, s: Sources, c: int -> string, start: int)
    requires Aligned(genesis, t) && s.height1.Some? && Rescannable(s, start)
    requires ScanTold(s, c, WindowStart(genesis, s.height1.value)) && Found(genesis, t, s, start)
    ensures Matches(genesis, Rebuilt(genesis, t, s, start, s.height2.value), c, WindowStart(genesis, s.height1.value), s.height1.value)
       <==> start <= s.height2.value && RescanTold(s, c, start, Lower(s.height1.value, s.height2.value))
  {
    hide Rebuilt;
    var lo, tip, tip2 := WindowStart(genesis, s.height1.value), s.height1.value, s.height2.value;
    var t' := Rebuilt(genesis, t, s, start, tip2);
    if start > tip2 {
      RebuiltAt(genesis, t, s, start, tip2, start - genesis);
      assert CurrentHash(s, start) == Some(c(start));
    } else if RescanTold(s, c, start, Lower(tip, tip2)) {
      forall h | lo <= h <= tip && h - genesis in t' ensures t'[h - genesis].hash == c(h) {
        RebuiltAt(genesis, t, s, start, tip2, h - genesis);
        if h < start {
          assert !Mismatch(genesis, t, s, h);
        } else {
          assert h in s.later;
        }
      }
    } else {
      var h :| start <= h <= Lower(tip, tip2) && h in s.later && s.later[h] != c(h);
      RebuiltAt(genesis, t, s, start, tip2, h - genesis);
    }
  }

  /** If the rescan is told the hashes that are stored already, recovery writes them back:
      every stored row up to the second height keeps its hash. */
  lemma StoredAnswersChangeNothing(genesis: int, t: map<int, BlockRow>, s: Sources, start: int, n: int)
    requires Rescannable(s, start) && n in t && genesis + n <= s.height2.value
    requires forall h :: h in s.later && h - genesis in t ==> s.later[h] == t[h - genesis].hash
    ensures n in Rebuilt(genesis, t, s, start, s.height2.value)
    ensures Rebuilt(genesis, t, s, start, s.height2.value)[n].hash == t[n].hash
  {
    RebuiltAt(genesis, t, s, start, s.height2.value, n);
  }

  /** A recovery that mends nothing: the one stored row is wrong, the scan says so, and the
      table is the same afterwards. */
  lemma RecoveryInVain(right: string, wrong: string)
    requires right != "" && right != wrong
    ensures var t := map[0 := BlockRow(1, wrong, 0)];
            var s := Sources(Some(1), map[1 := right], map[], Some(1), map[1 := wrong], map[wrong := 0]);
            Found(1, t, s, 1) && Rescannable(s, 1) && Rebuilt(1, t, s, 1, 1) == t
  {
    var t := map[0 := BlockRow(1, wrong, 0)];
    var s := Sources(Some(1), map[1 := right], map[], Some(1), map[1 := wrong], map[wrong := 0]);
    assert WindowStart(1, 1) == 1 && Mismatch(1, t, s, 1);
    RebuiltAt(1, t, s, 1, 1, 0);
    forall n ensures n in Rebuilt(1, t, s, 1, 1) <==> n in t {
      RebuiltAt(1, t, s, 1, 1, n);
    }
  }

  /** Below the fork nothing changes; from the fork to the tip every block is there; above
      the tip nothing is left. */
  lemma RecoveryShape(genesis: int, t: map<int, BlockRow>, s: Sources, start: int)
    requires Aligned(genesis, t) && Rescannable(s, start) && genesis <= start <= s.height2.value
    ensures var t' := Rebuilt(genesis, t, s, start, s.height2.value);
      && Aligned(genesis, t')
      && (forall n :: n < start - genesis ==> (n in t' <==> n in t) && (n in t ==> t'[n] == t[n]))
      && (forall n :: start - genesis <= n <= s.height2.value - genesis ==>
            n in t' && t'[n] == BlockRow(genesis + n, s.later[genesis + n], s.times[s.later[genesis + n]]))
      && (forall n :: n in t' ==> genesis + n <= s.height2.value)
  {
  }

  // ----- hash links -----

  /** Each row's hash names the hash of the row before it. */
  ghost predicate RowsLinked(t: map<int, BlockRow>, parent: string -> string) {
    forall n :: n in t && n - 1 in t ==> parent(t[n].hash) == t[n - 1].hash
  }

  /** The chain's hashes above `lo` and up to `hi` name the one before them. */
  ghost predicate ChainLinked(c: int -> string, parent: string -> string, lo: int, hi: int) {
    forall h :: lo < h <= hi ==> parent(c(h)) == c(h - 1)
  }

  /** The rows 0..top are stored, and no others. */
  ghost predicate Stored(t: map<int, BlockRow>, top: int) {
    forall n :: n in t <==> 0 <= n <= top
  }

  /** None of the rows 0..top is missing. */
  ghost predicate Covers(t: map<int, BlockRow>, top: int) {
    forall n :: 0 <= n <= top ==> n in t
  }

  /** A match at one height carries down the whole stored run below it: mismatches form a
      suffix. */
  lemma {:induction false} MatchCarriesDown(genesis: int, t: map<int, BlockRow>, c: int -> string, parent: string -> string, n: int, m: int)
    requires RowsLinked(t, parent) && Covers(t, m) && 0 <= n <= m
    requires ChainLinked(c, parent, genesis, genesis + m)
    requires t[m].hash == c(genesis + m)
    ensures t[n].hash == c(genesis + n)
    decreases m - n
  {
    if n < m {
      assert parent(t[m].hash) == t[m - 1].hash;
      assert parent(c(genesis + m)) == c(genesis + m - 1);
      MatchCarriesDown(genesis, t, c, parent, n, m - 1);
    }
  }

  /** The lowest mismatch is the fork: all stored rows below it match, none from it on. It
      does not matter what the rescan will be told. */
  lemma FirstMismatchIsFork(genesis: int, t: map<int, BlockRow>, s: Sources, c: int -> string, parent: string -> string,
                            top: int, lo: int, start: int, n: int)
    requires RowsLinked(t, parent) && Covers(t, top) && ChainLinked(c, parent, genesis, genesis + top)
    requires ScanTold(s, c, lo) && IsFirstMismatch(genesis, t, s, lo, s.height1.value, start)
    requires genesis <= start <= genesis + top
    requires 0 <= n <= top && (lo < start || start == genesis || n >= start - genesis)
    ensures t[n].hash == c(genesis + n) <==> n < start - genesis
  {
    var f := start - genesis;
    assert CurrentHash(s, start) == Some(c(start));
    if n < f {
      assert !Mismatch(genesis, t, s, start - 1) && CurrentHash(s, start - 1) == Some(c(start - 1));
      MatchCarriesDown(genesis, t, c, parent, n, f - 1);
    } else if t[n].hash == c(genesis + n) {
      MatchCarriesDown(genesis, t, c, parent, f, n);
    }
  }

  /** Recovery leaves the rows 0.. up to the new tip, or up to the fork row if the tip fell
      below it. */
  lemma RecoveredIsStored(genesis: int, t: map<int, BlockRow>, s: Sources, start: int, top: int)
    requires Stored(t, top) && Rescannable(s, start) && genesis <= start <= genesis + top
    ensures Stored(Rebuilt(genesis, t, s, start, s.height2.value),
                   if start <= s.height2.value then s.height2.value - genesis else start - genesis)
  {
  }

  /** The recovered rows are linked again exactly when the fork is the bottom row or the row
      below it is the chain's. */
  lemma RecoveredIsLinkedExactlyWhen(genesis: int, t: map<int, BlockRow>, s: Sources, c: int -> string, parent: string -> string,
                                     start: int, top: int)
    requires Stored(t, top) && RowsLinked(t, parent) && Rescannable(s, start)
    requires genesis <= start <= genesis + top && start <= s.height2.value
    requires RescanTold(s, c, start, s.height2.value) && ChainLinked(c, parent, genesis, s.height2.value)
    ensures RowsLinked(Rebuilt(genesis, t, s, start, s.height2.value), parent)
       <==> start == genesis || t[start - 1 - genesis].hash == c(start - 1)
  {
    hide Rebuilt;
    var tip2, f := s.height2.value, start - genesis;
    var t' := Rebuilt(genesis, t, s, start, tip2);
    forall n ensures n in t' && n >= f ==> t'[n].hash == c(genesis + n)
      ensures n in t' && n < f ==> n in t && t'[n] == t[n]
      ensures n in t' ==> 0 <= n <= tip2 - genesis
    {
      RebuiltAt(genesis, t, s, start, tip2, n);
      if f <= n <= tip2 - genesis {
        assert genesis + n in s.later;
      }
    }
    RebuiltAt(genesis, t, s, start, tip2, f);
    RebuiltAt(genesis, t, s, start, tip2, f - 1);
    if RowsLinked(t', parent) && start > genesis {
      assert parent(t'[f].hash) == t'[f - 1].hash;
      assert parent(c(start)) == c(start - 1);
    }
    if start == genesis || t[start - 1 - genesis].hash == c(start - 1) {
      forall n | n in t' && n - 1 in t' ensures parent(t'[n].hash) == t'[n - 1].hash {
        if n < f {
          assert parent(t[n].hash) == t[n - 1].hash;
        } else {
          assert parent(c(genesis + n)) == c(genesis + n - 1);
        }
      }
    }
  }

  /** Recovery does not touch the sync mark, so it leaves a gap below it exactly when the new
      tip and the fork are both below the mark. */
  lemma NoGapExactlyWhen(genesis: int, t: map<int, BlockRow>, s: Sources, start: int, mark: int)
    requires Covers(t, mark - genesis) && Covers(t, start - genesis) && Rescannable(s, start) && genesis <= start
    ensures Covers(Rebuilt(genesis, t, s, start, s.height2.value), mark - genesis)
       <==> mark <= s.height2.value || mark <= start
  {
    hide Rebuilt;
    var t' := Rebuilt(genesis, t, s, start, s.height2.value);
    forall n ensures n in t' <==> (n in t && n <= start - genesis) || start - genesis <= n <= s.height2.value - genesis {
      RebuiltAt(genesis, t, s, start, s.height2.value, n);
    }
    assert mark > s.height2.value && mark > start ==> mark - genesis !in t';
  }

  /** The highest stored row below the window, -1 when there is none. */
  function RowBelow(genesis: int, top: int, lo: int): int {
    if top < lo - 1 - genesis then top else lo - 1 - genesis
  }

  /** After a check that went through, the whole table equals the chain exactly when the row
      just below the window did: a fork deeper than the lookback is not mended. */
  lemma WholeTableMendedExactlyWhenForkInWindow(
      genesis: int, t: map<int, BlockRow>, s: Sources, c: int -> string, parent: string -> string, top: int, t': map<int, BlockRow>)
    requires Aligned(genesis, t) && Stored(t, top) && RowsLinked(t, parent)
    requires ChainLinked(c, parent, genesis, genesis + top)
    requires s.height1.Some? && SourcesTell(s, c, WindowStart(genesis, s.height1.value))
    requires genesis + top <= s.height1.value <= s.height2.value && genesis <= s.height1.value
    requires After(genesis, t, s, t')
    ensures (forall n :: n in t' ==> t'[n].hash == c(genesis + n))
       <==> var b := RowBelow(genesis, top, WindowStart(genesis, s.height1.value)); b < 0 || t[b].hash == c(genesis + b)
  {
    hide Rebuilt, After;
    var lo := WindowStart(genesis, s.height1.value);
    var b := RowBelow(genesis, top, lo);
    if b >= 0 {
      BelowWindowUntouched(genesis, t, s, t', b);
    }
    if b < 0 || t[b].hash == c(genesis + b) {
      forall n | n in t' ensures t'[n].hash == c(genesis + n) {
        if genesis + n < lo {
          BelowWindowUntouched(genesis, t, s, t', n);
          MatchCarriesDown(genesis, t, c, parent, n, b);
        } else {
          WindowRowMended(genesis, t, s, c, t', n);
        }
      }
    }
  }

  lemma BelowWindowUntouched(genesis: int, t: map<int, BlockRow>, s: Sources, t': map<int, BlockRow>, n: int)
    requires s.height1.Some? && After(genesis, t, s, t')
    requires genesis + n < WindowStart(genesis, s.height1.value)
    ensures (n in t' <==> n in t) && (n in t ==> t'[n] == t[n])
  {
    hide Rebuilt;
    if t' != t {
      var start :| Found(genesis, t, s, start) && Rescannable(s, start)
        && t' == Rebuilt(genesis, t, s, start, s.height2.value);
      RebuiltAt(genesis, t, s, start, s.height2.value, n);
    }
  }

  /** Rows of the window are the chain's after the check, unless they lie above the tip and
      nothing was found. */
  lemma WindowRowMended(genesis: int, t: map<int, BlockRow>, s: Sources, c: int -> string, t': map<int, BlockRow>, n: int)
    requires Aligned(genesis, t) && s.height1.Some? && SourcesTell(s, c, WindowStart(genesis, s.height1.value))
    requires n in t ==> genesis + n <= s.height1.value
    requires s.height1.value <= s.height2.value && After(genesis, t, s, t')
    requires n in t' && genesis + n >= WindowStart(genesis, s.height1.value)
    ensures t'[n].hash == c(genesis + n)
  {
    hide Rebuilt;
    if t' == t && NothingFound(genesis, t, s) {
      assert !Mismatch(genesis, t, s, genesis + n);
    } else {
      var start :| Found(genesis, t, s, start) && Rescannable(s, start)
        && t' == Rebuilt(genesis, t, s, start, s.height2.value);
      RebuiltAt(genesis, t, s, start, s.height2.value, n);
      if genesis + n < start {
        assert !Mismatch(genesis, t, s, genesis + n);
      } else {
        assert genesis + n in s.later;
      }
    }
  }

  /** Tables a sync of a hash-linked chain left, wherever it was stopped, meet the conditions
      above, whatever the chain looks like now. */
  lemma SyncedTablesAreLinked(l: Ledger, t: Tables, parent: string -> string)
    requires Consistent(l, t)
    requires forall h :: h in l.blocks && h - 1 in l.blocks ==> parent(l.blocks[h].hash) == l.blocks[h - 1].hash
    ensures Aligned(l.genesis, t.blocks) && RowsLinked(t.blocks, parent)
    ensures var top := LastSynced(l.genesis, t.lastSynced) - l.genesis;
            Covers(t.blocks, top) && (Stored(t.blocks, top) || Stored(t.blocks, top + 1))
  {
    var last := LastSynced(l.genesis, t.lastSynced);
    SoundRowsAreLinked(l, t, last + 1, parent);
    forall n | 0 <= n <= last - l.genesis ensures n in t.blocks {
      assert HasBlock(l, t, l.genesis + n);
    }
    forall n | n in t.blocks ensures 0 <= n <= last + 1 - l.genesis {
      assert RightBlock(l, n, t.blocks[n], last + 1);
    }
  }

  lemma SoundRowsAreLinked(l: Ledger, t: Tables, top: int, parent: string -> string)
    requires Sound(l, t, top)
    requires forall h :: h in l.blocks && h - 1 in l.blocks ==> parent(l.blocks[h].hash) == l.blocks[h - 1].hash
    ensures Aligned(l.genesis, t.blocks) && RowsLinked(t.blocks, parent)
  {
    forall n | n in t.blocks ensures n >= 0 && t.blocks[n].bitcoinBlock == l.genesis + n {
      assert RightBlock(l, n, t.blocks[n], top);
    }
    forall n | n in t.blocks && n - 1 in t.blocks ensures parent(t.blocks[n].hash) == t.blocks[n - 1].hash {
      assert RightBlock(l, n, t.blocks[n], top) && RightBlock(l, n - 1, t.blocks[n - 1], top);
      assert l.genesis + n - 1 == l.genesis + (n - 1);
    }
  }

  /** On tables synced from the very chain the sources tell, a check finds nothing. */
  lemma SyncedTablesPass(l: Ledger, t: Tables, s: Sources, top: int)
    requires Sound(l, t, top) && s.height1.Some?
    requires forall h :: h in l.blocks && CurrentHash(s, h).Some? ==> CurrentHash(s, h).value == l.blocks[h].hash
    ensures Aligned(l.genesis, t.blocks)
    ensures forall t' :: After(l.genesis, t.blocks, s, t') <==> t' == t.blocks
  {
    forall n | n in t.blocks ensures n >= 0 && t.blocks[n].bitcoinBlock == l.genesis + n {
      assert RightBlock(l, n, t.blocks[n], top);
    }
    forall h ensures !Mismatch(l.genesis, t.blocks, s, h) {
      if h - l.genesis in t.blocks {
        assert RightBlock(l, h - l.genesis, t.blocks[h - l.genesis], top);
      }
    }
    assert NothingFound(l.genesis, t.blocks, s);
    forall start ensures !Found(l.genesis, t.blocks, s, start) {}
  }
}
