/** Recovery asks the peer-to-peer client only, and the client answers from its header
    cache. What a recovery is worth is therefore decided by what is cached before it. */
module ReorgCache {
  import opened Wrappers
  import opened HeaderChain
  import opened BlockTables
  import opened Reorg

  // ----- the client between clears -----

  /** The client's height-to-hash map while it holds these headers. */
  function Cached(net: Net, chain: seq<Header>): map<int, Hash> {
    HashByHeight(net, CHECKPOINT_HEIGHT + 1, chain)
  }

  lemma CachedHeights(net: Net, chain: seq<Header>, h: int)
    ensures h in Cached(net, chain) <==> CHECKPOINT_HEIGHT < h <= TipHeight(chain)
  {
  }

  /** The operations i..j do not clear the cache. */
  ghost predicate Quiet(ops: seq<Op>, i: nat, j: nat) {
    j <= |ops| && forall k :: i <= k < j ==> !ops[k].Clear?
  }

  /** Operation k reports this height. */
  ghost predicate ReportsHeight(states: seq<Client>, ops: seq<Op>, k: nat, height: int) {
    k < |ops| && |states| == |ops| + 1 && ops[k].BlockCount? && height > 0 && states[k + 1].currentHeight == height
  }

  /** Operation k answers a lookup of height h; hashes are stored as text. */
  ghost predicate AnswersHash(net: Net, show: Hash -> string, states: seq<Client>, ops: seq<Op>, k: nat, h: int, hash: string) {
    && k < |ops| && |states| == |ops| + 1 && ops[k].BlockHash? && ops[k].height == h
    && h in Cached(net, states[k + 1].chain) && hash == show(Cached(net, states[k + 1].chain)[h])
  }

  /** Between clears the height never falls. */
  lemma {:induction false} HeightOnlyGrows(net: Net, states: seq<Client>, ops: seq<Op>, i: nat, j: nat)
    requires IsRun(net, states, ops) && i <= j < |states| && Quiet(ops, i, j)
    ensures states[i].currentHeight <= states[j].currentHeight
  {
    hide Linked, ChainAfter;
    if i < j {
      HeightOnlyGrows(net, states, ops, i, j - 1);
      RunKeepsChain(net, states, ops, j - 1);
      CacheOnlyGrows(net, states, ops, j - 1, j);
      assert Next(net, states[j - 1], ops[j - 1], states[j]);
    }
  }

  /** So a later height lookup never reports less: the second lookup of a check is not below
      the first, nor is a mark that was synced towards an earlier one. */
  lemma ReportedHeightsGrow(net: Net, states: seq<Client>, ops: seq<Op>, i: nat, j: nat, height: int, later: int)
    requires IsRun(net, states, ops) && i <= j && Quiet(ops, i, j + 1)
    requires ReportsHeight(states, ops, i, height) && ReportsHeight(states, ops, j, later)
    ensures height <= later
  {
    HeightOnlyGrows(net, states, ops, i + 1, j + 1);
  }

  /** A reported height is cached, with everything below it down to the checkpoint. */
  lemma ReportedHeightIsCached(net: Net, states: seq<Client>, ops: seq<Op>, k: nat, height: int)
    requires IsRun(net, states, ops) && ReportsHeight(states, ops, k, height)
    ensures height <= TipHeight(states[k + 1].chain)
  {
    RunKeepsChain(net, states, ops, k + 1);
  }

  // ----- what the rescan is told -----

  /** The hash is what a cache grown from `before` holds at this height. */
  ghost predicate HashFrom(net: Net, show: Hash -> string, before: seq<Header>, h: int, hash: string) {
    exists chain :: before <= chain && h in Cached(net, chain) && hash == show(Cached(net, chain)[h])
  }

  /** All answers of the rescan come from a cache grown from `before`. */
  ghost predicate AnsweredFrom(net: Net, show: Hash -> string, before: seq<Header>, later: map<int, string>) {
    forall h :: h in later ==> HashFrom(net, show, before, h, later[h])
  }

  /** Every answer the client gives before the next clear is of that kind. */
  lemma ClientAnswersFromCache(net: Net, show: Hash -> string, states: seq<Client>, ops: seq<Op>, i: nat, k: nat, h: int, hash: string)
    requires IsRun(net, states, ops) && i <= k && Quiet(ops, i, k + 1) && AnswersHash(net, show, states, ops, k, h, hash)
    ensures HashFrom(net, show, states[i].chain, h, hash)
  {
    CacheOnlyGrows(net, states, ops, i, k + 1);
  }

  /** Whatever was cached before is what the rescan is told. */
  lemma ToldFromCache(net: Net, show: Hash -> string, before: seq<Header>, h: int, hash: string)
    requires HashFrom(net, show, before, h, hash) && h in Cached(net, before)
    ensures hash == show(Cached(net, before)[h])
  {
  }

  /** The cached hashes of start..hi are the chain's. */
  ghost predicate CacheIsRight(net: Net, show: Hash -> string, chain: seq<Header>, c: int -> string, start: int, hi: int) {
    forall h :: start <= h <= hi && h in Cached(net, chain) ==> show(Cached(net, chain)[h]) == c(h)
  }

  lemma RescanToldExactlyWhenCacheIsRight(s: Sources, c: int -> string, start: int, hi: int,
                                          net: Net, show: Hash -> string, before: seq<Header>)
    requires CHECKPOINT_HEIGHT < start && hi <= TipHeight(before) && AnsweredFrom(net, show, before, s.later)
    requires forall h :: start <= h <= hi ==> h in s.later
    ensures RescanTold(s, c, start, hi) <==> CacheIsRight(net, show, before, c, start, hi)
  {
    forall h | start <= h <= hi
      ensures h in s.later && h in Cached(net, before) && s.later[h] == show(Cached(net, before)[h])
    {
      CachedHeights(net, before, h);
      ToldFromCache(net, show, before, h, s.later[h]);
    }
  }

  // ----- what a recovery is worth -----

  /** Recovery leaves no wrong row in the window exactly when the hashes the client has
      cached before it, from the fork to the tip, are the chain's. The headers `before` are
      those of any moment before the rescan that reach the tip, with no clear until its end:
      from the first height lookup of the check on they always do (ReportedHeightIsCached),
      and the second height is then not below the first (ReportedHeightsGrow). */
  lemma RecoveryMendsExactlyWhenCacheIsRight(genesis: int, t: map<int, BlockRow>, s: Sources, c: int -> string, start: int,
                                             net: Net, show: Hash -> string, before: seq<Header>)
    requires genesis > CHECKPOINT_HEIGHT && Aligned(genesis, t) && s.height1.Some? && s.height2.Some?
    requires s.height1.value <= s.height2.value && s.height1.value <= TipHeight(before)
    requires AnsweredFrom(net, show, before, s.later)
    requires ScanTold(s, c, WindowStart(genesis, s.height1.value)) && Found(genesis, t, s, start) && Rescannable(s, start)
    ensures Matches(genesis, Rebuilt(genesis, t, s, start, s.height2.value), c, WindowStart(genesis, s.height1.value), s.height1.value)
       <==> CacheIsRight(net, show, before, c, start, s.height1.value)
  {
    hide Rebuilt, Matches, Cached, AnsweredFrom;
    MendedExactlyWhenRescanTold(genesis, t, s, c, start);
    RescanToldExactlyWhenCacheIsRight(s, c, start, s.height1.value, net, show, before);
  }

  /** One wrong hash cached before the check, at or above the fork, and the recovery leaves
      a wrong row. */
  lemma StaleHashSpoilsRecovery(genesis: int, t: map<int, BlockRow>, s: Sources, c: int -> string, start: int,
                                net: Net, show: Hash -> string, before: seq<Header>, h: int)
    requires Aligned(genesis, t) && s.height1.Some? && s.height2.Some? && s.height1.value <= s.height2.value
    requires AnsweredFrom(net, show, before, s.later)
    requires start <= h <= s.height1.value && h in Cached(net, before) && show(Cached(net, before)[h]) != c(h)
    requires ScanTold(s, c, WindowStart(genesis, s.height1.value)) && Found(genesis, t, s, start) && Rescannable(s, start)
    ensures !Matches(genesis, Rebuilt(genesis, t, s, start, s.height2.value), c, WindowStart(genesis, s.height1.value), s.height1.value)
  {
    hide Rebuilt, Matches, Cached;
    assert h in s.later;
    ToldFromCache(net, show, before, h, s.later[h]);
    MendedExactlyWhenRescanTold(genesis, t, s, c, start);
  }

  /** The rows were written from this cache. */
  ghost predicate WrittenFrom(net: Net, show: Hash -> string, chain: seq<Header>, genesis: int, t: map<int, BlockRow>) {
    forall n :: n in t && genesis + n in Cached(net, chain) ==> t[n].hash == show(Cached(net, chain)[genesis + n])
  }

  /** Rows that a sync wrote from the cache are put back by a recovery unless the cache was
      cleared in between. */
  lemma NothingMendedWithoutClear(genesis: int, t: map<int, BlockRow>, s: Sources, start: int,
                                  net: Net, show: Hash -> string, before: seq<Header>, n: int)
    requires genesis > CHECKPOINT_HEIGHT && Aligned(genesis, t) && Rescannable(s, start)
    requires AnsweredFrom(net, show, before, s.later) && WrittenFrom(net, show, before, genesis, t)
    requires n in t && genesis + n <= s.height2.value && genesis + n <= TipHeight(before)
    ensures n in Rebuilt(genesis, t, s, start, s.height2.value)
    ensures Rebuilt(genesis, t, s, start, s.height2.value)[n].hash == t[n].hash
  {
    hide Rebuilt, Cached;
    RebuiltAt(genesis, t, s, start, s.height2.value, n);
    CachedHeights(net, before, genesis + n);
    if start <= genesis + n {
      ToldFromCache(net, show, before, genesis + n, s.later[genesis + n]);
    }
  }

  /** The wrong fork row is there again for the next check. */
  lemma ForkIsFoundAgain(genesis: int, t: map<int, BlockRow>, s: Sources, start: int,
                         net: Net, show: Hash -> string, before: seq<Header>)
    requires genesis > CHECKPOINT_HEIGHT && Aligned(genesis, t) && Rescannable(s, start)
    requires AnsweredFrom(net, show, before, s.later) && WrittenFrom(net, show, before, genesis, t)
    requires s.height1.Some? && s.height1.value <= s.height2.value && start <= TipHeight(before)
    requires Found(genesis, t, s, start)
    ensures Found(genesis, Rebuilt(genesis, t, s, start, s.height2.value), s, start)
  {
    hide Rebuilt, WrittenFrom, AnsweredFrom;
    var t' := Rebuilt(genesis, t, s, start, s.height2.value);
    NothingMendedWithoutClear(genesis, t, s, start, net, show, before, start - genesis);
    forall h | WindowStart(genesis, s.height1.value) <= h < start ensures !Mismatch(genesis, t', s, h) {
      RebuiltAt(genesis, t, s, start, s.height2.value, h - genesis);
      assert !Mismatch(genesis, t, s, h);
    }
  }

  // ----- one hash tells -----

  /** Shown hashes name the shown hash of the header below. */
  ghost predicate ShowsParents(net: Net, show: Hash -> string, chain: seq<Header>, parent: string -> string) {
    forall k :: 0 <= k < |chain| ==> parent(show(net.hashOf(chain[k]))) == show(chain[k].prev)
  }

  /** On a linked chain the cached hash at the tip alone decides. */
  lemma {:induction false} TipTells(net: Net, show: Hash -> string, chain: seq<Header>, c: int -> string, parent: string -> string,
                                    start: int, hi: int)
    requires Linked(net, chain) && ShowsParents(net, show, chain, parent)
    requires CHECKPOINT_HEIGHT < start <= hi <= TipHeight(chain) && ChainLinked(c, parent, start, hi)
    ensures CacheIsRight(net, show, chain, c, start, hi) <==> show(Cached(net, chain)[hi]) == c(hi)
    decreases hi - start
  {
    var k := hi - CHECKPOINT_HEIGHT - 1;
    CachedHeights(net, chain, hi);
    if start < hi && show(Cached(net, chain)[hi]) == c(hi) {
      assert LinkAt(net, chain, k);
      assert parent(show(net.hashOf(chain[k]))) == show(chain[k].prev);
      assert parent(c(hi)) == c(hi - 1);
      TipTells(net, show, chain, c, parent, start, hi - 1);
    }
  }
}
