/** The peer-to-peer client's header bookkeeping, in the form it runs: two maps and a
    reported height updated step by step while peers answer. Each operation is proved
    to be one step of the machine in HeaderChain. */
module HeaderClient {
  import opened ProofOfWork
  import opened HeaderChain
  import opened Wrappers

  datatype SyncOutcome = Synced | NoPeers | StillWaiting
  datatype HeightOutcome = Height(value: int) | NoConnectedPeers | AllPeersFailed
  datatype PeerResult =
    | PeerFailed
    | PeerAt(height: int, localHeaders: map<int, Hash>, localIndex: map<Hash, int>)

  lemma HashByHeightAppend(net: Net, base: int, hs: seq<Header>, h: Header)
    ensures HashByHeight(net, base, hs + [h]) == HashByHeight(net, base, hs)[base + |hs| := net.hashOf(h)]
  {
  }

  lemma {:induction false} HeightByHashAppend(net: Net, base: int, hs: seq<Header>, h: Header)
    ensures HeightByHash(net, base, hs + [h]) == HeightByHash(net, base, hs)[net.hashOf(h) := base + |hs|]
  {
    assert (hs + [h])[..|hs|] == hs;
  }

  lemma HashByHeightMerge(net: Net, base: int, a: seq<Header>, b: seq<Header>)
    ensures HashByHeight(net, base, a) + HashByHeight(net, base + |a|, b) == HashByHeight(net, base, a + b)
  {
  }

  lemma {:induction false} HeightByHashMerge(net: Net, base: int, a: seq<Header>, b: seq<Header>)
    ensures HeightByHash(net, base, a) + HeightByHash(net, base + |a|, b) == HeightByHash(net, base, a + b)
  {
    if b == [] {
      assert a + b == a;
    } else {
      var n := |b| - 1;
      HeightByHashMerge(net, base, a, b[..n]);
      assert a + b == (a + b[..n]) + [b[n]];
      HeightByHashAppend(net, base, a + b[..n], b[n]);
    }
  }

  ghost function Prepend(news: seq<Header>, answer: Option<seq<Header>>): Option<seq<Header>> {
    if answer.None? then None else Some(news + answer.value)
  }

  /** What a non-empty batch does to the answer still to come. */
  lemma {:induction false} NextReply(net: Net, chain: seq<Header>, news: seq<Header>, hs: seq<Header>, hash: Hash, replies: seq<Reply>, k: nat)
    requires k < |replies| && replies[k] == Headers(hs) && hs != []
    ensures TipHash(net, chain + (news + hs)) == TipHash(net, hs)
    ensures var answer := Prepend(news, PeerHeaders(net, hash, replies[k..]));
            if GoodPrefix(net, hash, hs) < |hs| then answer == None
            else if |hs| < FULL_BATCH then answer == Some(news + hs)
            else answer == Prepend(news + hs, PeerHeaders(net, TipHash(net, hs), replies[k + 1..]))
  {
    assert replies[k..][0] == replies[k] && replies[k..][1..] == replies[k + 1..];
    if GoodPrefix(net, hash, hs) == |hs| >= FULL_BATCH {
      var rest := PeerHeaders(net, TipHash(net, hs), replies[k + 1..]);
      if rest.Some? {
        assert news + (hs + rest.value) == (news + hs) + rest.value;
      }
    }
  }

  method MergeMap<K(==), V>(a: map<K, V>, b: map<K, V>) returns (c: map<K, V>)
    ensures c == a + b
  {
    c := a;
    var keys := b.Keys;
    while keys != {}
      invariant keys <= b.Keys
      invariant c == a + map k | k in b.Keys - keys :: b[k]
    {
      var k :| k in keys;
      c := c[k := b[k]];
      keys := keys - {k};
    }
    assert (map k | k in b.Keys :: b[k]) == b;
  }

  lemma SwapKeepsHeights(s: seq<int>, i: nat, j: nat)
    requires i < j < |s|
    ensures multiset(s[i := s[j]][j := s[i]]) == multiset(s)
  {
  }

  /** The exchange sort of the reported heights. */
  method SortHeights(heights: seq<int>) returns (sorted: seq<int>)
    ensures |sorted| == |heights|
    ensures multiset(sorted) == multiset(heights)
    ensures forall i, j :: 0 <= i < j < |sorted| ==> sorted[i] <= sorted[j]
  {
    sorted := heights;
    var i := 0;
    while i < |heights| - 1
      invariant 0 <= i && |sorted| == |heights|
      invariant multiset(sorted) == multiset(heights)
      invariant forall a, b :: 0 <= a < i && a < b < |sorted| ==> sorted[a] <= sorted[b]
    {
      var j := i + 1;
      while j < |sorted|
        invariant i < j <= |sorted| == |heights|
        invariant multiset(sorted) == multiset(heights)
        invariant forall a, b :: 0 <= a < i && a < b < |sorted| ==> sorted[a] <= sorted[b]
        invariant forall b :: i < b < j ==> sorted[i] <= sorted[b]
      {
        if sorted[i] > sorted[j] {
          SwapKeepsHeights(sorted, i, j);
          sorted := sorted[i := sorted[j]][j := sorted[i]];
        }
        j := j + 1;
      }
      i := i + 1;
    }
  }

  class P2PClient {
    const net: Net
    var headerCache: map<int, Hash>
    var blockHashToHeight: map<Hash, int>
    var currentHeight: int
    var heightCacheTime: int
    var nextPeerIndex: nat
    /** The headers behind the cached hashes, lowest first. */
    ghost var chain: seq<Header>

    ghost predicate Valid()
      reads this
    {
      && headerCache == HashByHeight(net, CHECKPOINT_HEIGHT + 1, chain)
      && blockHashToHeight == HeightByHash(net, CHECKPOINT_HEIGHT + 1, chain)
      && Linked(net, chain)
      && (currentHeight == 0 || CHECKPOINT_HEIGHT <= currentHeight <= TipHeight(chain))
    }

    ghost function View(): Client
      reads this
    {
      Client(chain, currentHeight, heightCacheTime, nextPeerIndex)
    }

    constructor (net: Net)
      ensures Valid() && this.net == net
      ensures View() == FRESH
    {
      this.net := net;
      headerCache := map[];
      blockHashToHeight := map[];
      currentHeight := 0;
      heightCacheTime := 0;
      nextPeerIndex := 0;
      chain := [];
    }

    /** Scan the cache for its highest entry; without one, start at the checkpoint. */
    method FindTip() returns (height: int, hash: Hash)
      requires Valid()
      ensures height == TipHeight(chain) && hash == TipHash(net, chain)
    {
      height := CHECKPOINT_HEIGHT;
      hash := net.checkpoint;
      var heights := headerCache.Keys;
      while heights != {}
        invariant heights <= headerCache.Keys
        invariant height >= CHECKPOINT_HEIGHT
        invariant forall h :: h in headerCache.Keys && h !in heights ==> h <= height
        invariant height == CHECKPOINT_HEIGHT ==> hash == net.checkpoint
        invariant height > CHECKPOINT_HEIGHT ==> height in headerCache.Keys && hash == headerCache[height]
      {
        var h :| h in heights;
        if h > height && h >= CHECKPOINT_HEIGHT {
          height := h;
          hash := headerCache[h];
        }
        heights := heights - {h};
      }
      HighestEntry(net, chain, headerCache, height);
    }

    /** The two checks every header must pass. */
    method CheckHeader(header: Header, prev: Hash) returns (valid: bool)
      ensures valid <==> header.prev == prev && EnoughWork(net.hashOf(header))
    {
      if header.prev != prev {
        return false;
      }
      var leadingZeros := CountLeadingZeros(net.hashOf(header));
      return leadingZeros >= MIN_LEADING_ZEROS;
    }

    /** Whether a peer's result is the one that adds `news` above the shared tip. */
    ghost predicate Reports(result: PeerResult, news: seq<Header>)
      reads this
    {
      && result.PeerAt?
      && result.height == TipHeight(chain) + |news|
      && result.localHeaders == HashByHeight(net, TipHeight(chain) + 1, news)
      && result.localIndex == HeightByHash(net, TipHeight(chain) + 1, news)
    }

    /** Check one batch and enter it into local maps; one bad header rejects it all.
        `news` are the headers already in the maps. */
    method StoreLocally(hs: seq<Header>, from: int, prev: Hash, headers: map<int, Hash>, index: map<Hash, int>,
                        ghost base: int, ghost news: seq<Header>)
      returns (valid: bool, hash: Hash, headers': map<int, Hash>, index': map<Hash, int>)
      requires from == base + |news|
      requires headers == HashByHeight(net, base, news) && index == HeightByHash(net, base, news)
      ensures valid <==> GoodPrefix(net, prev, hs) == |hs|
      ensures valid && hs != [] ==> hash == TipHash(net, hs)
      ensures valid ==> headers' == HashByHeight(net, base, news + hs) && index' == HeightByHash(net, base, news + hs)
    {
      hide HashByHeight, HeightByHash;
      valid, hash, headers', index' := true, prev, headers, index;
      var height := from;
      ghost var seen := news;
      assert news + hs[..0] == news && hs[0..] == hs;
      for j := 0 to |hs|
        invariant height == from + j && seen == news + hs[..j]
        invariant headers' == HashByHeight(net, base, seen)
        invariant index' == HeightByHash(net, base, seen)
        invariant hash == if j == 0 then prev else net.hashOf(hs[j - 1])
        invariant GoodPrefix(net, prev, hs) == j + GoodPrefix(net, hash, hs[j..])
      {
        assert hs[j..][0] == hs[j] && hs[j..][1..] == hs[j + 1..];
        valid := CheckHeader(hs[j], hash);
        if !valid {
          return;
        }
        TakeOneMore(news, hs, j);
        HashByHeightAppend(net, base, seen, hs[j]);
        HeightByHashAppend(net, base, seen, hs[j]);
        seen := seen + [hs[j]];
        hash := net.hashOf(hs[j]);
        headers' := headers'[height := hash];
        index' := index'[hash := height];
        height := height + 1;
      }
      assert hs[..|hs|] == hs;
    }

    /** Download headers from one peer into local maps, all or nothing. The shared maps
        are not written; when the replies run out the request times out. */
    method GetBlockCountFromPeer(replies: seq<Reply>) returns (r: PeerResult)
      requires Valid()
      ensures var answer := PeerHeaders(net, TipHash(net, chain), replies);
              if answer.None? then r.PeerFailed? else Reports(r, answer.value)
    {
      var tip, hash := FindTip();
      hide PeerHeaders, TipHash, HashByHeight, HeightByHash;
      var height := tip + 1;
      var localHeaders: map<int, Hash>, localIndex: map<Hash, int> := map[], map[];
      ghost var target := PeerHeaders(net, hash, replies);
      ghost var news: seq<Header> := [];
      assert replies[0..] == replies;
      assert target.Some? ==> [] + target.value == target.value;
      assert chain + [] == chain;
      var k := 0;
      while k < |replies|
        invariant 0 <= k <= |replies|
        invariant hash == TipHash(net, chain + news)
        invariant Reports(PeerAt(height - 1, localHeaders, localIndex), news)
        invariant target == Prepend(news, PeerHeaders(net, hash, replies[k..]))
      {
        if replies[k].Timeout? {
          return PeerFailed;
        }
        var hs := replies[k].hs;
        if hs == [] {
          assert news + [] == news;
          return PeerAt(height - 1, localHeaders, localIndex);
        }
        NextReply(net, chain, news, hs, hash, replies, k);
        var valid: bool;
        valid, hash, localHeaders, localIndex := StoreLocally(hs, height, hash, localHeaders, localIndex, tip + 1, news);
        if !valid {
          return PeerFailed;
        }
        height := height + |hs|;
        news := news + hs;
        if |hs| < FULL_BATCH {
          return PeerAt(height - 1, localHeaders, localIndex);
        }
        k := k + 1;
      }
      r := PeerFailed;
    }

    /** Query peers one after the other until two have answered. */
    method CollectResults(queried: seq<seq<Reply>>) returns (results: seq<PeerResult>)
      requires Valid()
      ensures var answers := Answers(net, TipHash(net, chain), queried, 2);
              |results| == |answers| && forall i :: 0 <= i < |results| ==> Reports(results[i], answers[i])
    {
      hide PeerHeaders, Valid, HashByHeight, HeightByHash;
      results := [];
      ghost var answers: seq<seq<Header>> := [];
      ghost var tip := TipHash(net, chain);
      assert queried[0..] == queried;
      var k := 0;
      while k < |queried| && |results| < 2
        invariant 0 <= k <= |queried|
        invariant |results| == |answers| <= 2
        invariant forall i :: 0 <= i < |results| ==> Reports(results[i], answers[i])
        invariant Answers(net, tip, queried, 2) == answers + Answers(net, tip, queried[k..], 2 - |answers|)
      {
        var result := GetBlockCountFromPeer(queried[k]);
        assert queried[k..][0] == queried[k] && queried[k..][1..] == queried[k + 1..];
        if result.PeerAt? {
          ghost var news := PeerHeaders(net, tip, queried[k]).value;
          ghost var rest := Answers(net, tip, queried[k + 1..], 1 - |answers|);
          assert answers + ([news] + rest) == (answers + [news]) + rest;
          results := results + [result];
          answers := answers + [news];
        }
        k := k + 1;
      }
      assert answers + [] == answers;
    }

    /** The highest result; of equally high ones the last. */
    method PickBest(results: seq<PeerResult>, ghost answers: seq<seq<Header>>) returns (best: PeerResult)
      requires 0 < |results| == |answers|
      requires forall i :: 0 <= i < |results| ==> Reports(results[i], answers[i])
      ensures Reports(best, Best(answers))
    {
      best := results[0];
      ghost var bestNews := answers[0];
      for i := 0 to |results|
        invariant Reports(best, bestNews)
        invariant bestNews == if i == 0 then answers[0] else Best(answers[..i])
      {
        assert answers[..i + 1][..i] == answers[..i];
        if results[i].height >= best.height {
          best := results[i];
          bestNews := answers[i];
        }
      }
      assert answers[..|results|] == answers;
    }

    /** Merge one peer's validated local maps into the shared ones. */
    method Adopt(best: PeerResult, ghost news: seq<Header>)
      requires Valid() && Reports(best, news) && Linked(net, chain + news)
      modifies this`headerCache, this`blockHashToHeight, this`chain
      ensures Valid() && chain == old(chain) + news
    {
      HashByHeightMerge(net, CHECKPOINT_HEIGHT + 1, chain, news);
      HeightByHashMerge(net, CHECKPOINT_HEIGHT + 1, chain, news);
      headerCache := MergeMap(headerCache, best.localHeaders);
      blockHashToHeight := MergeMap(blockHashToHeight, best.localIndex);
      chain := chain + news;
    }

    /** Sort the reported heights, take the middle one, merge the longest answer. */
    method MergeBest(results: seq<PeerResult>, ghost answers: seq<seq<Header>>, now: int) returns (median: int)
      requires Valid() && 1 <= |results| == |answers| <= 2
      requires forall i :: 0 <= i < |results| ==> Reports(results[i], answers[i])
      requires forall a :: a in answers ==> Linked(net, chain + a)
      modifies this`headerCache, this`blockHashToHeight, this`chain, this`currentHeight, this`heightCacheTime
      ensures Valid() && chain == old(chain) + Best(answers)
      ensures median == currentHeight == TipHeight(chain) && heightCacheTime == now
    {
      hide HashByHeight, HeightByHash, Best, Linked;
      var heights := seq(|results|, i requires 0 <= i < |results| && results[i].PeerAt? => results[i].height);
      var sorted := SortHeights(heights);
      median := sorted[|sorted| / 2];
      var best := PickBest(results, answers);
      MedianIsBest(heights, sorted, answers, TipHeight(chain));
      BestIsLongestAnswer(answers);
      Adopt(best, Best(answers));
      currentHeight := median;
      heightCacheTime := now;
    }

    /** Ask up to three peers, stop at two answers, merge the longest answer and report
        the median height. `peers[i]` holds what the i-th connected peer will answer. */
    method GetBlockCountConsensus(now: int, peers: seq<seq<Reply>>) returns (r: HeightOutcome)
      requires Valid()
      modifies this
      ensures Valid()
      ensures chain == Consensus(net, old(View()), peers)
      ensures r.Height? ==> r.value == currentHeight == TipHeight(chain) && heightCacheTime == now
      ensures !r.Height? ==> currentHeight == old(currentHeight) && heightCacheTime == old(heightCacheTime)
      ensures r.Height? <==> Answers(net, TipHash(net, old(chain)), Queried(peers, old(nextPeerIndex)), 2) != []
      ensures r.NoConnectedPeers? <==> peers == []
      ensures nextPeerIndex == old(nextPeerIndex) + |Queried(peers, old(nextPeerIndex))|
    {
      if peers == [] {
        return NoConnectedPeers;
      }
      var queried := Queried(peers, nextPeerIndex);
      nextPeerIndex := nextPeerIndex + |queried|;
      var results := CollectResults(queried);
      ghost var answers := Answers(net, TipHash(net, chain), queried, 2);
      if |results| == 0 {
        return AllPeersFailed;
      }
      AnswersLink(net, chain, queried, 2);
      var median := MergeBest(results, answers, now);
      return Height(median);
    }

    /** The reported height, reused while it is fresh. */
    method GetBlockCount(now: int, peers: seq<seq<Reply>>) returns (r: HeightOutcome)
      requires Valid()
      modifies this
      ensures Valid()
      ensures Next(net, old(View()), BlockCount(now, peers), View())
      ensures r.Height? ==> r.value == currentHeight
      ensures r.Height? <==> (HeightIsFresh(old(View()), now)
                              || Answers(net, TipHash(net, old(chain)), Queried(peers, old(nextPeerIndex)), 2) != [])
    {
      if currentHeight > 0 && now - heightCacheTime < HEIGHT_CACHE_SECONDS {
        return Height(currentHeight);
      }
      r := GetBlockCountConsensus(now, peers);
    }

    /** Cache the valid headers of one batch in order, up to the target height. */
    method CacheBatch(hs: seq<Header>, from: int, prev: Hash, target: int)
      returns (height: int, hash: Hash, invalidFound: bool)
      requires Valid()
      requires from == TipHeight(chain) + 1 <= target && prev == TipHash(net, chain)
      modifies this`headerCache, this`blockHashToHeight, this`chain
      ensures Valid()
      ensures height == TipHeight(chain) + 1 && hash == TipHash(net, chain)
      ensures var good, room := GoodPrefix(net, prev, hs), target - TipHeight(old(chain));
              && chain == old(chain) + hs[..Min(good, room)]
              && (invalidFound <==> good < room && good < |hs|)
    {
      height, hash, invalidFound := from, prev, false;
      ghost var good, room := GoodPrefix(net, prev, hs), target - TipHeight(chain);
      assert hs[0..] == hs && chain + hs[..0] == chain;
      var j := 0;
      while j < |hs|
        invariant Valid() && 0 <= j <= |hs|
        invariant chain == old(chain) + hs[..j]
        invariant from + j == height == TipHeight(chain) + 1 <= target && hash == TipHash(net, chain)
        invariant good == j + GoodPrefix(net, hash, hs[j..])
        invariant !invalidFound && j < room
      {
        assert hs[j..][0] == hs[j] && hs[j..][1..] == hs[j + 1..];
        var valid := CheckHeader(hs[j], hash);
        if !valid {
          invalidFound := true;
          assert good == j;
          break;
        }
        CacheOne(hs[j], height);
        TakeOneMore(old(chain), hs, j);
        hash := net.hashOf(hs[j]);
        height := height + 1;
        j := j + 1;
        if height > target {
          assert j == room <= good;
          break;
        }
      }
      assert j == Min(good, room);
    }

    method CacheOne(header: Header, height: int)
      requires Valid() && height == TipHeight(chain) + 1
      requires header.prev == TipHash(net, chain) && EnoughWork(net.hashOf(header))
      modifies this`headerCache, this`blockHashToHeight, this`chain
      ensures Valid() && chain == old(chain) + [header]
    {
      LinkedAppend(net, chain, header);
      HashByHeightAppend(net, CHECKPOINT_HEIGHT + 1, chain, header);
      HeightByHashAppend(net, CHECKPOINT_HEIGHT + 1, chain, header);
      headerCache := headerCache[height := net.hashOf(header)];
      blockHashToHeight := blockHashToHeight[net.hashOf(header) := height];
      chain := chain + [header];
    }

    /** Sync headers towards a height, caching valid ones as they come and rotating to
        the next peer on a bad header or a timeout. */
    method SyncHeadersToHeight(target: int, peerCount: nat, replies: seq<Reply>) returns (r: SyncOutcome)
      requires Valid()
      modifies this
      ensures Valid()
      ensures chain == SyncHeaders(net, old(View()), target, peerCount, replies)
      ensures currentHeight == old(currentHeight) && heightCacheTime == old(heightCacheTime)
      ensures nextPeerIndex == old(nextPeerIndex) + if peerCount == 0 then 0 else 1 + SyncFailures(net, old(chain), target, replies)
      ensures r == NoPeers <==> peerCount == 0
      ensures r == StillWaiting ==> TipHeight(chain) < target
    {
      if peerCount == 0 {
        return NoPeers;
      }
      nextPeerIndex := nextPeerIndex + 1;
      var tip, hash := FindTip();
      var height := tip + 1;
      assert replies[0..] == replies;
      var k := 0;
      while height <= target
        invariant Valid() && 0 <= k <= |replies|
        invariant height == TipHeight(chain) + 1 && hash == TipHash(net, chain)
        invariant SyncTo(net, old(chain), target, replies) == SyncTo(net, chain, target, replies[k..])
        invariant old(nextPeerIndex) + 1 + SyncFailures(net, old(chain), target, replies)
               == nextPeerIndex + SyncFailures(net, chain, target, replies[k..])
        invariant currentHeight == old(currentHeight) && heightCacheTime == old(heightCacheTime)
        decreases |replies| - k
      {
        if k == |replies| {
          return StillWaiting;
        }
        var reply := replies[k];
        k := k + 1;
        assert replies[k - 1..][1..] == replies[k..];
        if reply.Timeout? {
          nextPeerIndex := nextPeerIndex + 1;
          continue;
        }
        var hs := reply.hs;
        if hs == [] {
          return Synced;
        }
        var invalidFound: bool;
        height, hash, invalidFound := CacheBatch(hs, height, hash, target);
        if invalidFound {
          nextPeerIndex := nextPeerIndex + 1;
          continue;
        }
        if |hs| < FULL_BATCH || height > target {
          return Synced;
        }
      }
      r := Synced;
    }

    /** The hash at a height, from the cache or after a sync. */
    method GetBlockHash(height: int, peerCount: nat, replies: seq<Reply>) returns (r: Option<Hash>)
      requires Valid()
      modifies this
      ensures Valid()
      ensures Next(net, old(View()), BlockHash(height, peerCount, replies), View())
      ensures r == if height in headerCache then Some(headerCache[height]) else None
    {
      if height in headerCache {
        return Some(headerCache[height]);
      }
      var outcome := SyncHeadersToHeight(height, peerCount, replies);
      if outcome != Synced {
        return None;
      }
      if height in headerCache {
        return Some(headerCache[height]);
      }
      return None;
    }

    method ClearHeaderCache()
      requires Valid()
      modifies this
      ensures Valid()
      ensures Next(net, old(View()), Clear, View())
      ensures headerCache == map[] && blockHashToHeight == map[]
    {
      headerCache := map[];
      blockHashToHeight := map[];
      currentHeight := 0;
      heightCacheTime := 0;
      chain := [];
    }
  }

  lemma HighestEntry(net: Net, chain: seq<Header>, cache: map<int, Hash>, height: int)
    requires cache == HashByHeight(net, CHECKPOINT_HEIGHT + 1, chain)
    requires height >= CHECKPOINT_HEIGHT
    requires forall h :: h in cache.Keys ==> h <= height
    requires height > CHECKPOINT_HEIGHT ==> height in cache.Keys
    ensures height == TipHeight(chain)
    ensures chain != [] ==> cache[height] == TipHash(net, chain)
  {
    if chain != [] {
      assert TipHeight(chain) in cache.Keys;
    }
  }

  lemma TakeOneMore(chain: seq<Header>, hs: seq<Header>, j: nat)
    requires j < |hs|
    ensures (chain + hs[..j]) + [hs[j]] == chain + hs[..j + 1]
  {
    assert hs[..j + 1] == hs[..j] + [hs[j]];
  }

  /** With at most two answers the median height is the height of the longest one. */
  lemma {:induction false} MedianIsBest(heights: seq<int>, sorted: seq<int>, answers: seq<seq<Header>>, tip: int)
    requires 1 <= |answers| == |heights| == |sorted| <= 2
    requires forall i :: 0 <= i < |heights| ==> heights[i] == tip + |answers[i]|
    requires multiset(sorted) == multiset(heights)
    requires forall i, j :: 0 <= i < j < |sorted| ==> sorted[i] <= sorted[j]
    ensures sorted[|sorted| / 2] == tip + |Best(answers)|
  {
    assert sorted[|sorted| / 2] in multiset(heights);
    if |answers| == 2 {
      assert heights[0] in multiset(sorted) && heights[1] in multiset(sorted);
      OneOfTwo(sorted, heights[0]);
      OneOfTwo(sorted, heights[1]);
      OneOfTwo(heights, sorted[1]);
      assert answers[..1] == [answers[0]];
    }
  }

  lemma OneOfTwo(s: seq<int>, x: int)
    requires |s| == 2 && x in multiset(s)
    ensures x == s[0] || x == s[1]
  {
    assert x in s;
  }
}
