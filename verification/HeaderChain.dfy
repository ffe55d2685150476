/** What the peer-to-peer client's header cache is allowed to become: the state
    machine behind header sync, height consensus and cache clearing, with peers that
    may answer anything. Headers are parametric over their hash. */
module HeaderChain {
  import opened ProofOfWork
  import opened Wrappers

  /** Header sync never goes below this block. */
  const CHECKPOINT_HEIGHT: int := 900000
  /** A peer that sends fewer headers than this has reached its tip. */
  const FULL_BATCH: nat := 2000
  /** A consensus height is reused for this many seconds. */
  const HEIGHT_CACHE_SECONDS: int := 30

  type Hash = seq<Byte>
  datatype Header = Header(prev: Hash, rest: seq<Byte>)
  datatype Net = Net(hashOf: Header -> Hash, checkpoint: Hash)
  datatype Reply = Headers(hs: seq<Header>) | Timeout

  // ----- chains of headers -----

  function TipHash(net: Net, chain: seq<Header>): Hash {
    if chain == [] then net.checkpoint else net.hashOf(chain[|chain| - 1])
  }

  function TipHeight(chain: seq<Header>): int {
    CHECKPOINT_HEIGHT + |chain|
  }

  /** Every header names the one below it (the first one, the checkpoint) and has
      enough work. */
  ghost predicate Linked(net: Net, chain: seq<Header>) {
    forall i :: 0 <= i < |chain| ==> LinkAt(net, chain, i)
  }

  ghost predicate LinkAt(net: Net, chain: seq<Header>, i: nat)
    requires i < |chain|
  {
    && chain[i].prev == (if i == 0 then net.checkpoint else net.hashOf(chain[i - 1]))
    && EnoughWork(net.hashOf(chain[i]))
  }

  /** How many headers of a batch pass both checks when they continue from `prev`. */
  ghost function GoodPrefix(net: Net, prev: Hash, hs: seq<Header>): (n: nat)
    ensures n <= |hs|
    decreases |hs|
  {
    if hs != [] && hs[0].prev == prev && EnoughWork(net.hashOf(hs[0]))
    then 1 + GoodPrefix(net, net.hashOf(hs[0]), hs[1..])
    else 0
  }

  /** The height-to-hash map of headers `hs` placed from height `base` upwards. */
  function HashByHeight(net: Net, base: int, hs: seq<Header>): map<int, Hash> {
    map h | base <= h < base + |hs| :: HashAt(net, base, hs, h)
  }

  function HashAt(net: Net, base: int, hs: seq<Header>, h: int): Hash
    requires base <= h < base + |hs|
  {
    net.hashOf(hs[h - base])
  }

  /** The hash-to-height map of the same headers, written in height order. */
  function HeightByHash(net: Net, base: int, hs: seq<Header>): map<Hash, int> {
    if hs == [] then map[]
    else
      var n := |hs| - 1;
      HeightByHash(net, base, hs[..n])[net.hashOf(hs[n]) := base + n]
  }

  // ----- one request to one peer, seen from the height consensus -----

  /** The headers one peer adds above a tip, over all its batches; nothing if it times
      out or sends a single bad header. */
  ghost function PeerHeaders(net: Net, tip: Hash, replies: seq<Reply>): Option<seq<Header>>
    decreases |replies|
  {
    if replies == [] || replies[0].Timeout? then None
    else
      var hs := replies[0].hs;
      if hs == [] then Some([])
      else if GoodPrefix(net, tip, hs) < |hs| then None
      else if |hs| < FULL_BATCH then Some(hs)
      else match PeerHeaders(net, TipHash(net, hs), replies[1..])
        case None => None
        case Some(more) => Some(hs + more)
  }

  /** The answers of the first peers that succeed, at most `want` of them. */
  ghost function Answers(net: Net, tip: Hash, peers: seq<seq<Reply>>, want: nat): (r: seq<seq<Header>>)
    ensures |r| <= want
  {
    if want == 0 || peers == [] then []
    else match PeerHeaders(net, tip, peers[0])
      case None => Answers(net, tip, peers[1..], want)
      case Some(hs) => [hs] + Answers(net, tip, peers[1..], want - 1)
  }

  /** The longest answer; of equally long ones the last. */
  ghost function Best(answers: seq<seq<Header>>): seq<Header>
    requires answers != []
  {
    var n := |answers| - 1;
    if n == 0 then answers[0]
    else
      var b := Best(answers[..n]);
      if |answers[n]| >= |b| then answers[n] else b
  }

  function Min(a: int, b: int): int {
    if a <= b then a else b
  }

  /** The peers a consensus round asks: up to three, round robin. */
  function Queried<T>(peers: seq<T>, next: nat): seq<T> {
    if peers == [] then []
    else seq(Min(3, |peers|), i => peers[(next + i) % |peers|])
  }

  // ----- a targeted sync -----

  /** The chain after syncing towards `target`, fed with the replies in the order the
      requests were answered, whichever peers they came from. */
  ghost function SyncTo(net: Net, chain: seq<Header>, target: int, replies: seq<Reply>): seq<Header>
    decreases |replies|
  {
    if TipHeight(chain) >= target || replies == [] then chain
    else match replies[0]
      case Timeout => SyncTo(net, chain, target, replies[1..])
      case Headers(hs) =>
        var room := target - TipHeight(chain);
        var good := GoodPrefix(net, TipHash(net, chain), hs);
        var next := chain + hs[..Min(good, room)];
        if hs == [] then chain
        else if good < room && good < |hs| then SyncTo(net, next, target, replies[1..])
        else if |hs| < FULL_BATCH then next
        else SyncTo(net, next, target, replies[1..])
  }

  /** How many of these requests fail, by silence or by a header that does not pass; after each
      the next peer is asked. */
  ghost function SyncFailures(net: Net, chain: seq<Header>, target: int, replies: seq<Reply>): nat
    decreases |replies|
  {
    if TipHeight(chain) >= target || replies == [] then 0
    else match replies[0]
      case Timeout => 1 + SyncFailures(net, chain, target, replies[1..])
      case Headers(hs) =>
        var room := target - TipHeight(chain);
        var good := GoodPrefix(net, TipHash(net, chain), hs);
        var next := chain + hs[..Min(good, room)];
        if hs == [] then 0
        else if good < room && good < |hs| then 1 + SyncFailures(net, next, target, replies[1..])
        else if |hs| < FULL_BATCH then 0
        else SyncFailures(net, next, target, replies[1..])
  }

  // ----- the whole client -----

  datatype Client = Client(chain: seq<Header>, currentHeight: int, heightCacheTime: int, nextPeerIndex: nat)

  datatype Op =
    | BlockHash(height: int, peerCount: nat, replies: seq<Reply>)
    | BlockCount(now: int, peers: seq<seq<Reply>>)
    | Clear

  const FRESH: Client := Client([], 0, 0, 0)

  ghost function SyncHeaders(net: Net, c: Client, target: int, peerCount: nat, replies: seq<Reply>): seq<Header> {
    if peerCount == 0 then c.chain else SyncTo(net, c.chain, target, replies)
  }

  ghost function Consensus(net: Net, c: Client, peers: seq<seq<Reply>>): seq<Header> {
    var answers := Answers(net, TipHash(net, c.chain), Queried(peers, c.nextPeerIndex), 2);
    if answers == [] then c.chain else c.chain + Best(answers)
  }

  function HeightIsFresh(c: Client, now: int): bool {
    c.currentHeight > 0 && now - c.heightCacheTime < HEIGHT_CACHE_SECONDS
  }

  /** The header chain one operation leaves behind. */
  ghost function ChainAfter(net: Net, c: Client, op: Op): seq<Header> {
    match op
    case Clear => []
    case BlockHash(height, peerCount, replies) =>
      if CHECKPOINT_HEIGHT < height <= TipHeight(c.chain) then c.chain
      else SyncHeaders(net, c, height, peerCount, replies)
    case BlockCount(now, peers) =>
      if HeightIsFresh(c, now) then c.chain else Consensus(net, c, peers)
  }

  /** A height round: the next peers are asked, and if any of them counts the new tip is
      the known height from now on. */
  ghost predicate Round(net: Net, c: Client, now: int, peers: seq<seq<Reply>>, c': Client) {
    && c'.nextPeerIndex == c.nextPeerIndex + |Queried(peers, c.nextPeerIndex)|
    && if Answers(net, TipHash(net, c.chain), Queried(peers, c.nextPeerIndex), 2) == []
       then c'.currentHeight == c.currentHeight && c'.heightCacheTime == c.heightCacheTime
       else c'.currentHeight == TipHeight(c'.chain) && c'.heightCacheTime == now
  }

  /** How many peers a lookup by height moves on: none for a cached height, otherwise the one
      it starts with and one more for each failure. */
  ghost function PeersUsed(net: Net, c: Client, height: int, peerCount: nat, replies: seq<Reply>): nat {
    if CHECKPOINT_HEIGHT < height <= TipHeight(c.chain) || peerCount == 0 then 0
    else 1 + SyncFailures(net, c.chain, height, replies)
  }

  /** One operation as a relation. */
  ghost predicate Next(net: Net, c: Client, op: Op, c': Client) {
    && c'.chain == ChainAfter(net, c, op)
    && match op
       case Clear => c' == Client([], 0, 0, c.nextPeerIndex)
       case BlockHash(height, peerCount, replies) =>
         && c'.currentHeight == c.currentHeight && c'.heightCacheTime == c.heightCacheTime
         && c'.nextPeerIndex == c.nextPeerIndex + PeersUsed(net, c, height, peerCount, replies)
       case BlockCount(now, peers) => if HeightIsFresh(c, now) then c' == c else Round(net, c, now, peers, c')
  }

  /** A run: a start-up client followed by any operations, with any peers. */
  ghost predicate IsRun(net: Net, states: seq<Client>, ops: seq<Op>) {
    && |states| == |ops| + 1
    && states[0].chain == [] && states[0].currentHeight == 0
    && forall i :: 0 <= i < |ops| ==> Next(net, states[i], ops[i], states[i + 1])
  }

  // ----- what one operation keeps -----

  lemma LinkedAppend(net: Net, chain: seq<Header>, h: Header)
    requires Linked(net, chain)
    requires h.prev == TipHash(net, chain) && EnoughWork(net.hashOf(h))
    ensures Linked(net, chain + [h])
  {
    var chain' := chain + [h];
    forall i | 0 <= i < |chain'| ensures LinkAt(net, chain', i) {
      if i < |chain| {
        assert LinkAt(net, chain, i);
      }
    }
  }

  lemma ShiftOne(chain: seq<Header>, hs: seq<Header>, n: nat)
    requires 0 < n <= |hs|
    ensures (chain + [hs[0]]) + hs[1..][..n - 1] == chain + hs[..n]
  {
    assert hs[..n] == [hs[0]] + hs[1..][..n - 1];
  }

  lemma {:induction false} GoodPrefixLinks(net: Net, chain: seq<Header>, hs: seq<Header>, n: nat)
    requires Linked(net, chain)
    requires n <= GoodPrefix(net, TipHash(net, chain), hs)
    ensures Linked(net, chain + hs[..n])
    decreases n
  {
    if n == 0 {
      assert chain + hs[..0] == chain;
    } else {
      LinkedAppend(net, chain, hs[0]);
      GoodPrefixLinks(net, chain + [hs[0]], hs[1..], n - 1);
      ShiftOne(chain, hs, n);
    }
  }

  lemma {:induction false} PeerHeadersLink(net: Net, chain: seq<Header>, replies: seq<Reply>)
    requires Linked(net, chain)
    requires PeerHeaders(net, TipHash(net, chain), replies).Some?
    ensures Linked(net, chain + PeerHeaders(net, TipHash(net, chain), replies).value)
    decreases |replies|
  {
    var hs := replies[0].hs;
    if hs == [] {
      assert chain + hs == chain;
    } else {
      GoodPrefixLinks(net, chain, hs, |hs|);
      assert hs[..|hs|] == hs;
      if |hs| >= FULL_BATCH {
        assert TipHash(net, chain + hs) == TipHash(net, hs);
        PeerHeadersLink(net, chain + hs, replies[1..]);
        var more := PeerHeaders(net, TipHash(net, hs), replies[1..]).value;
        assert (chain + hs) + more == chain + (hs + more);
      }
    }
  }

  lemma {:induction false} AnswersLink(net: Net, chain: seq<Header>, peers: seq<seq<Reply>>, want: nat)
    requires Linked(net, chain)
    ensures forall a :: a in Answers(net, TipHash(net, chain), peers, want) ==> Linked(net, chain + a)
    decreases |peers|
  {
    if want != 0 && peers != [] {
      match PeerHeaders(net, TipHash(net, chain), peers[0])
      case None => AnswersLink(net, chain, peers[1..], want);
      case Some(hs) =>
        PeerHeadersLink(net, chain, peers[0]);
        AnswersLink(net, chain, peers[1..], want - 1);
    }
  }

  lemma {:induction false} BestIsLongestAnswer(answers: seq<seq<Header>>)
    requires answers != []
    ensures Best(answers) in answers
    ensures forall a :: a in answers ==> |a| <= |Best(answers)|
  {
    var n := |answers| - 1;
    assert answers == answers[..n] + [answers[n]];
    if n != 0 {
      BestIsLongestAnswer(answers[..n]);
    }
  }

  /** A targeted sync keeps the chain linked, only extends it, and never past its target. */
  lemma {:induction false} SyncToKeeps(net: Net, chain: seq<Header>, target: int, replies: seq<Reply>)
    requires Linked(net, chain)
    ensures Linked(net, SyncTo(net, chain, target, replies))
    ensures chain <= SyncTo(net, chain, target, replies)
    ensures TipHeight(chain) >= target || TipHeight(SyncTo(net, chain, target, replies)) <= target
    decreases |replies|
  {
    if TipHeight(chain) < target && replies != [] {
      match replies[0]
      case Timeout => SyncToKeeps(net, chain, target, replies[1..]);
      case Headers(hs) =>
        var room := target - TipHeight(chain);
        var good := GoodPrefix(net, TipHash(net, chain), hs);
        var next := chain + hs[..Min(good, room)];
        GoodPrefixLinks(net, chain, hs, Min(good, room));
        SyncToKeeps(net, next, target, replies[1..]);
    }
  }

  lemma StepKeeps(net: Net, c: Client, op: Op)
    requires Linked(net, c.chain)
    ensures Linked(net, ChainAfter(net, c, op))
    ensures !op.Clear? ==> c.chain <= ChainAfter(net, c, op)
  {
    match op
    case Clear =>
    case BlockHash(height, peerCount, replies) => SyncToKeeps(net, c.chain, height, replies);
    case BlockCount(now, peers) =>
      var queried := Queried(peers, c.nextPeerIndex);
      var answers := Answers(net, TipHash(net, c.chain), queried, 2);
      AnswersLink(net, c.chain, queried, 2);
      if answers != [] {
        BestIsLongestAnswer(answers);
      }
  }

  // ----- what every run keeps -----

  /** In every reachable state, whatever the peers sent, the cached headers form a hash
      chain of proven work from the checkpoint, and the reported height is unset or one
      the chain has reached. */
  lemma {:induction false} RunKeepsChain(net: Net, states: seq<Client>, ops: seq<Op>, i: nat)
    requires IsRun(net, states, ops) && i < |states|
    ensures Linked(net, states[i].chain)
    ensures states[i].currentHeight == 0 || CHECKPOINT_HEIGHT <= states[i].currentHeight <= TipHeight(states[i].chain)
  {
    if i != 0 {
      RunKeepsChain(net, states, ops, i - 1);
      StepKeeps(net, states[i - 1], ops[i - 1]);
      assert Next(net, states[i - 1], ops[i - 1], states[i]);
    }
  }

  /** Between two clears a cached entry never changes: the chain only grows at its end. */
  lemma {:induction false} CacheOnlyGrows(net: Net, states: seq<Client>, ops: seq<Op>, i: nat, j: nat)
    requires IsRun(net, states, ops) && i <= j < |states|
    requires forall k :: i <= k < j ==> !ops[k].Clear?
    ensures states[i].chain <= states[j].chain
  {
    if i < j {
      CacheOnlyGrows(net, states, ops, i, j - 1);
      RunKeepsChain(net, states, ops, j - 1);
      StepKeeps(net, states[j - 1], ops[j - 1]);
      assert Next(net, states[j - 1], ops[j - 1], states[j]);
    }
  }

  /** Seen through the height-to-hash map: no entry present before is ever different later. */
  lemma CachedHashIsStable(net: Net, states: seq<Client>, ops: seq<Op>, i: nat, j: nat, h: int)
    requires IsRun(net, states, ops) && i <= j < |states|
    requires forall k :: i <= k < j ==> !ops[k].Clear?
    requires h in HashByHeight(net, CHECKPOINT_HEIGHT + 1, states[i].chain)
    ensures h in HashByHeight(net, CHECKPOINT_HEIGHT + 1, states[j].chain)
    ensures HashByHeight(net, CHECKPOINT_HEIGHT + 1, states[j].chain)[h]
         == HashByHeight(net, CHECKPOINT_HEIGHT + 1, states[i].chain)[h]
  {
    CacheOnlyGrows(net, states, ops, i, j);
  }

  // ----- distinct hashes and the two maps -----

  ghost predicate HashesDistinct(net: Net, chain: seq<Header>) {
    forall i, j :: 0 <= i < j < |chain| ==> net.hashOf(chain[i]) != net.hashOf(chain[j])
  }

  ghost predicate CollisionFree(net: Net, hs: set<Header>) {
    && (forall a, b :: a in hs && b in hs && net.hashOf(a) == net.hashOf(b) ==> a == b)
    && (forall a :: a in hs ==> net.hashOf(a) != net.checkpoint)
  }

  function HeaderSet(chain: seq<Header>): set<Header> {
    set h | h in chain
  }

  lemma {:induction false} RepeatReachesCheckpoint(net: Net, chain: seq<Header>, i: nat, j: nat)
    requires Linked(net, chain) && i < j < |chain|
    requires CollisionFree(net, HeaderSet(chain))
    ensures net.hashOf(chain[i]) != net.hashOf(chain[j])
    decreases i
  {
    if net.hashOf(chain[i]) == net.hashOf(chain[j]) {
      assert chain[i] in HeaderSet(chain) && chain[j] in HeaderSet(chain) && chain[j - 1] in HeaderSet(chain);
      assert LinkAt(net, chain, i) && LinkAt(net, chain, j);
      if i > 0 {
        RepeatReachesCheckpoint(net, chain, i - 1, j - 1);
      }
    }
  }

  /** The cached hashes (with the checkpoint's) are pairwise distinct exactly when the
      hash has no collision on the cached headers and none of them hashes to the checkpoint. */
  lemma DistinctExactlyWhenCollisionFree(net: Net, chain: seq<Header>)
    requires Linked(net, chain)
    ensures CollisionFree(net, HeaderSet(chain))
       <==> HashesDistinct(net, chain) && (forall i :: 0 <= i < |chain| ==> net.hashOf(chain[i]) != net.checkpoint)
  {
    if CollisionFree(net, HeaderSet(chain)) {
      forall i, j | 0 <= i < j < |chain| ensures net.hashOf(chain[i]) != net.hashOf(chain[j]) {
        RepeatReachesCheckpoint(net, chain, i, j);
      }
      forall i | 0 <= i < |chain| ensures net.hashOf(chain[i]) != net.checkpoint {
        assert chain[i] in HeaderSet(chain);
      }
    }
  }

  lemma {:induction false} HeightByHashSound(net: Net, base: int, hs: seq<Header>)
    ensures forall x :: x in HeightByHash(net, base, hs) ==>
      && base <= HeightByHash(net, base, hs)[x] < base + |hs|
      && net.hashOf(hs[HeightByHash(net, base, hs)[x] - base]) == x
    ensures forall i :: 0 <= i < |hs| ==> net.hashOf(hs[i]) in HeightByHash(net, base, hs)
  {
    if hs != [] {
      HeightByHashSound(net, base, hs[..|hs| - 1]);
    }
  }

  lemma {:induction false} HeightByHashDistinct(net: Net, base: int, hs: seq<Header>)
    requires HashesDistinct(net, hs)
    ensures forall i :: 0 <= i < |hs| ==>
      && net.hashOf(hs[i]) in HeightByHash(net, base, hs)
      && HeightByHash(net, base, hs)[net.hashOf(hs[i])] == base + i
  {
    if hs != [] {
      HeightByHashDistinct(net, base, hs[..|hs| - 1]);
    }
  }

  ghost predicate ExactInverses(cache: map<int, Hash>, index: map<Hash, int>) {
    && (forall h :: h in cache ==> cache[h] in index && index[cache[h]] == h)
    && (forall x :: x in index ==> index[x] in cache && cache[index[x]] == x)
  }

  lemma {:induction false} DistinctMapsAreInverse(net: Net, base: int, hs: seq<Header>)
    requires HashesDistinct(net, hs)
    ensures ExactInverses(HashByHeight(net, base, hs), HeightByHash(net, base, hs))
  {
    var cache, index := HashByHeight(net, base, hs), HeightByHash(net, base, hs);
    forall h | h in cache ensures cache[h] in index && index[cache[h]] == h {
      HeightByHashDistinct(net, base, hs);
      assert cache[h] == net.hashOf(hs[h - base]);
    }
    forall x | x in index ensures index[x] in cache && cache[index[x]] == x {
      HeightByHashSound(net, base, hs);
    }
  }

  lemma {:induction false} InverseMapsAreDistinct(net: Net, base: int, hs: seq<Header>, i: nat, j: nat)
    requires ExactInverses(HashByHeight(net, base, hs), HeightByHash(net, base, hs))
    requires i < j < |hs|
    ensures net.hashOf(hs[i]) != net.hashOf(hs[j])
  {
    var cache := HashByHeight(net, base, hs);
    assert cache[base + i] == net.hashOf(hs[i]);
    assert cache[base + j] == net.hashOf(hs[j]);
  }

  /** The reverse map always points back into the cache (HeightByHashSound); the two maps
      are exact inverses exactly when no hash is cached twice. */
  lemma {:induction false} MapsAreInverseExactlyWhenDistinct(net: Net, base: int, hs: seq<Header>)
    ensures ExactInverses(HashByHeight(net, base, hs), HeightByHash(net, base, hs)) <==> HashesDistinct(net, hs)
  {
    if HashesDistinct(net, hs) {
      DistinctMapsAreInverse(net, base, hs);
    } else {
      var i, j :| 0 <= i < j < |hs| && net.hashOf(hs[i]) == net.hashOf(hs[j]);
      if ExactInverses(HashByHeight(net, base, hs), HeightByHash(net, base, hs)) {
        InverseMapsAreDistinct(net, base, hs, i, j);
      }
    }
  }

  // ----- only delivered headers get in -----

  ghost function RepliesHeaders(replies: seq<Reply>): set<Header> {
    set r, h | r in replies && r.Headers? && h in r.hs :: h
  }

  ghost function OpHeaders(op: Op): set<Header> {
    match op
    case Clear => {}
    case BlockHash(_, _, replies) => RepliesHeaders(replies)
    case BlockCount(_, peers) => set p, h | p in peers && h in RepliesHeaders(p) :: h
  }

  ghost function Delivered(ops: seq<Op>): set<Header> {
    set op, h | op in ops && h in OpHeaders(op) :: h
  }

  lemma {:induction false} SyncToDelivered(net: Net, chain: seq<Header>, target: int, replies: seq<Reply>)
    ensures HeaderSet(SyncTo(net, chain, target, replies)) <= HeaderSet(chain) + RepliesHeaders(replies)
    decreases |replies|
  {
    if TipHeight(chain) < target && replies != [] {
      assert RepliesHeaders(replies[1..]) <= RepliesHeaders(replies);
      match replies[0]
      case Timeout => SyncToDelivered(net, chain, target, replies[1..]);
      case Headers(hs) =>
        var good := GoodPrefix(net, TipHash(net, chain), hs);
        var next := chain + hs[..Min(good, target - TipHeight(chain))];
        forall h | h in HeaderSet(next) ensures h in HeaderSet(chain) + RepliesHeaders(replies) {
          if h !in chain {
            assert h in hs && replies[0] in replies;
          }
        }
        SyncToDelivered(net, next, target, replies[1..]);
    }
  }

  lemma {:induction false} PeerHeadersDelivered(net: Net, tip: Hash, replies: seq<Reply>)
    requires PeerHeaders(net, tip, replies).Some?
    ensures HeaderSet(PeerHeaders(net, tip, replies).value) <= RepliesHeaders(replies)
    decreases |replies|
  {
    var hs := replies[0].hs;
    assert forall h :: h in hs ==> replies[0] in replies && h in RepliesHeaders(replies);
    if hs != [] && |hs| >= FULL_BATCH {
      PeerHeadersDelivered(net, TipHash(net, hs), replies[1..]);
      assert RepliesHeaders(replies[1..]) <= RepliesHeaders(replies);
    }
  }

  lemma {:induction false} AnswersDelivered(net: Net, tip: Hash, peers: seq<seq<Reply>>, want: nat)
    ensures forall a :: a in Answers(net, tip, peers, want) ==>
      exists p :: p in peers && HeaderSet(a) <= RepliesHeaders(p)
    decreases |peers|
  {
    if want != 0 && peers != [] {
      assert peers[0] in peers;
      match PeerHeaders(net, tip, peers[0])
      case None => AnswersDelivered(net, tip, peers[1..], want);
      case Some(hs) =>
        PeerHeadersDelivered(net, tip, peers[0]);
        AnswersDelivered(net, tip, peers[1..], want - 1);
    }
  }

  lemma StepDelivered(net: Net, c: Client, op: Op)
    ensures HeaderSet(ChainAfter(net, c, op)) <= HeaderSet(c.chain) + OpHeaders(op)
  {
    match op
    case Clear =>
    case BlockHash(height, peerCount, replies) => SyncToDelivered(net, c.chain, height, replies);
    case BlockCount(now, peers) =>
      var queried := Queried(peers, c.nextPeerIndex);
      var answers := Answers(net, TipHash(net, c.chain), queried, 2);
      AnswersDelivered(net, TipHash(net, c.chain), queried, 2);
      if answers != [] {
        BestIsLongestAnswer(answers);
        var p :| p in queried && HeaderSet(Best(answers)) <= RepliesHeaders(p);
        assert p in peers;
        assert forall h :: h in RepliesHeaders(p) ==> h in OpHeaders(op);
      }
  }

  lemma {:induction false} RunDelivered(net: Net, states: seq<Client>, ops: seq<Op>, i: nat)
    requires IsRun(net, states, ops) && i < |states|
    ensures HeaderSet(states[i].chain) <= Delivered(ops)
  {
    if i != 0 {
      RunDelivered(net, states, ops, i - 1);
      StepDelivered(net, states[i - 1], ops[i - 1]);
      assert Next(net, states[i - 1], ops[i - 1], states[i]);
      assert ops[i - 1] in ops;
    }
  }

  /** If the hash has no collision among the headers delivered during a run, then in
      every state of that run the two maps are exact inverses of one another. */
  lemma {:induction false} RunMapsAreInverse(net: Net, states: seq<Client>, ops: seq<Op>, i: nat)
    requires IsRun(net, states, ops) && i < |states|
    requires CollisionFree(net, Delivered(ops))
    ensures ExactInverses(HashByHeight(net, CHECKPOINT_HEIGHT + 1, states[i].chain),
                          HeightByHash(net, CHECKPOINT_HEIGHT + 1, states[i].chain))
  {
    var chain := states[i].chain;
    RunDelivered(net, states, ops, i);
    RunKeepsChain(net, states, ops, i);
    DistinctExactlyWhenCollisionFree(net, chain);
    MapsAreInverseExactlyWhenDistinct(net, CHECKPOINT_HEIGHT + 1, chain);
  }

  /** Two clients whose caches hold the same hash at one height hold the same headers at
      every lower height, however differently they were fed. */
  lemma {:induction false} OneHashFixesAllBelow(net: Net, a: seq<Header>, b: seq<Header>, n: nat)
    requires Linked(net, a) && Linked(net, b) && n < |a| && n < |b|
    requires CollisionFree(net, HeaderSet(a) + HeaderSet(b))
    requires net.hashOf(a[n]) == net.hashOf(b[n])
    ensures a[..n + 1] == b[..n + 1]
  {
    assert a[n] in HeaderSet(a) + HeaderSet(b) && b[n] in HeaderSet(a) + HeaderSet(b);
    if n == 0 {
      assert a[..1] == [a[0]] && b[..1] == [b[0]];
    } else {
      assert LinkAt(net, a, n) && LinkAt(net, b, n);
      OneHashFixesAllBelow(net, a, b, n - 1);
      assert a[..n + 1] == a[..n] + [a[n]] && b[..n + 1] == b[..n] + [b[n]];
    }
  }
}
