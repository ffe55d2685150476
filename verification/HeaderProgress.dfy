/** How far header downloads get, whatever mix of answers arrives: how many headers a
    targeted sync caches, which peers a height round believes, and when a round runs.
    Heights, batch sizes and times are written out. */
module HeaderProgress {
  import opened Bits
  import opened ProofOfWork
  import opened HeaderChain
  import opened Wrappers

  /** A peer that serves the chain `full` and is asked for what follows its first n headers:
      it stays silent, sends the next 2000 headers (fewer at the tip), or sends `k` of them
      and then something that does not pass. */
  datatype Answer = Silent | Honest | Spoiled(k: nat, junk: seq<Header>)

  function NextBatch(full: seq<Header>, n: nat): seq<Header>
    requires n <= |full|
  {
    if |full| - n < 2000 then full[n..] else full[n..n + 2000]
  }

  /** The first of these headers does not continue from `prev`, or lacks work. */
  ghost predicate Rejected(net: Net, prev: Hash, junk: seq<Header>) {
    junk != [] && (junk[0].prev != prev || !EnoughWork(net.hashOf(junk[0])))
  }

  ghost predicate Possible(net: Net, full: seq<Header>, n: nat, a: Answer) {
    a.Spoiled? ==> n + a.k <= |full| && Rejected(net, TipHash(net, full[..n + a.k]), a.junk)
  }

  function ReplyOf(full: seq<Header>, n: nat, a: Answer): Reply
    requires n <= |full| && (a.Spoiled? ==> n + a.k <= |full|)
  {
    match a
    case Silent => Timeout
    case Honest => Headers(NextBatch(full, n))
    case Spoiled(k, junk) => Headers(full[n..n + k] + junk)
  }

  /** How many headers of the chain the client knows after one answer. */
  function KnownAfter(total: nat, n: nat, a: Answer): nat {
    match a
    case Silent => n
    case Honest => if total < n + 2000 then total else n + 2000
    case Spoiled(k, _) => n + k
  }

  function KnownAfterAll(total: nat, n: nat, answers: seq<Answer>): nat
    decreases |answers|
  {
    if answers == [] then n else KnownAfterAll(total, KnownAfter(total, n, answers[0]), answers[1..])
  }

  /** The replies are these answers, each to a request for what follows the ones before. */
  ghost predicate Served(net: Net, full: seq<Header>, n: nat, answers: seq<Answer>, replies: seq<Reply>)
    decreases |answers|
  {
    && n <= |full| && |answers| == |replies|
    && (answers != [] ==>
          && Possible(net, full, n, answers[0]) && replies[0] == ReplyOf(full, n, answers[0])
          && Served(net, full, KnownAfter(|full|, n, answers[0]), answers[1..], replies[1..]))
  }

  lemma LinkedDrop(net: Net, full: seq<Header>, n: nat)
    requires Linked(net, full) && n < |full|
    ensures full[n].prev == TipHash(net, full[..n]) && EnoughWork(net.hashOf(full[n]))
  {
    assert LinkAt(net, full, n);
  }

  /** Of a stretch of the chain followed by junk, exactly the stretch passes. */
  lemma {:induction false} StretchPasses(net: Net, full: seq<Header>, n: nat, k: nat, junk: seq<Header>)
    requires Linked(net, full) && n + k <= |full|
    requires junk == [] || Rejected(net, TipHash(net, full[..n + k]), junk)
    ensures GoodPrefix(net, TipHash(net, full[..n]), full[n..n + k] + junk) == k
    decreases k
  {
    var hs := full[n..n + k] + junk;
    if k == 0 {
      assert hs == junk;
    } else {
      LinkedDrop(net, full, n);
      StretchPasses(net, full, n + 1, k - 1, junk);
      assert hs[1..] == full[n + 1..n + k] + junk;
    }
  }

  lemma StretchAppends(full: seq<Header>, n: nat, k: nat, m: nat, junk: seq<Header>)
    requires m <= k && n + k <= |full|
    ensures full[..n] + (full[n..n + k] + junk)[..m] == full[..n + m]
  {
  }

  lemma {:induction false} TopStays(net: Net, full: seq<Header>, answers: seq<Answer>, replies: seq<Reply>)
    requires Served(net, full, |full|, answers, replies)
    ensures KnownAfterAll(|full|, |full|, answers) == |full|
  {
    if answers != [] {
      TopStays(net, full, answers[1..], replies[1..]);
    }
  }

  lemma {:induction false} KnownGrows(net: Net, full: seq<Header>, n: nat, answers: seq<Answer>, replies: seq<Reply>)
    requires Served(net, full, n, answers, replies)
    ensures n <= KnownAfterAll(|full|, n, answers) <= |full|
    decreases |answers|
  {
    if answers != [] {
      KnownGrows(net, full, KnownAfter(|full|, n, answers[0]), answers[1..], replies[1..]);
    }
  }

  // ----- a targeted sync -----

  /** One batch: a stretch of the chain, then perhaps junk. */
  lemma BatchTaken(net: Net, full: seq<Header>, n: nat, goal: nat, k: nat, junk: seq<Header>, replies: seq<Reply>)
    requires Linked(net, full) && n < goal && n + k <= |full|
    requires junk == [] || Rejected(net, TipHash(net, full[..n + k]), junk)
    requires replies != [] && replies[0] == Headers(full[n..n + k] + junk) && (k > 0 || junk != [])
    ensures SyncTo(net, full[..n], 900000 + goal, replies)
         == if (n + k < goal && junk != []) || k + |junk| >= 2000
            then SyncTo(net, full[..Min(goal, n + k)], 900000 + goal, replies[1..])
            else full[..Min(goal, n + k)]
  {
    hide GoodPrefix, Linked;
    StretchPasses(net, full, n, k, junk);
    StretchAppends(full, n, k, Min(k, goal - n), junk);
  }

  lemma AtGoal(net: Net, full: seq<Header>, goal: nat, replies: seq<Reply>)
    requires goal <= |full|
    ensures SyncTo(net, full[..goal], 900000 + goal, replies) == full[..goal]
  {
  }

  lemma {:induction false} NothingMore(net: Net, chain: seq<Header>, target: int, replies: seq<Reply>)
    requires replies == [] || (replies[0].Headers? && replies[0].hs == [])
    ensures SyncTo(net, chain, target, replies) == chain
  {
  }

  lemma {:induction false} SilenceIsSkipped(net: Net, chain: seq<Header>, target: int, replies: seq<Reply>)
    requires replies != [] && replies[0].Timeout? && TipHeight(chain) < target
    ensures SyncTo(net, chain, target, replies) == SyncTo(net, chain, target, replies[1..])
  {
  }

  /** A sync towards `goal` headers above the checkpoint caches exactly the chain up to the
      goal or up to what the answers brought: silence costs nothing, what comes before junk
      is kept, and a full batch is followed by the next request. */
  lemma {:induction false} SyncReaches(net: Net, full: seq<Header>, n: nat, goal: nat, answers: seq<Answer>, replies: seq<Reply>)
    requires Linked(net, full) && Served(net, full, n, answers, replies) && n <= goal
    ensures n <= KnownAfterAll(|full|, n, answers) <= |full|
    ensures SyncTo(net, full[..n], 900000 + goal, replies) == full[..Min(goal, KnownAfterAll(|full|, n, answers))]
    decreases |answers|
  {
    hide SyncTo, Linked, GoodPrefix;
    KnownGrows(net, full, n, answers, replies);
    if n == goal {
      AtGoal(net, full, goal, replies);
    } else if answers == [] {
      NothingMore(net, full[..n], 900000 + goal, replies);
    } else {
      var next := KnownAfter(|full|, n, answers[0]);
      KnownGrows(net, full, next, answers[1..], replies[1..]);
      if next <= goal {
        SyncReaches(net, full, next, goal, answers[1..], replies[1..]);
      } else {
        AtGoal(net, full, goal, replies[1..]);
      }
      if answers[0].Silent? {
        SilenceIsSkipped(net, full[..n], 900000 + goal, replies);
      } else if answers[0].Spoiled? {
        BatchTaken(net, full, n, goal, next - n, answers[0].junk, replies);
      } else {
        HonestTaken(net, full, n, goal, replies);
        if next == |full| {
          TopStays(net, full, answers[1..], replies[1..]);
        }
      }
    }
  }

  lemma {:induction false} HonestTaken(net: Net, full: seq<Header>, n: nat, goal: nat, replies: seq<Reply>)
    requires Linked(net, full) && n <= |full| && n < goal && replies != [] && replies[0] == Headers(NextBatch(full, n))
    ensures SyncTo(net, full[..n], 900000 + goal, replies)
         == if |full| < n + 2000 then full[..Min(goal, |full|)]
            else SyncTo(net, full[..Min(goal, n + 2000)], 900000 + goal, replies[1..])
  {
    hide SyncTo, Linked, GoodPrefix;
    var k := |NextBatch(full, n)|;
    if k == 0 {
      NothingMore(net, full[..n], 900000 + goal, replies);
    } else {
      assert full[n..n + k] + [] == NextBatch(full, n);
      BatchTaken(net, full, n, goal, k, [], replies);
    }
  }

  /** How many of the answers fail before the goal or the tip is reached. */
  function Failed(total: nat, n: nat, goal: nat, answers: seq<Answer>): nat
    decreases |answers|
  {
    if n >= goal || answers == [] then 0
    else match answers[0]
      case Silent => 1 + Failed(total, n, goal, answers[1..])
      case Honest => if total < n + 2000 then 0 else Failed(total, n + 2000, goal, answers[1..])
      case Spoiled(k, _) => if n + k < goal then 1 + Failed(total, n + k, goal, answers[1..]) else 0
  }

  lemma BatchFails(net: Net, full: seq<Header>, n: nat, goal: nat, k: nat, junk: seq<Header>, replies: seq<Reply>)
    requires Linked(net, full) && n < goal && n + k <= |full|
    requires junk == [] || Rejected(net, TipHash(net, full[..n + k]), junk)
    requires replies != [] && replies[0] == Headers(full[n..n + k] + junk)
    ensures SyncFailures(net, full[..n], 900000 + goal, replies)
         == if n + k < goal && junk != [] then 1 + SyncFailures(net, full[..n + k], 900000 + goal, replies[1..])
            else if n + k >= goal || k < 2000 then 0
            else SyncFailures(net, full[..n + k], 900000 + goal, replies[1..])
  {
    hide GoodPrefix, Linked;
    StretchPasses(net, full, n, k, junk);
    StretchAppends(full, n, k, Min(k, goal - n), junk);
  }

  /** A sync moves on to the next peer once for every failing answer, and for no other. */
  lemma {:induction false} SyncRotates(net: Net, full: seq<Header>, n: nat, goal: nat, answers: seq<Answer>, replies: seq<Reply>)
    requires Linked(net, full) && Served(net, full, n, answers, replies)
    ensures SyncFailures(net, full[..n], 900000 + goal, replies) == Failed(|full|, n, goal, answers)
    decreases |answers|
  {
    if n < goal && answers != [] {
      hide Linked, GoodPrefix;
      SyncRotates(net, full, KnownAfter(|full|, n, answers[0]), goal, answers[1..], replies[1..]);
      if answers[0].Spoiled? {
        BatchFails(net, full, n, goal, answers[0].k, answers[0].junk, replies);
      } else if answers[0].Honest? {
        var batch := NextBatch(full, n);
        assert full[n..n + |batch|] + [] == batch;
        BatchFails(net, full, n, goal, |batch|, [], replies);
      }
    }
  }

  /** A lookup by height: what the client knows afterwards, and so which lookups answer. */
  lemma {:induction false} LookupReaches(net: Net, c: Client, c': Client, full: seq<Header>, n: nat, height: int, peerCount: nat,
                      answers: seq<Answer>, replies: seq<Reply>)
    requires Linked(net, full) && Served(net, full, n, answers, replies) && c.chain == full[..n] && peerCount > 0
    requires Next(net, c, BlockHash(height, peerCount, replies), c') && height > 900000 + n
    ensures n <= KnownAfterAll(|full|, n, answers) <= |full|
    ensures c'.chain == full[..Min(height - 900000, KnownAfterAll(|full|, n, answers))]
    ensures height in HashByHeight(net, 900001, c'.chain) <==> height <= 900000 + KnownAfterAll(|full|, n, answers)
    ensures forall h :: h in HashByHeight(net, 900001, c'.chain) ==>
              900000 < h <= 900000 + |full| && HashByHeight(net, 900001, c'.chain)[h] == net.hashOf(full[h - 900001])
    ensures c'.nextPeerIndex == c.nextPeerIndex + 1 + Failed(|full|, n, height - 900000, answers)
  {
    hide SyncTo, SyncFailures, Linked, Served;
    SyncRotates(net, full, n, height - 900000, answers, replies);
    SyncReaches(net, full, n, height - 900000, answers, replies);
  }

  // ----- one peer of a height round -----

  /** The answers are full batches down to the short one at the tip, with nothing else among
      them. */
  predicate Delivers(total: nat, n: nat, answers: seq<Answer>)
    decreases |answers|
  {
    answers != [] && answers[0].Honest? && (total < n + 2000 || Delivers(total, n + 2000, answers[1..]))
  }

  lemma {:induction false} BatchCounts(net: Net, full: seq<Header>, n: nat, replies: seq<Reply>)
    requires Linked(net, full) && n <= |full| && replies != [] && replies[0] == Headers(NextBatch(full, n))
    ensures PeerHeaders(net, TipHash(net, full[..n]), replies)
         == if |full| < n + 2000 then Some(full[n..])
            else match PeerHeaders(net, TipHash(net, full[..n + 2000]), replies[1..])
                 case None => None
                 case Some(more) => Some(full[n..n + 2000] + more)
  {
    hide Linked, GoodPrefix;
    var batch := NextBatch(full, n);
    assert full[n..n + |batch|] + [] == batch;
    StretchPasses(net, full, n, |batch|, []);
    if |full| >= n + 2000 {
      assert TipHash(net, batch) == TipHash(net, full[..n + 2000]);
    }
  }

  lemma {:induction false} JunkCounts(net: Net, full: seq<Header>, n: nat, k: nat, junk: seq<Header>, replies: seq<Reply>)
    requires Linked(net, full) && n + k <= |full| && Rejected(net, TipHash(net, full[..n + k]), junk)
    requires replies != [] && replies[0] == Headers(full[n..n + k] + junk)
    ensures PeerHeaders(net, TipHash(net, full[..n]), replies) == None
  {
    hide Linked, GoodPrefix;
    StretchPasses(net, full, n, k, junk);
  }

  /** A peer counts with everything it has above the known headers, or, if it times out or
      sends anything that does not pass before its tip, with nothing. */
  lemma {:induction false} PeerCountsExactlyWhenDelivers(net: Net, full: seq<Header>, n: nat, answers: seq<Answer>, replies: seq<Reply>)
    requires Linked(net, full) && Served(net, full, n, answers, replies)
    ensures PeerHeaders(net, TipHash(net, full[..n]), replies)
         == if Delivers(|full|, n, answers) then Some(full[n..]) else None
    decreases |answers|
  {
    if answers != [] && answers[0].Spoiled? {
      JunkCounts(net, full, n, answers[0].k, answers[0].junk, replies);
    } else if answers != [] && answers[0].Honest? {
      hide Linked, GoodPrefix, PeerHeaders;
      BatchCounts(net, full, n, replies);
      if |full| >= n + 2000 {
        PeerCountsExactlyWhenDelivers(net, full, n + 2000, answers[1..], replies[1..]);
        assert full[n..n + 2000] + full[n + 2000..] == full[n..];
      }
    }
  }

  // ----- height rounds -----

  /** The k-th peer a round asks, k < 3: round robin from the client's index. */
  function Asked(peers: seq<seq<Reply>>, next: nat, k: nat): seq<Reply>
    requires peers != []
  {
    peers[(next + k) % |peers|]
  }

  /** The known height is stale or unset. */
  predicate Stale(c: Client, now: int) {
    c.currentHeight <= 0 || now - c.heightCacheTime >= 30
  }

  ghost predicate Fails(net: Net, c: Client, peers: seq<seq<Reply>>, k: nat)
    requires peers != []
  {
    PeerHeaders(net, TipHash(net, c.chain), Asked(peers, c.nextPeerIndex, k)).None?
  }

  ghost predicate Counts(net: Net, c: Client, peers: seq<seq<Reply>>, k: nat, hs: seq<Header>)
    requires peers != []
  {
    PeerHeaders(net, TipHash(net, c.chain), Asked(peers, c.nextPeerIndex, k)) == Some(hs)
  }

  /** The client has taken over these headers at this time. */
  predicate TookOver(c: Client, c': Client, peers: nat, hs: seq<Header>, now: int) {
    && c'.chain == c.chain + hs && c'.currentHeight == 900000 + |c'.chain| && c'.heightCacheTime == now
    && c'.nextPeerIndex == c.nextPeerIndex + if peers < 3 then peers else 3
  }

  /** The peers a round asks are those, up to three of them. */
  lemma QueriedAre(net: Net, c: Client, peers: seq<seq<Reply>>) returns (q: seq<seq<Reply>>)
    requires peers != []
    ensures q == Queried(peers, c.nextPeerIndex)
    ensures |q| == if |peers| < 3 then |peers| else 3
    ensures forall k :: 0 <= k < |q| ==> q[k] == Asked(peers, c.nextPeerIndex, k)
    ensures forall k :: 0 <= k < |q| && Fails(net, c, peers, k) ==> PeerHeaders(net, TipHash(net, c.chain), q[k]) == None
  {
    q := Queried(peers, c.nextPeerIndex);
  }

  lemma {:induction false} NoAnswers(net: Net, tip: Hash, q: seq<seq<Reply>>, want: nat)
    requires forall k :: 0 <= k < |q| ==> PeerHeaders(net, tip, q[k]) == None
    ensures Answers(net, tip, q, want) == []
  {
    if q != [] {
      NoAnswers(net, tip, q[1..], want);
    }
  }

  lemma {:induction false} FirstAnswer(net: Net, tip: Hash, q: seq<seq<Reply>>, want: nat, i: nat)
    requires want > 0 && i < |q| && PeerHeaders(net, tip, q[i]).Some?
    requires forall k :: 0 <= k < i ==> PeerHeaders(net, tip, q[k]) == None
    ensures Answers(net, tip, q, want)
         == [PeerHeaders(net, tip, q[i]).value] + Answers(net, tip, q[i + 1..], want - 1)
  {
    if i > 0 {
      FirstAnswer(net, tip, q[1..], want, i - 1);
      assert q[1..][i..] == q[i + 1..];
    }
  }

  /** A round whose peers all fail changes nothing but the peer index. */
  lemma RoundOfFailures(net: Net, c: Client, now: int, peers: seq<seq<Reply>>, c': Client)
    requires Stale(c, now) && peers != [] && Next(net, c, BlockCount(now, peers), c')
    requires forall k :: 0 <= k < 3 && k < |peers| ==> Fails(net, c, peers, k)
    ensures c' == c.(nextPeerIndex := c.nextPeerIndex + if |peers| < 3 then |peers| else 3)
  {
    var q := QueriedAre(net, c, peers);
    assert forall k :: 0 <= k < |q| ==> Fails(net, c, peers, k);
    NoAnswers(net, TipHash(net, c.chain), q, 2);
  }

  /** If one of the three counts and the others fail, its headers are taken. */
  lemma RoundOfOne(net: Net, c: Client, now: int, peers: seq<seq<Reply>>, c': Client, i: nat, x: seq<Header>)
    requires Stale(c, now) && peers != [] && Next(net, c, BlockCount(now, peers), c')
    requires i < 3 && i < |peers| && Counts(net, c, peers, i, x)
    requires forall k :: 0 <= k < 3 && k < |peers| && k != i ==> Fails(net, c, peers, k)
    ensures TookOver(c, c', |peers|, x, now)
  {
    hide PeerHeaders, Queried;
    var q := QueriedAre(net, c, peers);
    var tip := TipHash(net, c.chain);
    assert forall k :: 0 <= k < |q| && k != i ==> Fails(net, c, peers, k);
    FirstAnswer(net, tip, q, 2, i);
    NoAnswers(net, tip, q[i + 1..], 1);
  }

  /** If two count, whatever the third would say, the longer answer is taken, and of equally
      long ones the later; the third peer is asked only if one of the first two fails. */
  lemma RoundOfTwo(net: Net, c: Client, now: int, peers: seq<seq<Reply>>, c': Client,
                   i: nat, x: seq<Header>, j: nat, y: seq<Header>)
    requires Stale(c, now) && peers != [] && Next(net, c, BlockCount(now, peers), c')
    requires i < j < 3 && j < |peers| && Counts(net, c, peers, i, x) && Counts(net, c, peers, j, y)
    requires forall k :: 0 <= k < j && k != i ==> Fails(net, c, peers, k)
    ensures TookOver(c, c', |peers|, if |y| >= |x| then y else x, now)
  {
    hide PeerHeaders, Queried;
    var q := QueriedAre(net, c, peers);
    var tip := TipHash(net, c.chain);
    assert forall k :: 0 <= k < j && k != i ==> Fails(net, c, peers, k);
    FirstTwoAnswers(net, tip, q, i, j);
    BestOfTwo(x, y);
  }

  lemma {:induction false} FirstTwoAnswers(net: Net, tip: Hash, q: seq<seq<Reply>>, i: nat, j: nat)
    requires i < j < |q| && PeerHeaders(net, tip, q[i]).Some? && PeerHeaders(net, tip, q[j]).Some?
    requires forall k :: 0 <= k < j && k != i ==> PeerHeaders(net, tip, q[k]) == None
    ensures Answers(net, tip, q, 2) == [PeerHeaders(net, tip, q[i]).value, PeerHeaders(net, tip, q[j]).value]
  {
    hide PeerHeaders;
    FirstAnswer(net, tip, q, 2, i);
    var rest := q[i + 1..];
    assert forall k :: 0 <= k < j - i - 1 ==> rest[k] == q[i + 1 + k];
    assert rest[j - i - 1] == q[j];
    FirstAnswer(net, tip, rest, 1, j - i - 1);
  }

  lemma BestOfTwo(x: seq<Header>, y: seq<Header>)
    ensures Best([x, y]) == if |y| >= |x| then y else x
  {
    assert [x, y][..1] == [x];
  }

  /** A known height is reused for thirty seconds, and not longer. */
  lemma HeightIsReused(net: Net, c: Client, now: int, peers: seq<seq<Reply>>, c': Client)
    requires Next(net, c, BlockCount(now, peers), c') && !Stale(c, now)
    ensures c' == c
  {
  }

  /** Round robin: however many peers there are, a third of that many rounds, rounded up,
      asks each of them. */
  lemma EveryPeerIsAsked(peers: seq<seq<Reply>>, next: nat, p: nat) returns (r: nat, k: nat)
    requires p < |peers|
    ensures 3 * r < |peers| && k < 3 && Asked(peers, next + 3 * r, k) == peers[p]
  {
    var n := |peers|;
    var d := (p + n - next % n) % n;
    r, k := d / 3, d % 3;
    assert next + 3 * r + k == next + d;
    SameRemainder(next, p, n);
  }

  lemma SameRemainder(next: nat, p: nat, n: nat)
    requires p < n
    ensures (next + (p + n - next % n) % n) % n == p
  {
    var q, a := next / n, next % n;
    assert next == n * q + a;
    if a <= p {
      ModIs(p + n - a, n, 1, p - a);
      ModIs(next + (p - a), n, q, p);
    } else {
      ModIs(p + n - a, n, 0, p + n - a);
      assert n * (q + 1) == n * q + n;
      ModIs(next + (p + n - a), n, q + 1, p);
    }
  }

  lemma ModIs(a: nat, n: nat, q: nat, r: nat)
    requires r < n && a == n * q + r
    ensures a % n == r
  {
    DivModUnique(a, n, q, r);
  }
}
