/** The Merkle root of a block's transactions, built level by level, against the
    tree it is meant to be. Parametric over the hash type and the pair hash. */
module Merkle {

  datatype Verdict = Accepted | NoTransactions | MerkleMismatch

  /** How many nodes the tree over `n` leaves has at height `d`. */
  function Width(n: nat, d: nat): nat {
    if d == 0 then n else (Width(n, d - 1) + 1) / 2
  }

  /** The height of the root over `n` leaves. */
  function Height(n: nat): nat
    requires n >= 1
  {
    if n == 1 then 0 else 1 + Height((n + 1) / 2)
  }

  /** The tree itself: node `i` at height `d`. A node without a right child is
      paired with itself. */
  function Node<H>(pair: (H, H) -> H, leaves: seq<H>, d: nat, i: nat): H
    requires i < Width(|leaves|, d)
    decreases d, 1
  {
    if d == 0 then leaves[i]
    else pair(Left(pair, leaves, d, i), Right(pair, leaves, d, i))
  }

  function Left<H>(pair: (H, H) -> H, leaves: seq<H>, d: nat, i: nat): H
    requires d > 0 && i < Width(|leaves|, d)
    decreases d, 0
  {
    Node(pair, leaves, d - 1, 2 * i)
  }

  function Right<H>(pair: (H, H) -> H, leaves: seq<H>, d: nat, i: nat): H
    requires d > 0 && i < Width(|leaves|, d)
    decreases d, 0
  {
    var r := if 2 * i + 1 < Width(|leaves|, d - 1) then 2 * i + 1 else 2 * i;
    Node(pair, leaves, d - 1, r)
  }

  function Root<H>(pair: (H, H) -> H, leaves: seq<H>): H
    requires leaves != []
  {
    WidthAtTop(|leaves|);
    Node(pair, leaves, Height(|leaves|), 0)
  }

  lemma {:induction false} WidthStep(n: nat, d: nat)
    ensures Width(n, d + 1) == Width((n + 1) / 2, d)
  {
    if d != 0 {
      WidthStep(n, d - 1);
    }
  }

  lemma {:induction false} WidthAtTop(n: nat)
    requires n >= 1
    ensures Width(n, Height(n)) == 1
  {
    if n != 1 {
      WidthAtTop((n + 1) / 2);
      WidthStep(n, Height((n + 1) / 2));
    }
  }

  /** The level-by-level loop computes the root of the tree and, reading its
      argument only, leaves it unchanged. `zero` is the all-zero hash. */
  method CalcMerkleRoot<H(0)>(txHashes: array<H>, pair: (H, H) -> H, zero: H) returns (root: H)
    ensures root == if txHashes.Length == 0 then zero else Root(pair, txHashes[..])
  {
    if txHashes.Length == 0 {
      return zero;
    }
    ghost var leaves := txHashes[..];
    var hashes := new H[txHashes.Length];
    for i := 0 to txHashes.Length
      invariant forall k :: 0 <= k < i ==> hashes[k] == txHashes[k]
    {
      hashes[i] := txHashes[i];
    }
    ghost var d := 0;
    while hashes.Length > 1
      invariant hashes.Length == Width(|leaves|, d) >= 1
      invariant forall i :: 0 <= i < hashes.Length ==> hashes[i] == Node(pair, leaves, d, i)
      invariant Height(|leaves|) == d + Height(hashes.Length)
      decreases hashes.Length
    {
      hashes := NextLevel(hashes, pair, leaves, d);
      d := d + 1;
    }
    root := hashes[0];
  }

  /** Combine the pairs of one level, writing the last hash twice if their number is odd. */
  method NextLevel<H(0)>(level: array<H>, pair: (H, H) -> H, ghost leaves: seq<H>, ghost d: nat) returns (next: array<H>)
    requires level.Length == Width(|leaves|, d) > 1
    requires forall i :: 0 <= i < level.Length ==> level[i] == Node(pair, leaves, d, i)
    ensures fresh(next) && next.Length == Width(|leaves|, d + 1)
    ensures forall i :: 0 <= i < next.Length ==> next[i] == Node(pair, leaves, d + 1, i)
  {
    var hashes := level;
    if hashes.Length % 2 != 0 {
      hashes := AppendLast(hashes);
    }
    next := new H[hashes.Length / 2];
    for i := 0 to next.Length
      invariant forall k :: 0 <= k < level.Length ==> hashes[k] == Node(pair, leaves, d, k)
      invariant hashes.Length > level.Length ==> hashes[level.Length] == hashes[level.Length - 1]
      invariant forall k :: 0 <= k < i ==> next[k] == Node(pair, leaves, d + 1, k)
    {
      next[i] := pair(hashes[2 * i], hashes[2 * i + 1]);
      assert hashes[2 * i] == Left(pair, leaves, d + 1, i);
      assert hashes[2 * i + 1] == Right(pair, leaves, d + 1, i);
    }
  }

  method AppendLast<H(0)>(a: array<H>) returns (b: array<H>)
    requires a.Length > 0
    ensures fresh(b) && b.Length == a.Length + 1
    ensures forall i :: 0 <= i < a.Length ==> b[i] == a[i]
    ensures b[a.Length] == a[a.Length - 1]
  {
    b := new H[a.Length + 1];
    for i := 0 to a.Length
      invariant forall k :: 0 <= k < i ==> b[k] == a[k]
    {
      b[i] := a[i];
    }
    b[a.Length] := a[a.Length - 1];
  }

  /** A downloaded block is kept only when its header's Merkle root is the root of
      its transactions. */
  method ValidateBlockMerkleRoot<H(0, ==)>(txHashes: array<H>, headerRoot: H, pair: (H, H) -> H, zero: H)
    returns (v: Verdict)
    ensures v == NoTransactions <==> txHashes.Length == 0
    ensures v == Accepted <==> txHashes.Length > 0 && Root(pair, txHashes[..]) == headerRoot
  {
    if txHashes.Length == 0 {
      return NoTransactions;
    }
    var calculated := CalcMerkleRoot(txHashes, pair, zero);
    if calculated != headerRoot {
      return MerkleMismatch;
    }
    return Accepted;
  }

  /** The two trees collide at an inner node: the same hash over different children. */
  ghost predicate CollidesAt<H(!new)>(pair: (H, H) -> H, xs: seq<H>, ys: seq<H>, d: nat, i: nat) {
    && |xs| == |ys| && d > 0 && i < Width(|xs|, d)
    && Node(pair, xs, d, i) == Node(pair, ys, d, i)
    && (Left(pair, xs, d, i), Right(pair, xs, d, i)) != (Left(pair, ys, d, i), Right(pair, ys, d, i))
  }

  ghost predicate LevelsAgree<H(!new)>(pair: (H, H) -> H, xs: seq<H>, ys: seq<H>, d: nat)
    requires |xs| == |ys|
  {
    forall i :: 0 <= i < Width(|xs|, d) ==> Node(pair, xs, d, i) == Node(pair, ys, d, i)
  }

  lemma {:induction false} AgreementGoesDown<H(!new)>(pair: (H, H) -> H, xs: seq<H>, ys: seq<H>, d: nat)
    requires |xs| == |ys| && LevelsAgree(pair, xs, ys, d)
    requires forall e, i :: !CollidesAt(pair, xs, ys, e, i)
    ensures xs == ys
  {
    if d == 0 {
      forall i | 0 <= i < |xs| ensures xs[i] == ys[i] {
        assert Node(pair, xs, 0, i) == Node(pair, ys, 0, i);
      }
    } else {
      var e := d - 1;
      forall i | 0 <= i < Width(|xs|, e)
        ensures Node(pair, xs, e, i) == Node(pair, ys, e, i)
      {
        assert !CollidesAt(pair, xs, ys, d, i / 2);
        assert i == 2 * (i / 2) || i == 2 * (i / 2) + 1;
      }
      AgreementGoesDown(pair, xs, ys, d - 1);
    }
  }

  /** The root commits to the list: two lists of the same length with the same root
      are equal, unless the pair hash collides at a node of these very two trees. */
  lemma RootCommitsToLeaves<H(!new)>(pair: (H, H) -> H, xs: seq<H>, ys: seq<H>)
    requires |xs| == |ys| > 0
    requires Root(pair, xs) == Root(pair, ys)
    ensures xs == ys || exists d, i :: CollidesAt(pair, xs, ys, d, i)
  {
    if forall d, i :: !CollidesAt(pair, xs, ys, d, i) {
      WidthAtTop(|xs|);
      AgreementGoesDown(pair, xs, ys, Height(|xs|));
    }
  }

  lemma {:induction false} DuplicateTailNode<H>(pair: (H, H) -> H, xs: seq<H>, d: nat, i: nat)
    requires |xs| % 2 == 1 && d >= 1
    requires i < Width(|xs|, d)
    ensures Width(|xs| + 1, d) == Width(|xs|, d)
    ensures Node(pair, xs, d, i) == Node(pair, xs + [xs[|xs| - 1]], d, i)
  {
    var ys := xs + [xs[|xs| - 1]];
    if d > 1 {
      DuplicateTailNode(pair, xs, d - 1, 2 * i);
      if 2 * i + 1 < Width(|xs|, d - 1) {
        DuplicateTailNode(pair, xs, d - 1, 2 * i + 1);
      }
    }
  }

  /** Equal length is needed: an odd list of at least three and the same list with its
      last entry written twice always have the same root. */
  lemma OddTailIsAmbiguous<H>(pair: (H, H) -> H, xs: seq<H>)
    requires |xs| % 2 == 1 && |xs| > 1
    ensures Root(pair, xs) == Root(pair, xs + [xs[|xs| - 1]])
  {
    WidthAtTop(|xs|);
    DuplicateTailNode(pair, xs, Height(|xs|), 0);
  }
}
