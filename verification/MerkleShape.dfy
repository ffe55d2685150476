/** What a Merkle root says when the number of leaves is not fixed: the list it commits to
    is the padded one, read off the tree with a missing right child standing for the left. */
module MerkleShape {
  import opened Bits
  import opened Merkle

  function RightIndex(n: nat, d: nat, i: nat): nat
    requires d > 0
  {
    if 2 * i + 1 < Width(n, d - 1) then 2 * i + 1 else 2 * i
  }

  /** The nodes at height `k` below node `i` at height `d`, left to right; a node without a
      right child lists its left one twice. */
  function Walk<H>(pair: (H, H) -> H, leaves: seq<H>, d: nat, i: nat, k: nat): seq<H>
    requires k <= d && i < Width(|leaves|, d)
    decreases d
  {
    if d == k then [Node(pair, leaves, d, i)]
    else Walk(pair, leaves, d - 1, 2 * i, k) + Walk(pair, leaves, d - 1, RightIndex(|leaves|, d, i), k)
  }

  /** The padded list of all nodes at height `k`. */
  function PaddedLevel<H>(pair: (H, H) -> H, leaves: seq<H>, k: nat): seq<H>
    requires leaves != [] && k <= Height(|leaves|)
  {
    WidthAtTop(|leaves|);
    Walk(pair, leaves, Height(|leaves|), 0, k)
  }

  /** The padded list of leaves. */
  function Padded<H>(pair: (H, H) -> H, leaves: seq<H>): seq<H>
    requires leaves != []
  {
    PaddedLevel(pair, leaves, 0)
  }

  /** Two inner nodes of the two trees have one hash but different children. */
  ghost predicate Collide<H(!new)>(pair: (H, H) -> H, xs: seq<H>, d: nat, i: nat, ys: seq<H>, e: nat, j: nat) {
    && d > 0 && i < Width(|xs|, d) && e > 0 && j < Width(|ys|, e)
    && Node(pair, xs, d, i) == Node(pair, ys, e, j)
    && (Left(pair, xs, d, i), Right(pair, xs, d, i)) != (Left(pair, ys, e, j), Right(pair, ys, e, j))
  }

  ghost predicate NoneCollide<H(!new)>(pair: (H, H) -> H, xs: seq<H>, ys: seq<H>) {
    forall d, i, e, j :: !Collide(pair, xs, d, i, ys, e, j)
  }

  lemma {:induction false} WalkLength<H>(pair: (H, H) -> H, leaves: seq<H>, d: nat, i: nat, k: nat)
    requires k <= d && i < Width(|leaves|, d)
    ensures |Walk(pair, leaves, d, i, k)| == Pow2(d - k)
    decreases d
  {
    if k < d {
      WalkLength(pair, leaves, d - 1, 2 * i, k);
      WalkLength(pair, leaves, d - 1, RightIndex(|leaves|, d, i), k);
    }
  }

  /** Equal walks of two subtrees give equal hashes. */
  lemma {:induction false} SameWalkSameNode<H(!new)>(pair: (H, H) -> H, xs: seq<H>, d: nat, i: nat, k: nat,
                                                     ys: seq<H>, e: nat, j: nat, l: nat)
    requires k <= d && i < Width(|xs|, d) && l <= e && j < Width(|ys|, e) && d - k == e - l
    requires Walk(pair, xs, d, i, k) == Walk(pair, ys, e, j, l)
    ensures Node(pair, xs, d, i) == Node(pair, ys, e, j)
    decreases d
  {
    if k == d {
      assert Walk(pair, xs, d, i, k)[0] == Walk(pair, ys, e, j, l)[0];
    } else {
      var rx, ry := RightIndex(|xs|, d, i), RightIndex(|ys|, e, j);
      WalkLength(pair, xs, d - 1, 2 * i, k);
      WalkLength(pair, ys, e - 1, 2 * j, l);
      SameHalvesOf(Walk(pair, xs, d - 1, 2 * i, k), Walk(pair, xs, d - 1, rx, k),
                   Walk(pair, ys, e - 1, 2 * j, l), Walk(pair, ys, e - 1, ry, l));
      SameWalkSameNode(pair, xs, d - 1, 2 * i, k, ys, e - 1, 2 * j, l);
      SameWalkSameNode(pair, xs, d - 1, rx, k, ys, e - 1, ry, l);
    }
  }

  lemma SameHalvesOf<H>(a: seq<H>, b: seq<H>, c: seq<H>, d: seq<H>)
    requires a + b == c + d && |a| == |c|
    ensures a == c && b == d
  {
    assert a == (a + b)[..|a|] && c == (c + d)[..|a|];
    assert b == (a + b)[|a|..] && d == (c + d)[|a|..];
  }

  /** Equal hashes of two subtrees give equal walks, unless the pair hash collides in them. */
  lemma {:induction false} SameNodeSameWalk<H(!new)>(pair: (H, H) -> H, xs: seq<H>, d: nat, i: nat, k: nat,
                                                     ys: seq<H>, e: nat, j: nat, l: nat)
    requires k <= d && i < Width(|xs|, d) && l <= e && j < Width(|ys|, e) && d - k == e - l
    requires Node(pair, xs, d, i) == Node(pair, ys, e, j) && NoneCollide(pair, xs, ys)
    ensures Walk(pair, xs, d, i, k) == Walk(pair, ys, e, j, l)
    decreases d
  {
    if k < d {
      assert !Collide(pair, xs, d, i, ys, e, j);
      SameNodeSameWalk(pair, xs, d - 1, 2 * i, k, ys, e - 1, 2 * j, l);
      SameNodeSameWalk(pair, xs, d - 1, RightIndex(|xs|, d, i), k, ys, e - 1, RightIndex(|ys|, e, j), l);
    }
  }

  /** Exactly which lists share a root, whatever their lengths. If the trees are equally
      high, the padded leaf lists are equal; if one is higher, its padded list at the height
      difference is the other's padded leaf list. Anything else is a collision of the pair
      hash at a node of these trees. */
  lemma {:induction false} SameRootExactly<H(!new)>(pair: (H, H) -> H, xs: seq<H>, ys: seq<H>)
    requires xs != [] && ys != [] && Height(|ys|) <= Height(|xs|)
    ensures PaddedLevel(pair, xs, Height(|xs|) - Height(|ys|)) == Padded(pair, ys) ==> Root(pair, xs) == Root(pair, ys)
    ensures Root(pair, xs) == Root(pair, ys) ==>
      || PaddedLevel(pair, xs, Height(|xs|) - Height(|ys|)) == Padded(pair, ys)
      || exists d, i, e, j :: Collide(pair, xs, d, i, ys, e, j)
  {
    hide Walk, Node, Height, Width, PaddedLevel;
    if PaddedLevel(pair, xs, Height(|xs|) - Height(|ys|)) == Padded(pair, ys) {
      SamePaddingSameRoot(pair, xs, ys);
    }
    if Root(pair, xs) == Root(pair, ys) && NoneCollide(pair, xs, ys) {
      SameRootSamePadding(pair, xs, ys);
    }
  }

  lemma {:induction false} SamePaddingSameRoot<H(!new)>(pair: (H, H) -> H, xs: seq<H>, ys: seq<H>)
    requires xs != [] && ys != [] && Height(|ys|) <= Height(|xs|)
    requires PaddedLevel(pair, xs, Height(|xs|) - Height(|ys|)) == Padded(pair, ys)
    ensures Root(pair, xs) == Root(pair, ys)
  {
    hide Walk, Node, Height;
    WidthAtTop(|xs|);
    WidthAtTop(|ys|);
    SameWalkSameNode(pair, xs, Height(|xs|), 0, Height(|xs|) - Height(|ys|), ys, Height(|ys|), 0, 0);
  }

  lemma {:induction false} SameRootSamePadding<H(!new)>(pair: (H, H) -> H, xs: seq<H>, ys: seq<H>)
    requires xs != [] && ys != [] && Height(|ys|) <= Height(|xs|)
    requires Root(pair, xs) == Root(pair, ys) && NoneCollide(pair, xs, ys)
    ensures PaddedLevel(pair, xs, Height(|xs|) - Height(|ys|)) == Padded(pair, ys)
  {
    hide Walk, Node, Height, NoneCollide;
    WidthAtTop(|xs|);
    WidthAtTop(|ys|);
    SameNodeSameWalk(pair, xs, Height(|xs|), 0, Height(|xs|) - Height(|ys|), ys, Height(|ys|), 0, 0);
  }

  // ----- full trees -----

  lemma Pow2Next(n: nat)
    ensures Pow2(n + 1) == 2 * Pow2(n)
  {
  }

  lemma {:induction false} FullWidth(n: nat, top: nat, d: nat)
    requires n == Pow2(top) && d <= top
    ensures Width(n, d) == Pow2(top - d)
  {
    if d != 0 {
      FullWidth(n, top, d - 1);
    }
  }

  lemma {:induction false} FullHeight(n: nat, top: nat)
    requires n == Pow2(top)
    ensures Height(n) == top
  {
    if top != 0 {
      FullHeight(n / 2, top - 1);
    }
  }

  lemma {:induction false} ShlOfPow2(a: nat, d: nat)
    ensures Shl(Pow2(a), d) == Pow2(a + d)
  {
    if d != 0 {
      ShlOfPow2(a, d - 1);
    }
  }

  lemma {:induction false} ShlMonotone(a: nat, b: nat, d: nat)
    requires a <= b
    ensures Shl(a, d) <= Shl(b, d)
  {
    if d != 0 {
      ShlMonotone(a, b, d - 1);
    }
  }

  lemma {:induction false} ShlOfDouble(a: nat, d: nat)
    ensures Shl(2 * a, d) == Shl(a, d + 1)
  {
    if d != 0 {
      ShlOfDouble(a, d - 1);
    }
  }

  lemma ShlInside(i: nat, d: nat, top: nat)
    requires d <= top && i < Pow2(top - d)
    ensures Shl(i, d) <= Shl(i + 1, d) <= Pow2(top)
  {
    ShlMonotone(i, i + 1, d);
    ShlMonotone(i + 1, Pow2(top - d), d);
    ShlOfPow2(top - d, d);
  }

  lemma HalfStretches(i: nat, d: nat)
    requires d > 0
    ensures Shl(2 * i, d - 1) == Shl(i, d) && Shl(2 * i + 1 + 1, d - 1) == Shl(i + 1, d)
  {
    ShlOfDouble(i, d - 1);
    ShlOfDouble(i + 1, d - 1);
  }

  lemma {:induction false} ShlByNothing(a: nat)
    ensures Shl(a, 0) == a
  {
  }

  lemma JoinStretches<T>(s: seq<T>, a: nat, b: nat, c: nat)
    requires a <= b <= c <= |s|
    ensures s[a..b] + s[b..c] == s[a..c]
  {
  }

  lemma {:induction false} FullLeaf<H>(pair: (H, H) -> H, ys: seq<H>, i: nat)
    requires i < Width(|ys|, 0)
    ensures i < |ys| && Walk(pair, ys, 0, i, 0) == ys[i..i + 1]
  {
  }

  /** In a full tree the walk of a node is its own stretch of the list. */
  lemma {:induction false} FullWalk<H>(pair: (H, H) -> H, ys: seq<H>, top: nat, d: nat, i: nat)
    requires |ys| == Pow2(top) && d <= top && i < Width(|ys|, d)
    ensures Shl(i, d) <= Shl(i + 1, d) <= |ys|
    ensures Walk(pair, ys, d, i, 0) == ys[Shl(i, d)..Shl(i + 1, d)]
    decreases d
  {
    hide Shl, Node, Width, Pow2;
    FullWidth(|ys|, top, d);
    ShlInside(i, d, top);
    if d == 0 {
      ShlByNothing(i);
      ShlByNothing(i + 1);
      FullLeaf(pair, ys, i);
    } else {
      FullWidth(|ys|, top, d - 1);
      Pow2Next(top - d);
      FullWalk(pair, ys, top, d - 1, 2 * i);
      FullWalk(pair, ys, top, d - 1, 2 * i + 1);
      HalfStretches(i, d);
      JoinStretches(ys, Shl(i, d), Shl(2 * i + 1, d - 1), Shl(i + 1, d));
    }
  }

  lemma {:induction false} FullIsItsPadding<H>(pair: (H, H) -> H, ys: seq<H>, top: nat)
    requires |ys| == Pow2(top)
    ensures Height(|ys|) == top && Padded(pair, ys) == ys
  {
    FullHeight(|ys|, top);
    FullWidth(|ys|, top, top);
    FullWalk(pair, ys, top, top, 0);
    ShlOfPow2(0, top);
    ShlZero(top);
  }

  /** Every list has the root of its padding: unless its length is a power of two, a longer
      list shares its root, such as [1, 2, 3, 4, 5, 6, 5, 6] with [1, 2, 3, 4, 5, 6]. */
  lemma {:induction false} PaddingHasSameRoot<H(!new)>(pair: (H, H) -> H, xs: seq<H>)
    requires xs != []
    ensures |Padded(pair, xs)| == Pow2(Height(|xs|))
    ensures Root(pair, Padded(pair, xs)) == Root(pair, xs)
  {
    var top, ys := Height(|xs|), Padded(pair, xs);
    WidthAtTop(|xs|);
    WalkLength(pair, xs, top, 0, 0);
    FullIsItsPadding(pair, ys, top);
    SameRootExactly(pair, xs, ys);
  }

  // ----- the root, from the halves of the list -----

  /** A hash paired with itself `j` times over, which is what becomes of a short right half. */
  function Raised<H>(pair: (H, H) -> H, h: H, j: nat): H {
    if j == 0 then h else pair(Raised(pair, h, j - 1), Raised(pair, h, j - 1))
  }

  lemma {:induction false} WidthOfSum(n: nat, k: nat, m: nat, d: nat)
    requires n == Pow2(k) && d <= k
    ensures Width(n + m, d) == Pow2(k - d) + Width(m, d)
  {
    if d != 0 {
      WidthOfSum(n, k, m, d - 1);
    }
  }

  lemma {:induction false} HeightOfSum(n: nat, k: nat, m: nat)
    requires n == Pow2(k) && 1 <= m <= n
    ensures Height(n + m) == k + 1
  {
    if k == 0 {
      assert Height(2) == 1 + Height(1);
    } else {
      HeightOfSum(n / 2, k - 1, (m + 1) / 2);
      assert (n + m + 1) / 2 == n / 2 + (m + 1) / 2;
    }
  }

  lemma {:induction false} HeightAtMost(m: nat, k: nat)
    requires 1 <= m <= Pow2(k)
    ensures Height(m) <= k
  {
    if m != 1 {
      HeightAtMost((m + 1) / 2, k - 1);
    }
  }

  lemma ChildIndices(n: nat, d: nat, i: nat)
    requires d > 0 && i < Width(n, d)
    ensures 2 * i < Width(n, d - 1) && RightIndex(n, d, i) < Width(n, d - 1)
  {
  }

  lemma SameChildrenSameNode<H>(pair: (H, H) -> H, a: seq<H>, b: seq<H>, d: nat, i: nat, j: nat)
    requires d > 0 && i < Width(|a|, d) && j < Width(|b|, d)
    requires 2 * i < Width(|a|, d - 1) && RightIndex(|a|, d, i) < Width(|a|, d - 1)
    requires 2 * j < Width(|b|, d - 1) && RightIndex(|b|, d, j) < Width(|b|, d - 1)
    requires Node(pair, a, d - 1, 2 * i) == Node(pair, b, d - 1, 2 * j)
    requires Node(pair, a, d - 1, RightIndex(|a|, d, i)) == Node(pair, b, d - 1, RightIndex(|b|, d, j))
    ensures Node(pair, a, d, i) == Node(pair, b, d, j)
  {
  }

  lemma {:induction false} LeavesOfSum<H>(pair: (H, H) -> H, xs: seq<H>, ys: seq<H>)
    ensures Width(|xs|, 0) == |xs| && Width(|ys|, 0) == |ys| && Width(|xs + ys|, 0) == |xs| + |ys|
    ensures forall i: nat :: i < |xs| ==> Node(pair, xs + ys, 0, i) == Node(pair, xs, 0, i)
    ensures forall i: nat :: i < |ys| ==> Node(pair, xs + ys, 0, |xs| + i) == Node(pair, ys, 0, i)
  {
  }

  /** Left of the middle the tree of the whole list is the tree of the left half. */
  lemma {:induction false} LeftHalf<H>(pair: (H, H) -> H, xs: seq<H>, ys: seq<H>, k: nat, d: nat, i: nat)
    requires |xs| == Pow2(k) && d <= k && i < Pow2(k - d)
    ensures i < Width(|xs|, d) && i < Width(|xs + ys|, d)
    ensures Node(pair, xs + ys, d, i) == Node(pair, xs, d, i)
  {
    hide Node, Width, Pow2;
    WidthOfSum(|xs|, k, |ys|, d);
    FullWidth(|xs|, k, d);
    if d == 0 {
      LeavesOfSum(pair, xs, ys);
    } else {
      Pow2Next(k - d);
      WidthOfSum(|xs|, k, |ys|, d - 1);
      FullWidth(|xs|, k, d - 1);
      LeftHalf(pair, xs, ys, k, d - 1, 2 * i);
      LeftHalf(pair, xs, ys, k, d - 1, 2 * i + 1);
      SameChildrenSameNode(pair, xs + ys, xs, d, i, i);
    }
  }

  /** Right of the middle it is the tree of the right half. */
  lemma {:induction false} RightHalf<H>(pair: (H, H) -> H, xs: seq<H>, ys: seq<H>, k: nat, d: nat, i: nat)
    requires |xs| == Pow2(k) && d <= k && i < Width(|ys|, d)
    ensures Pow2(k - d) + i < Width(|xs + ys|, d)
    ensures Node(pair, xs + ys, d, Pow2(k - d) + i) == Node(pair, ys, d, i)
  {
    hide Node, Width, Pow2;
    WidthOfSum(|xs|, k, |ys|, d);
    if d == 0 {
      LeavesOfSum(pair, xs, ys);
    } else {
      Pow2Next(k - d);
      WidthOfSum(|xs|, k, |ys|, d - 1);
      ChildIndices(|ys|, d, i);
      RightHalf(pair, xs, ys, k, d - 1, 2 * i);
      RightHalf(pair, xs, ys, k, d - 1, RightIndex(|ys|, d, i));
      SameChildrenSameNode(pair, xs + ys, ys, d, Pow2(k - d) + i, i);
    }
  }

  /** Above its root a tree goes on by pairing the root with itself. */
  lemma {:induction false} AboveRoot<H>(pair: (H, H) -> H, ys: seq<H>, j: nat)
    requires ys != []
    ensures Width(|ys|, Height(|ys|) + j) == 1
    ensures Node(pair, ys, Height(|ys|) + j, 0) == Raised(pair, Root(pair, ys), j)
  {
    WidthAtTop(|ys|);
    if j != 0 {
      AboveRoot(pair, ys, j - 1);
    }
  }

  lemma RootOfOne<H>(pair: (H, H) -> H, x: H)
    ensures Root(pair, [x]) == x
  {
  }

  /** The root as a recursion over the list: split off the largest power of two below its
      length; the root pairs the left root, in this order, with the right one, raised to
      the same height. With RootOfOne this fixes the root of every list. */
  lemma {:induction false} RootOfHalves<H>(pair: (H, H) -> H, xs: seq<H>, ys: seq<H>, k: nat)
    requires |xs| == Pow2(k) && 1 <= |ys| <= |xs|
    ensures Height(|ys|) <= k
    ensures Root(pair, xs + ys) == pair(Root(pair, xs), Raised(pair, Root(pair, ys), k - Height(|ys|)))
  {
    hide Raised;
    HeightOfSum(|xs|, k, |ys|);
    HeightAtMost(|ys|, k);
    FullHeight(|xs|, k);
    WidthOfSum(|xs|, k, |ys|, k);
    AboveRoot(pair, ys, k - Height(|ys|));
    LeftHalf(pair, xs, ys, k, k, 0);
    RightHalf(pair, xs, ys, k, k, 0);
    WidthAtTop(|xs + ys|);
    assert Root(pair, xs + ys) == Node(pair, xs + ys, k + 1, 0);
  }

  /** Two transactions: the first hash goes in first. */
  lemma RootOfTwo<H>(pair: (H, H) -> H, a: H, b: H)
    ensures Root(pair, [a, b]) == pair(a, b)
  {
    RootOfHalves(pair, [a], [b], 0);
    assert [a] + [b] == [a, b];
  }
}
