/** Cutting a sequence at the last occurrence of a separator. */
module Separator {

  lemma LaterIsInTail<T>(h: seq<T>, c: T, x: seq<T>, k: int)
    ensures |h| < k < |h| + 1 + |x| ==> (h + [c] + x)[k] == x[k - |h| - 1]
  {
  }

  lemma HeadIsNotLonger<T>(h: seq<T>, g: seq<T>, c: T, x: seq<T>, y: seq<T>)
    requires h + [c] + x == g + [c] + y && c !in x
    ensures |g| <= |h|
  {
    assert (g + [c] + y)[|g|] == c;
    LaterIsInTail(h, c, x, |g|);
  }

  /** If the separator is in neither tail, heads and tails are determined. */
  lemma LastSeparatorSplits<T>(h: seq<T>, g: seq<T>, c: T, x: seq<T>, y: seq<T>)
    requires h + [c] + x == g + [c] + y && c !in x && c !in y
    ensures h == g && x == y
  {
    HeadIsNotLonger(h, g, c, x, y);
    HeadIsNotLonger(g, h, c, y, x);
    var s := h + [c] + x;
    assert h == s[..|h|] == g && x == s[|h| + 1..] == y;
  }
}
