/** The order that gives every valid transaction of a block its position: digit sum of
    the transaction id, then the id digit by digit, both highest first. */
module TxOrder {
  import opened SelfTransfer
  import opened StringOrder

  // ----- transaction ids -----

  predicate IsHex(c: char) {
    '0' <= c <= '9' || 'a' <= c <= 'f'
  }

  function HexCharToInt(c: char): (v: nat)
    ensures v < 16
  {
    if '0' <= c <= '9' then (c - '0') as int
    else if 'a' <= c <= 'f' then (c - 'a') as int + 10
    else 0
  }

  /** A transaction id as the Bitcoin library prints it. */
  predicate IsTxid(s: string) {
    |s| == 64 && forall i :: 0 <= i < |s| ==> IsHex(s[i])
  }

  function DigitSum(s: string): nat {
    if s == "" then 0 else DigitSum(s[..|s| - 1]) + HexCharToInt(LowerChar(s[|s| - 1]))
  }

  function HexValue(s: string): nat {
    if s == "" then 0 else 16 * HexValue(s[..|s| - 1]) + HexCharToInt(LowerChar(s[|s| - 1]))
  }

  /** The digit-sum loop. */
  method TxidDigitSum(txid: string) returns (sum: nat)
    ensures sum == DigitSum(txid)
  {
    sum := 0;
    var lower := ToLower(txid);
    for i := 0 to |lower|
      invariant sum == DigitSum(txid[..i])
    {
      assert txid[..i + 1][..i] == txid[..i];
      var c := lower[i];
      if '0' <= c <= '9' {
        sum := sum + (c - '0') as int;
      } else if 'a' <= c <= 'f' {
        sum := sum + ((c - 'a') as int + 10);
      }
    }
    assert txid[..|txid|] == txid;
  }

  /** How many leading digits two ids share. */
  function Common(a: string, b: string): (n: nat)
    ensures n <= |a| && n <= |b|
  {
    if a == "" || b == "" || HexCharToInt(LowerChar(a[0])) != HexCharToInt(LowerChar(b[0])) then 0
    else 1 + Common(a[1..], b[1..])
  }

  function Compared(a: string, b: string): int {
    var n := Common(a, b);
    if n == |a| || n == |b| then |a| - |b|
    else HexCharToInt(LowerChar(a[n])) - HexCharToInt(LowerChar(b[n]))
  }

  /** The digit-by-digit comparison loop. */
  method CompareTxidsByDigit(a: string, b: string) returns (result: int)
    ensures result == Compared(a, b)
  {
    var aLower, bLower := ToLower(a), ToLower(b);
    var minLen := |aLower|;
    if |bLower| < minLen {
      minLen := |bLower|;
    }
    assert a[0..] == a && b[0..] == b;
    for i := 0 to minLen
      invariant Common(a, b) == i + Common(a[i..], b[i..])
    {
      assert a[i..][0] == a[i] && b[i..][0] == b[i];
      assert a[i..][1..] == a[i + 1..] && b[i..][1..] == b[i + 1..];
      var aVal: int, bVal: int := HexCharToInt(aLower[i]), HexCharToInt(bLower[i]);
      if aVal != bVal {
        return aVal - bVal;
      }
    }
    result := |a| - |b|;
  }

  // ----- the comparison is by numeric value -----

  lemma {:induction false} CommonMeans(a: string, b: string)
    ensures forall i :: 0 <= i < Common(a, b) ==> HexCharToInt(LowerChar(a[i])) == HexCharToInt(LowerChar(b[i]))
    ensures Common(a, b) < |a| && Common(a, b) < |b| ==>
      HexCharToInt(LowerChar(a[Common(a, b)])) != HexCharToInt(LowerChar(b[Common(a, b)]))
  {
    if a != "" && b != "" {
      CommonMeans(a[1..], b[1..]);
    }
  }

  lemma {:induction false} SameDigitsSameValue(a: string, b: string)
    requires |a| == |b|
    requires forall i :: 0 <= i < |a| ==> HexCharToInt(LowerChar(a[i])) == HexCharToInt(LowerChar(b[i]))
    ensures HexValue(a) == HexValue(b) && DigitSum(a) == DigitSum(b)
  {
    if a != "" {
      SameDigitsSameValue(a[..|a| - 1], b[..|b| - 1]);
    }
  }

  lemma {:induction false} StaysHigher(a: string, b: string, n: nat)
    requires |a| == |b| && n <= |a| && HexValue(a[..n]) > HexValue(b[..n])
    ensures HexValue(a) > HexValue(b)
    decreases |a| - n
  {
    if n == |a| {
      assert a[..n] == a && b[..n] == b;
    } else {
      assert a[..n + 1][..n] == a[..n] && b[..n + 1][..n] == b[..n];
      StaysHigher(a, b, n + 1);
    }
  }

  lemma {:induction false} HigherDigitWins(a: string, b: string, n: nat)
    requires |a| == |b| && n < |a|
    requires HexValue(a[..n]) == HexValue(b[..n])
    requires HexCharToInt(LowerChar(a[n])) > HexCharToInt(LowerChar(b[n]))
    ensures HexValue(a) > HexValue(b)
  {
    assert a[..n + 1][..n] == a[..n] && b[..n + 1][..n] == b[..n];
    StaysHigher(a, b, n + 1);
  }

  /** On ids of equal length, comparing digit by digit is comparing the numbers. */
  lemma {:induction false} ComparedIsByValue(a: string, b: string)
    requires |a| == |b|
    ensures Compared(a, b) > 0 <==> HexValue(a) > HexValue(b)
    ensures Compared(a, b) == 0 <==> HexValue(a) == HexValue(b)
  {
    var n := Common(a, b);
    CommonMeans(a, b);
    SameDigitsSameValue(a[..n], b[..n]);
    if n == |a| {
      assert a[..n] == a && b[..n] == b;
    } else if Compared(a, b) > 0 {
      HigherDigitWins(a, b, n);
    } else {
      HigherDigitWins(b, a, n);
    }
  }

  lemma {:induction false} HexCharInjective(c: char, d: char)
    requires IsHex(c) && IsHex(d) && HexCharToInt(c) == HexCharToInt(d)
    ensures c == d
  {
    if '0' <= c <= '9' {
      assert '0' <= d <= '9';
    }
  }

  lemma SameLastDigit(c: char, d: char, x: nat, y: nat)
    requires IsHex(c) && IsHex(d)
    requires 16 * x + HexCharToInt(LowerChar(c)) == 16 * y + HexCharToInt(LowerChar(d))
    ensures x == y && c == d
  {
    HexCharInjective(c, d);
  }

  /** Different transaction ids are different numbers. */
  lemma {:induction false} HexValueInjective(a: string, b: string)
    requires |a| == |b|
    requires (forall i :: 0 <= i < |a| ==> IsHex(a[i])) && (forall i :: 0 <= i < |b| ==> IsHex(b[i]))
    requires HexValue(a) == HexValue(b)
    ensures a == b
  {
    if a != "" {
      hide IsHex, HexCharToInt, LowerChar;
      var n := |a| - 1;
      SameLastDigit(a[n], b[n], HexValue(a[..n]), HexValue(b[..n]));
      HexValueInjective(a[..n], b[..n]);
      assert a == a[..n] + [a[n]] && b == b[..n] + [b[n]];
    }
  }

  // ----- what the digits are worth -----

  /** The sixteen digits have sixteen values in the order of their characters. */
  lemma HexCharsInOrder(c: char, d: char)
    requires IsHex(c) && IsHex(d)
    ensures c < d <==> HexCharToInt(LowerChar(c)) < HexCharToInt(LowerChar(d))
  {
  }

  /** Comparing two ids of one length digit by digit is comparing their texts. */
  lemma {:induction false} ComparedIsTextOrder(a: string, b: string)
    requires |a| == |b|
    requires (forall i :: 0 <= i < |a| ==> IsHex(a[i])) && (forall i :: 0 <= i < |b| ==> IsHex(b[i]))
    ensures Compared(a, b) > 0 <==> Less(b, a)
  {
    if a != "" {
      HexCharsInOrder(a[0], b[0]);
      HexCharsInOrder(b[0], a[0]);
      ComparedIsTextOrder(a[1..], b[1..]);
      assert Common(a, b) > 0 ==> Compared(a, b) == Compared(a[1..], b[1..]);
    }
  }

  lemma {:induction false} DigitSumOfSum(a: string, b: string)
    ensures DigitSum(a + b) == DigitSum(a) + DigitSum(b)
  {
    if b == "" {
      assert a + b == a;
    } else {
      var n := |b| - 1;
      DigitSumOfSum(a, b[..n]);
      assert (a + b)[..|a + b| - 1] == a + b[..n];
    }
  }

  lemma DigitSumOfOne(c: char)
    ensures DigitSum([c]) == HexCharToInt(LowerChar(c))
  {
    assert [c][..0] == "";
  }

  lemma DigitSumSplit(s: string, i: nat, c: char)
    requires i < |s|
    ensures DigitSum(s[i := c]) == DigitSum(s[..i]) + HexCharToInt(LowerChar(c)) + DigitSum(s[i + 1..])
  {
    assert s[i := c] == s[..i] + [c] + s[i + 1..];
    DigitSumOfOne(c);
    DigitSumOfSum(s[..i], [c]);
    DigitSumOfSum(s[..i] + [c], s[i + 1..]);
  }

  /** Raising one digit raises the sum; exchanging two digits keeps it; a digit '0' adds
      nothing and an 'f' fifteen. */
  lemma DigitSumFollowsDigits(s: string, i: nat, c: char, d: char)
    requires i < |s| && IsHex(c) && IsHex(d)
    ensures c < d <==> DigitSum(s[i := c]) < DigitSum(s[i := d])
    ensures DigitSum(s[i := '0']) + 15 == DigitSum(s[i := 'f'])
    ensures DigitSum(s + [c]) == DigitSum([c] + s)
    ensures DigitSum("") == 0 && DigitSum(s + "0") == DigitSum(s)
  {
    DigitSumSplit(s, i, c);
    DigitSumSplit(s, i, d);
    DigitSumSplit(s, i, '0');
    DigitSumSplit(s, i, 'f');
    HexCharsInOrder(c, d);
    DigitSumOfSum(s, [c]);
    DigitSumOfSum([c], s);
    DigitSumOfSum(s, "0");
    DigitSumOfOne('0');
  }

  /** Upper case makes no difference, and other characters count nothing. */
  lemma {:induction false} DigitSumIgnoresCase(s: string)
    ensures DigitSum(ToLower(s)) == DigitSum(s)
  {
    if s != "" {
      var n := |s| - 1;
      DigitSumIgnoresCase(s[..n]);
      assert ToLower(s)[..n] == ToLower(s[..n]);
    }
  }

  // ----- positions -----

  /** A valid transaction with the digit sum it is ordered by. */
  datatype ValidTx = ValidTx(txid: string, address: string, sum: nat)

  ghost predicate WellFormed(x: ValidTx) {
    IsTxid(x.txid) && x.sum == DigitSum(x.txid)
  }

  /** The comparator given to the sort. */
  predicate Before(x: ValidTx, y: ValidTx) {
    if x.sum != y.sum then x.sum > y.sum else Compared(x.txid, y.txid) > 0
  }

  method ComesBefore(x: ValidTx, y: ValidTx) returns (before: bool)
    ensures before == Before(x, y)
  {
    if x.sum != y.sum {
      return x.sum > y.sum;
    }
    var cmp := CompareTxidsByDigit(x.txid, y.txid);
    return cmp > 0;
  }

  /** On well-formed entries the comparator is: digit sum, then numeric value, descending. */
  lemma BeforeIsByRank(x: ValidTx, y: ValidTx)
    requires WellFormed(x) && WellFormed(y)
    ensures Before(x, y)
       <==> DigitSum(x.txid) > DigitSum(y.txid)
            || (DigitSum(x.txid) == DigitSum(y.txid) && HexValue(x.txid) > HexValue(y.txid))
  {
    ComparedIsByValue(x.txid, y.txid);
  }

  /** In other words: the greater digit sum first, and of equal ones the greater text. */
  lemma BeforeIsBySumThenText(x: ValidTx, y: ValidTx)
    requires WellFormed(x) && WellFormed(y)
    ensures Before(x, y)
       <==> DigitSum(x.txid) > DigitSum(y.txid) || (DigitSum(x.txid) == DigitSum(y.txid) && Less(y.txid, x.txid))
  {
    ComparedIsTextOrder(x.txid, y.txid);
  }

  /** The comparator is a strict total order on well-formed entries with distinct ids. */
  lemma BeforeIsStrictTotalOrder(x: ValidTx, y: ValidTx, z: ValidTx)
    requires WellFormed(x) && WellFormed(y) && WellFormed(z)
    ensures !Before(x, x)
    ensures Before(x, y) && Before(y, z) ==> Before(x, z)
    ensures x.txid != y.txid ==> Before(x, y) != Before(y, x)
    ensures x.txid == y.txid ==> !Before(x, y)
  {
    BeforeIsByRank(x, x);
    BeforeIsByRank(x, y);
    BeforeIsByRank(y, x);
    BeforeIsByRank(y, z);
    BeforeIsByRank(x, z);
    if HexValue(x.txid) == HexValue(y.txid) {
      HexValueInjective(x.txid, y.txid);
    }
  }

  /** No later entry belongs before an earlier one. */
  ghost predicate Sorted(xs: seq<ValidTx>) {
    forall i, j :: 0 <= i < j < |xs| ==> !Before(xs[j], xs[i])
  }

  ghost predicate Entries(xs: seq<ValidTx>) {
    && (forall i :: 0 <= i < |xs| ==> WellFormed(xs[i]))
    && (forall i, j :: 0 <= i < j < |xs| ==> xs[i].txid != xs[j].txid)
  }

  lemma NotBeforeTransitive(x: ValidTx, y: ValidTx, z: ValidTx)
    requires WellFormed(x) && WellFormed(y) && WellFormed(z)
    requires !Before(y, x) && !Before(z, y)
    ensures !Before(z, x)
  {
    BeforeIsByRank(y, x);
    BeforeIsByRank(z, y);
    BeforeIsByRank(z, x);
  }

  lemma {:induction false} SortedFirstEqual(xs: seq<ValidTx>, ys: seq<ValidTx>)
    requires Entries(xs) && Entries(ys) && Sorted(xs) && Sorted(ys)
    requires multiset(xs) == multiset(ys) && xs != []
    ensures ys != [] && xs[0] == ys[0]
  {
    assert xs[0] in multiset(ys);
    assert ys[0] in multiset(xs);
    var i :| 0 <= i < |ys| && ys[i] == xs[0];
    var j :| 0 <= j < |xs| && xs[j] == ys[0];
    if i != 0 && j != 0 {
      assert !Before(ys[i], ys[0]) && !Before(xs[j], xs[0]);
      BeforeIsStrictTotalOrder(xs[0], ys[0], ys[0]);
    }
  }

  lemma TailKeeps(xs: seq<ValidTx>)
    requires xs != [] && Entries(xs) && Sorted(xs)
    ensures Entries(xs[1..]) && Sorted(xs[1..])
    ensures multiset(xs[1..]) == multiset(xs) - multiset{xs[0]}
  {
    assert xs == [xs[0]] + xs[1..];
  }

  /** Positions are canonical: any two sorted arrangements of the same entries are equal,
      so the sorting algorithm and the order it was given do not matter. */
  lemma {:induction false} SortedArrangementUnique(xs: seq<ValidTx>, ys: seq<ValidTx>)
    requires Entries(xs) && Entries(ys) && Sorted(xs) && Sorted(ys)
    requires multiset(xs) == multiset(ys)
    ensures xs == ys
  {
    if xs == [] {
      assert |multiset(ys)| == 0;
    } else {
      SortedFirstEqual(xs, ys);
      TailKeeps(xs);
      TailKeeps(ys);
      SortedArrangementUnique(xs[1..], ys[1..]);
      assert xs == [xs[0]] + xs[1..] && ys == [ys[0]] + ys[1..];
    }
  }

  // ----- the in-place sort -----

  /** Sorting a slice in place; like the library sort on short slices, by insertion. */
  method SortSlice(a: array<ValidTx>)
    requires forall i :: 0 <= i < a.Length ==> WellFormed(a[i])
    modifies a
    ensures Sorted(a[..])
    ensures multiset(a[..]) == multiset(old(a[..]))
  {
    for i := 0 to a.Length
      invariant Sorted(a[..i])
      invariant forall k :: 0 <= k < a.Length ==> WellFormed(a[k])
      invariant multiset(a[..]) == multiset(old(a[..]))
    {
      InsertLast(a, i);
    }
    assert a[..a.Length] == a[..];
  }

  method SwapDown(a: array<ValidTx>, j: nat)
    requires 0 < j < a.Length
    modifies a
    ensures a[j] == old(a[j - 1]) && a[j - 1] == old(a[j])
    ensures forall k :: 0 <= k < a.Length && k != j && k != j - 1 ==> a[k] == old(a[k])
    ensures multiset(a[..]) == multiset(old(a[..]))
  {
    a[j], a[j - 1] := a[j - 1], a[j];
  }

  /** The inner loop: swap an entry down while it belongs before its left neighbour. */
  method InsertLast(a: array<ValidTx>, i: nat)
    requires i < a.Length && Sorted(a[..i])
    requires forall k :: 0 <= k < a.Length ==> WellFormed(a[k])
    modifies a
    ensures Sorted(a[..i + 1])
    ensures forall k :: 0 <= k < a.Length ==> WellFormed(a[k])
    ensures multiset(a[..]) == multiset(old(a[..]))
  {
    var j := i;
    assert forall p, q :: 0 <= p < q < i ==> a[..i][p] == a[p] && a[..i][q] == a[q];
    while j > 0
      invariant 0 <= j <= i
      invariant forall k :: 0 <= k < a.Length ==> WellFormed(a[k])
      invariant multiset(a[..]) == multiset(old(a[..]))
      invariant forall p, q :: 0 <= p < q <= i && p != j && q != j ==> !Before(a[q], a[p])
      invariant forall q :: j < q <= i ==> !Before(a[q], a[j])
    {
      var before := ComesBefore(a[j], a[j - 1]);
      if !before {
        break;
      }
      BeforeIsStrictTotalOrder(a[j], a[j - 1], a[j - 1]);
      SwapDown(a, j);
      j := j - 1;
    }
    forall p | 0 <= p < j ensures !Before(a[j], a[p]) {
      if p < j - 1 {
        NotBeforeTransitive(a[p], a[j - 1], a[j]);
      }
    }
  }
}
