/** The proof-of-work test applied to every block header: count the leading zero
    bits of a hash stored least significant byte first. */
module ProofOfWork {
  import opened Bits

  /** The least number of leading zero bits a header hash must have. */
  const MIN_LEADING_ZEROS: nat := 60

  type Byte = b: int | 0 <= b < 256

  /** The number a little-endian byte string stands for. */
  function ValueLE(h: seq<Byte>): nat {
    if h == [] then 0 else h[0] + 256 * ValueLE(h[1..])
  }

  /** How many binary digits a number has; zero has none. */
  function BitLength(v: nat): nat {
    if v == 0 then 0 else 1 + BitLength(v / 2)
  }

  /** Leading zero bits of a byte string, by the number it stands for. */
  ghost function LeadingZeros(h: seq<Byte>): int {
    8 * |h| - BitLength(ValueLE(h))
  }

  ghost predicate EnoughWork(h: seq<Byte>) {
    LeadingZeros(h) >= MIN_LEADING_ZEROS
  }

  /** BitLength is pinned down by the two powers of two around the number. */
  lemma {:induction false} BitLengthBetween(v: nat, k: nat)
    requires Pow2(k) <= v < Pow2(k + 1)
    ensures BitLength(v) == k + 1
  {
    if k != 0 {
      BitLengthBetween(v / 2, k - 1);
    }
  }

  lemma {:induction false} BitLengthBounds(v: nat)
    ensures v < Pow2(BitLength(v))
    ensures v > 0 ==> Pow2(BitLength(v) - 1) <= v
  {
    if v > 1 {
      BitLengthBounds(v / 2);
    }
  }

  lemma {:induction false} BitLengthAtMost(v: nat, k: nat)
    ensures BitLength(v) <= k <==> v < Pow2(k)
  {
    BitLengthBounds(v);
    if BitLength(v) <= k {
      Pow2Monotone(BitLength(v), k);
    } else {
      Pow2Monotone(k, BitLength(v) - 1);
    }
  }

  lemma {:induction false} ValueLEAppend(s: seq<Byte>, b: Byte)
    ensures ValueLE(s + [b]) == ValueLE(s) + Pow2(8 * |s|) * b
  {
    if s == [] {
      assert ValueLE([b]) == b + 256 * ValueLE([]);
    } else {
      assert (s + [b])[1..] == s[1..] + [b];
      ValueLEAppend(s[1..], b);
      Pow2Sum(8, 8 * |s[1..]|);
      assert Pow2(8) == 256;
      assert 256 * (Pow2(8 * |s[1..]|) * b) == 256 * Pow2(8 * |s[1..]|) * b;
    }
  }

  lemma {:induction false} ValueLEBound(s: seq<Byte>)
    ensures ValueLE(s) < Pow2(8 * |s|)
  {
    if s != [] {
      ValueLEBound(s[1..]);
      Pow2Sum(8, 8 * |s[1..]|);
      assert Pow2(8) == 256;
    }
  }

  lemma ScaledBetween(p: nat, low: nat, lo: nat, b: nat, hi: nat)
    requires low < p && lo <= b < hi
    ensures p * lo <= low + p * b < p * hi
  {
    MulKeepsOrder(p, lo, b);
    MulKeepsOrder(p, b + 1, hi);
    assert p * (b + 1) == p * b + p;
  }

  /** The first non-zero byte from the top decides the bit length of the whole number. */
  lemma TopByteDecides(s: seq<Byte>, b: Byte, k: nat)
    requires Pow2(k) <= b < Pow2(k + 1)
    ensures BitLength(ValueLE(s + [b])) == 8 * |s| + k + 1
  {
    ValueLEAppend(s, b);
    ValueLEBound(s);
    Pow2Sum(8 * |s|, k);
    Pow2Sum(8 * |s|, k + 1);
    ScaledBetween(Pow2(8 * |s|), ValueLE(s), Pow2(k), b, Pow2(k + 1));
    BitLengthBetween(ValueLE(s + [b]), 8 * |s| + k);
  }

  lemma QuotientOfByte(b: nat, mask: nat)
    requires 0 < mask && b < 2 * mask
    ensures b / mask == if b < mask then 0 else 1
  {
    if b < mask {
      DivModUnique(b, mask, 0, b);
    } else {
      DivModUnique(b, mask, 1, b - mask);
    }
  }

  lemma TopBitClear(b: nat, mask: nat)
    requires 0 < mask && b < 2 * mask && (b / mask) % 2 == 0
    ensures b < mask
  {
    QuotientOfByte(b, mask);
  }

  lemma TopBitSet(b: nat, mask: nat)
    requires 0 < mask && b < 2 * mask && (b / mask) % 2 != 0
    ensures mask <= b
  {
    QuotientOfByte(b, mask);
  }

  /** The two nested loops: whole zero bytes from the most significant end, then a
      one-bit mask walking down the first non-zero byte. */
  method CountLeadingZeros(hash: seq<Byte>) returns (zeros: nat)
    ensures zeros == LeadingZeros(hash)
  {
    zeros := 0;
    var i := |hash| - 1;
    assert hash[..|hash|] == hash;
    while i >= 0
      invariant -1 <= i < |hash|
      invariant zeros == 8 * (|hash| - 1 - i)
      invariant ValueLE(hash) == ValueLE(hash[..i + 1])
      decreases i
    {
      assert hash[..i + 1] == hash[..i] + [hash[i]];
      if hash[i] == 0 {
        zeros := zeros + 8;
        ValueLEAppend(hash[..i], 0);
      } else {
        var mask: int := 0x80;
        ghost var left := 7;
        assert Pow2(7) == 0x80;
        while mask > 0 && (hash[i] / mask) % 2 == 0
          invariant 0 <= left <= 7 && mask == Pow2(left) && hash[i] < 2 * mask
          invariant zeros == 8 * (|hash| - 1 - i) + 7 - left
          decreases mask
        {
          zeros := zeros + 1;
          TopBitClear(hash[i], mask);
          mask := mask / 2;
          left := left - 1;
        }
        TopBitSet(hash[i], mask);
        TopByteDecides(hash[..i], hash[i], left);
        return;
      }
      i := i - 1;
    }
  }

  /** The work test is a threshold: at least `z` leading zeros means a value below
      two to the power of the remaining width. */
  lemma LeadingZerosIsThreshold(h: seq<Byte>, z: nat)
    requires z <= 8 * |h|
    ensures LeadingZeros(h) >= z <==> ValueLE(h) < Pow2(8 * |h| - z)
  {
    BitLengthAtMost(ValueLE(h), 8 * |h| - z);
  }

  /** A 32-byte hash passes exactly when its little-endian value is below 2^196. */
  lemma {:induction false} EnoughWorkIsBelowTarget(h: seq<Byte>)
    requires |h| == 32
    ensures EnoughWork(h) <==> ValueLE(h) < Pow2(196)
  {
    LeadingZerosIsThreshold(h, MIN_LEADING_ZEROS);
  }

  lemma {:induction false} ValueLESplit(h: seq<Byte>, n: nat)
    requires n <= |h|
    ensures ValueLE(h) == ValueLE(h[..n]) + Pow2(8 * n) * ValueLE(h[n..])
    decreases |h|
  {
    if n == |h| {
      assert h[..n] == h;
    } else {
      var m := |h| - 1;
      assert h[..m][..n] == h[..n] && h == h[..m] + [h[m]] && h[n..] == h[..m][n..] + [h[m]];
      ValueLESplit(h[..m], n);
      ValueLEAppend(h[..m], h[m]);
      ValueLEAppend(h[..m][n..], h[m]);
      Pow2Sum(8 * n, 8 * (m - n));
      Distribute(Pow2(8 * n), ValueLE(h[..m][n..]), Pow2(8 * (m - n)), h[m]);
    }
  }

  lemma Distribute(p: nat, v: nat, q: nat, b: nat)
    ensures p * (v + q * b) == p * v + (p * q) * b
  {
  }

  lemma {:induction false} ValueLEZero(h: seq<Byte>)
    ensures ValueLE(h) == 0 <==> forall i :: 0 <= i < |h| ==> h[i] == 0
  {
    if h != [] {
      ValueLEZero(h[1..]);
    }
  }

  lemma SumBelow(p: nat, low: nat, q: nat, high: nat)
    requires low < p && 0 < q
    ensures low + p * high < p * q <==> high < q
  {
    if high < q {
      ScaledBetween(p, low, high, high, q);
    } else {
      MulKeepsOrder(p, q, high);
    }
  }

  /** Byte by byte: the seven most significant bytes are zero and the eighth is below 16. */
  lemma EnoughWorkByBytes(h: seq<Byte>)
    requires |h| == 32
    ensures EnoughWork(h) <==> h[24] < 16 && forall i :: 25 <= i < 32 ==> h[i] == 0
  {
    hide ValueLE, Pow2;
    EnoughWorkIsBelowTarget(h);
    ValueLESplit(h, 24);
    ValueLEBound(h[..24]);
    var tail := h[24..];
    Pow2At4();
    Pow2Sum(192, 4);
    SumBelow(Pow2(192), ValueLE(h[..24]), 16, ValueLE(tail));
    TailBelow(tail);
    assert tail[0] == h[24] && forall i :: 1 <= i < 8 ==> tail[i] == h[24 + i];
    if forall i :: 1 <= i < 8 ==> tail[i] == 0 {
      forall i | 25 <= i < 32 ensures h[i] == 0 {
        assert tail[i - 24] == 0;
      }
    }
  }

  lemma {:induction false} TailBelow(tail: seq<Byte>)
    requires |tail| == 8
    ensures ValueLE(tail) < 16 <==> tail[0] < 16 && forall i :: 1 <= i < 8 ==> tail[i] == 0
  {
    ValueLEZero(tail[1..]);
    assert forall i :: 1 <= i < 8 ==> tail[i] == tail[1..][i - 1];
  }

  lemma Pow2At4()
    ensures Pow2(4) == 16
  {
  }
}
