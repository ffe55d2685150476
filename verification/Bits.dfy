/** Natural numbers as bit strings. The shifts, masks and exclusive or of a 32-bit
    machine, on numbers small enough that no bit is lost. */
module Bits {

  function Pow2(n: nat): (p: nat)
    ensures p >= 1
  {
    if n == 0 then 1 else 2 * Pow2(n - 1)
  }

  /** a << k */
  function Shl(a: nat, k: nat): nat {
    if k == 0 then a else 2 * Shl(a, k - 1)
  }

  /** a >> k */
  function Shr(a: nat, k: nat): nat {
    if k == 0 then a else Shr(a / 2, k - 1)
  }

  /** a & (2^k - 1) */
  function Low(a: nat, k: nat): nat {
    if k == 0 then 0 else 2 * Low(a / 2, k - 1) + a % 2
  }

  /** a ^ b */
  function Xor(a: nat, b: nat): nat {
    if a == 0 then b
    else if b == 0 then a
    else 2 * Xor(a / 2, b / 2) + (a % 2 + b % 2) % 2
  }

  // ----- the operations as arithmetic -----

  lemma DoubleProduct(x: nat, y: nat)
    ensures (2 * x) * y == 2 * (x * y)
  {
  }

  lemma {:induction false} Pow2Sum(a: nat, b: nat)
    ensures Pow2(a + b) == Pow2(a) * Pow2(b)
  {
    if a != 0 {
      Pow2Sum(a - 1, b);
      DoubleProduct(Pow2(a - 1), Pow2(b));
    }
  }

  lemma {:induction false} Pow2Monotone(a: nat, b: nat)
    requires a <= b
    ensures Pow2(a) <= Pow2(b)
  {
    if a < b {
      Pow2Monotone(a, b - 1);
    }
  }

  lemma {:induction false} ShlIsProduct(a: nat, k: nat)
    ensures Shl(a, k) == a * Pow2(k)
  {
    if k != 0 {
      ShlIsProduct(a, k - 1);
    }
  }

  /** Shifting right and masking split a number into quotient and remainder. */
  lemma {:induction false} ShrLowSplit(a: nat, k: nat)
    ensures a == Shl(Shr(a, k), k) + Low(a, k)
    ensures Low(a, k) < Pow2(k)
  {
    if k != 0 {
      ShrLowSplit(a / 2, k - 1);
    }
  }

  lemma {:induction false} ShlLess(a: nat, b: nat, k: nat)
    requires a < b
    ensures Shl(a, k) + Pow2(k) <= Shl(b, k)
  {
    if k != 0 {
      ShlLess(a, b, k - 1);
    }
  }

  /** A number's high and low part are determined by their sum. */
  lemma {:induction false} SplitUnique(h: nat, l: nat, h': nat, l': nat, k: nat)
    requires Shl(h, k) + l == Shl(h', k) + l'
    requires l < Pow2(k) && l' < Pow2(k)
    ensures h == h' && l == l'
  {
    if h < h' {
      ShlLess(h, h', k);
    } else if h' < h {
      ShlLess(h', h, k);
    }
  }

  lemma {:induction false} ShrLowUnique(a: nat, h: nat, l: nat, k: nat)
    requires a == Shl(h, k) + l && l < Pow2(k)
    ensures Shr(a, k) == h && Low(a, k) == l
  {
    ShrLowSplit(a, k);
    SplitUnique(Shr(a, k), Low(a, k), h, l, k);
  }

  lemma {:induction false} LowOfSmall(a: nat, k: nat)
    requires a < Pow2(k)
    ensures Low(a, k) == a && Shr(a, k) == 0
  {
    ShlZero(k);
    ShrLowUnique(a, 0, a, k);
  }

  lemma {:induction false} ShlZero(k: nat)
    ensures Shl(0, k) == 0
  {
    if k != 0 {
      ShlZero(k - 1);
    }
  }

  lemma {:induction false} ShrShr(a: nat, j: nat, k: nat)
    ensures Shr(Shr(a, j), k) == Shr(a, j + k)
  {
    if j != 0 {
      ShrShr(a / 2, j - 1, k);
    }
  }

  lemma MulKeepsOrder(m: nat, x: nat, y: nat)
    requires x <= y
    ensures m * x <= m * y
  {
  }

  lemma DivModUnique(a: nat, m: nat, q: nat, r: nat)
    requires a == m * q + r && r < m
    ensures a / m == q && a % m == r
  {
    var q' := a / m;
    assert a == m * q' + a % m;
    if q' < q {
      SmallerQuotient(m, q', a % m, q, r);
    } else if q < q' {
      SmallerQuotient(m, q, r, q', a % m);
    }
  }

  lemma SmallerQuotient(m: nat, q: nat, r: nat, q': nat, r': nat)
    requires q < q' && r < m
    ensures m * q + r < m * q' + r'
  {
    MulKeepsOrder(m, q + 1, q');
    assert m * (q + 1) == m * q + m;
  }

  // ----- exclusive or -----

  /** The defining equation, also where one side has run out of bits. */
  lemma {:induction false} XorStep(a: nat, b: nat)
    ensures Xor(a, b) % 2 == (a % 2 + b % 2) % 2
    ensures Xor(a, b) / 2 == Xor(a / 2, b / 2)
  {
    if a == 0 || b == 0 {
      return;
    }
    LastBitOff(Xor(a, b), Xor(a / 2, b / 2), (a % 2 + b % 2) % 2);
  }

  lemma LastBitOff(n: nat, half: nat, bit: nat)
    requires n == 2 * half + bit && bit < 2
    ensures n % 2 == bit && n / 2 == half
  {
  }

  lemma {:induction false} XorSame(a: nat)
    ensures Xor(a, a) == 0
  {
    if a != 0 {
      XorSame(a / 2);
    }
  }

  lemma {:induction false} XorComm(a: nat, b: nat)
    ensures Xor(a, b) == Xor(b, a)
  {
    if a != 0 && b != 0 {
      XorComm(a / 2, b / 2);
    }
  }

  lemma SameHalves(x: nat, y: nat)
    requires x / 2 == y / 2 && x % 2 == y % 2
    ensures x == y
  {
  }

  predicate Odd(a: nat) {
    a % 2 == 1
  }

  lemma {:induction false} XorOdd(a: nat, b: nat)
    ensures Odd(Xor(a, b)) <==> Odd(a) != Odd(b)
  {
    XorStep(a, b);
  }

  lemma OddAssoc(ab: bool, bc: bool, a: bool, b: bool, c: bool)
    requires (ab <==> a != b) && (bc <==> b != c)
    ensures (ab != c) <==> (a != bc)
  {
  }

  lemma {:induction false} XorAssocParity(a: nat, b: nat, c: nat)
    ensures Odd(Xor(Xor(a, b), c)) <==> Odd(Xor(a, Xor(b, c)))
  {
    var ab, bc := Xor(a, b), Xor(b, c);
    XorOdd(a, b);
    XorOdd(b, c);
    XorOdd(ab, c);
    XorOdd(a, bc);
    OddAssoc(Odd(ab), Odd(bc), Odd(a), Odd(b), Odd(c));
  }

  lemma {:induction false} XorAssocHalves(a: nat, b: nat, c: nat)
    requires Xor(Xor(a / 2, b / 2), c / 2) == Xor(a / 2, Xor(b / 2, c / 2))
    ensures Xor(Xor(a, b), c) / 2 == Xor(a, Xor(b, c)) / 2
  {
    XorStep(a, b);
    XorStep(b, c);
    XorStep(Xor(a, b), c);
    XorStep(a, Xor(b, c));
  }

  lemma {:induction false} XorAssoc(a: nat, b: nat, c: nat)
    ensures Xor(Xor(a, b), c) == Xor(a, Xor(b, c))
    decreases a + b + c
  {
    if a != 0 && b != 0 && c != 0 {
      XorAssoc(a / 2, b / 2, c / 2);
      XorAssocParity(a, b, c);
      XorAssocHalves(a, b, c);
      SameHalves(Xor(Xor(a, b), c), Xor(a, Xor(b, c)));
    }
  }

  lemma {:induction false} XorSwap(a: nat, b: nat, c: nat, d: nat)
    ensures Xor(Xor(a, b), Xor(c, d)) == Xor(Xor(a, c), Xor(b, d))
  {
    XorAssoc(a, b, Xor(c, d));
    XorAssoc(b, c, d);
    XorComm(b, c);
    XorAssoc(c, b, d);
    XorAssoc(a, c, Xor(b, d));
  }

  lemma {:induction false} XorZeroMeansEqual(a: nat, b: nat)
    requires Xor(a, b) == 0
    ensures a == b
  {
    XorAssoc(a, b, b);
    XorSame(b);
  }

  lemma {:induction false} XorBound(a: nat, b: nat, k: nat)
    requires a < Pow2(k) && b < Pow2(k)
    ensures Xor(a, b) < Pow2(k)
  {
    if k != 0 && a != 0 && b != 0 {
      XorBound(a / 2, b / 2, k - 1);
    }
  }

  lemma {:induction false} XorShr(a: nat, b: nat, k: nat)
    ensures Shr(Xor(a, b), k) == Xor(Shr(a, k), Shr(b, k))
  {
    if k != 0 {
      XorStep(a, b);
      XorShr(a / 2, b / 2, k - 1);
    }
  }

  lemma LowStep(a: nat, k: nat)
    requires k > 0
    ensures Low(a, k) / 2 == Low(a / 2, k - 1) && Low(a, k) % 2 == a % 2
  {
  }

  lemma {:induction false} LowOfNone(a: nat, b: nat)
    ensures Low(a, 0) == 0 && Low(b, 0) == 0 && Low(Xor(a, b), 0) == 0 && Xor(0, 0) == 0
  {
  }

  lemma {:induction false} XorLow(a: nat, b: nat, k: nat)
    ensures Low(Xor(a, b), k) == Xor(Low(a, k), Low(b, k))
  {
    hide Xor, Low;
    if k == 0 {
      LowOfNone(a, b);
    } else {
      XorLow(a / 2, b / 2, k - 1);
      XorStep(a, b);
      XorStep(Low(a, k), Low(b, k));
      LowStep(a, k);
      LowStep(b, k);
      LowStep(Xor(a, b), k);
      SameHalves(Low(Xor(a, b), k), Xor(Low(a, k), Low(b, k)));
    }
  }

  lemma ShlStep(a: nat, k: nat, l: nat)
    requires k > 0
    ensures (Shl(a, k) + l) / 2 == Shl(a, k - 1) + l / 2 && (Shl(a, k) + l) % 2 == l % 2
  {
  }

  lemma {:induction false} XorShl(a: nat, b: nat, k: nat)
    ensures Shl(Xor(a, b), k) == Xor(Shl(a, k), Shl(b, k))
  {
    if k != 0 {
      XorShl(a, b, k - 1);
      XorStep(Shl(a, k), Shl(b, k));
      ShlStep(a, k, 0);
      ShlStep(b, k, 0);
      ShlStep(Xor(a, b), k, 0);
      SameHalves(Shl(Xor(a, b), k), Xor(Shl(a, k), Shl(b, k)));
    }
  }

  lemma {:induction false} XorZero(a: nat)
    ensures Xor(a, 0) == a
  {
  }

  /** Filling the low bits that a left shift cleared is addition. */
  lemma {:induction false} XorFillsLow(h: nat, l: nat, k: nat)
    requires l < Pow2(k)
    ensures Xor(Shl(h, k), l) == Shl(h, k) + l
  {
    hide Xor;
    if k == 0 {
      XorZero(h);
    } else {
      XorFillsLow(h, l / 2, k - 1);
      XorStep(Shl(h, k), l);
      ShlStep(h, k, 0);
      ShlStep(h, k, l);
      SameHalves(Xor(Shl(h, k), l), Shl(h, k) + l);
    }
  }

  lemma {:induction false} ShrZero(k: nat)
    ensures Shr(0, k) == 0
  {
    if k != 0 {
      ShrZero(k - 1);
    }
  }

  /** A number without a set bit is zero. */
  lemma {:induction false} NoBits(a: nat, n: nat)
    requires a < Pow2(n)
    requires forall k: nat :: k < n ==> !Odd(Shr(a, k))
    ensures a == 0
  {
    if n != 0 {
      assert !Odd(Shr(a, 0));
      forall k: nat | k < n - 1 ensures !Odd(Shr(a / 2, k)) {
        assert !Odd(Shr(a, k + 1));
      }
      NoBits(a / 2, n - 1);
    }
  }
}
