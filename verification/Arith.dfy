/** Multiplication and division of natural numbers by recursion. They agree with the
    built-in operators; stated this way, facts about them need no non-linear reasoning. */
module Arith {

  function Times(a: nat, b: nat): nat {
    if a == 0 then 0 else Times(a - 1, b) + b
  }

  function Quot(a: nat, m: nat): nat
    requires m > 0
  {
    if a < m then 0 else 1 + Quot(a - m, m)
  }

  function Rem(a: nat, m: nat): (r: nat)
    requires m > 0
    ensures r < m
  {
    if a < m then a else Rem(a - m, m)
  }

  lemma {:induction false} TimesIsProduct(a: nat, b: nat)
    ensures Times(a, b) == a * b
  {
    if a != 0 {
      TimesIsProduct(a - 1, b);
    }
  }

  lemma {:induction false} QuotRemSplit(a: nat, m: nat)
    requires m > 0
    ensures a == Times(Quot(a, m), m) + Rem(a, m)
  {
    if a >= m {
      QuotRemSplit(a - m, m);
    }
  }

  lemma {:induction false} QuotRemUnique(q: nat, r: nat, m: nat)
    requires r < m
    ensures Quot(Times(q, m) + r, m) == q && Rem(Times(q, m) + r, m) == r
  {
    if q != 0 {
      QuotRemUnique(q - 1, r, m);
      assert Times(q, m) + r - m == Times(q - 1, m) + r;
    }
  }

  lemma {:induction false} TimesMonotone(a: nat, b: nat, m: nat)
    requires a <= b
    ensures Times(a, m) <= Times(b, m)
  {
    if a < b {
      TimesMonotone(a, b - 1, m);
    }
  }

  lemma {:induction false} QuotLess(a: nat, m: nat, k: nat)
    requires m > 0 && a < Times(k, m)
    ensures Quot(a, m) < k
  {
    QuotRemSplit(a, m);
    if k <= Quot(a, m) {
      TimesMonotone(k, Quot(a, m), m);
    }
  }

  lemma {:induction false} QuotAtMost(a: nat, m: nat)
    requires m > 0
    ensures Quot(a, m) <= a
  {
    if a >= m {
      QuotAtMost(a - m, m);
    }
  }

  /** The recursive forms are the built-in operators. */
  lemma {:induction false} QuotRemAreDivMod(a: nat, m: nat)
    requires m > 0
    ensures Quot(a, m) == a / m && Rem(a, m) == a % m
    decreases a
  {
    var q, r := a / m, a % m;
    assert a == q * m + r;
    TimesIsProduct(q, m);
    QuotRemUnique(q, r, m);
  }
}
