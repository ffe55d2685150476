/** 64-bit integers: wrap-around, decimal printing and decimal parsing. */
module Int64 {
  import opened Wrappers

  const TWO_64: int := 0x1_0000_0000_0000_0000
  const MAX_INT64: int := 0x7fff_ffff_ffff_ffff
  const MIN_INT64: int := -0x8000_0000_0000_0000

  predicate InInt64(x: int) {
    MIN_INT64 <= x <= MAX_INT64
  }

  /** Two's complement wrap-around: whole turns are dropped. */
  function Wrap64(x: int): (w: int)
    ensures InInt64(w)
    ensures InInt64(x) ==> w == x
    decreases if x > MAX_INT64 then x - MAX_INT64 else if x < MIN_INT64 then MIN_INT64 - x else 0
  {
    if x > MAX_INT64 then Wrap64(x - TWO_64)
    else if x < MIN_INT64 then Wrap64(x + TWO_64)
    else x
  }

  lemma {:induction false} WrapTurns(x: int) returns (k: int)
    ensures x == Wrap64(x) + k * TWO_64
    decreases if x > MAX_INT64 then x - MAX_INT64 else if x < MIN_INT64 then MIN_INT64 - x else 0
  {
    if x > MAX_INT64 {
      k := WrapTurns(x - TWO_64);
      k := k + 1;
    } else if x < MIN_INT64 {
      k := WrapTurns(x + TWO_64);
      k := k - 1;
    } else {
      k := 0;
    }
  }

  lemma WrapIgnoresTurns(x: int, k: int)
    ensures Wrap64(x + k * TWO_64) == Wrap64(x)
  {
    var i := WrapTurns(x);
    var j := WrapTurns(x + k * TWO_64);
    assert Wrap64(x + k * TWO_64) - Wrap64(x) == (i + k - j) * TWO_64;
  }

  /** Wrapping early inside a multiply-and-add does not change the wrapped result. */
  lemma WrapInside(x: int, m: int, c: int)
    ensures Wrap64(Wrap64(x) * m + c) == Wrap64(x * m + c)
  {
    var k := WrapTurns(x);
    assert x * m + c == (Wrap64(x) * m + c) + (k * m) * TWO_64 by {
      assert x * m == Wrap64(x) * m + (k * TWO_64) * m;
      assert (k * TWO_64) * m == (k * m) * TWO_64;
    }
    WrapIgnoresTurns(Wrap64(x) * m + c, k * m);
  }

  // ----- decimal -----

  predicate IsDigit(c: char) {
    '0' <= c <= '9'
  }

  predicate AllDigits(s: string) {
    forall i :: 0 <= i < |s| ==> IsDigit(s[i])
  }

  function Digit(d: nat): char
    requires d < 10
  {
    '0' + d as char
  }

  function DigitValue(c: char): nat
    requires IsDigit(c)
  {
    (c - '0') as int
  }

  /** %d of a non-negative number. */
  function Decimal(n: nat): (s: string)
    ensures |s| >= 1 && AllDigits(s)
  {
    if n < 10 then [Digit(n)] else Decimal(n / 10) + [Digit(n % 10)]
  }

  /** %d of any number. */
  function FormatInt(n: int): string {
    if n < 0 then "-" + Decimal(-n) else Decimal(n)
  }

  function DigitsValue(s: string): nat
    requires AllDigits(s)
  {
    if s == "" then 0 else 10 * DigitsValue(s[..|s| - 1]) + DigitValue(s[|s| - 1])
  }

  /** strconv.ParseInt(s, 10, 64) and strconv.Atoi: an optional sign, at least one digit,
      and a value in range. */
  function ParseInt(s: string): Option<int> {
    var signed := s != "" && (s[0] == '+' || s[0] == '-');
    var digits := if signed then s[1..] else s;
    if digits == "" || !AllDigits(digits) then None
    else
      var d: int := DigitsValue(digits);
      var v: int := if signed && s[0] == '-' then -d else d;
      if InInt64(v) then Some(v) else None
  }

  lemma {:induction false} DecimalValue(n: nat)
    ensures DigitsValue(Decimal(n)) == n
  {
    if n >= 10 {
      DecimalValue(n / 10);
      var s := Decimal(n);
      assert s[..|s| - 1] == Decimal(n / 10);
    } else {
      assert Decimal(n)[..0] == "";
    }
  }

  /** Printing and parsing back gives the number, for the whole 64-bit range. */
  lemma ParseOfFormat(n: int)
    requires InInt64(n)
    ensures ParseInt(FormatInt(n)) == Some(n)
  {
    var m: nat := if n < 0 then -n else n;
    DecimalValue(m);
    assert IsDigit(Decimal(m)[0]);
    if n < 0 {
      assert FormatInt(n)[1..] == Decimal(m);
    }
  }

  lemma {:induction false} LeadingDigit(n: nat)
    ensures n > 0 ==> Decimal(n)[0] != '0'
  {
    if n >= 10 {
      LeadingDigit(n / 10);
    }
  }

  lemma {:induction false} ValueOfLeading(s: string)
    requires AllDigits(s) && s != "" && s[0] != '0'
    ensures DigitsValue(s) > 0
  {
    if |s| > 1 {
      ValueOfLeading(s[..|s| - 1]);
    }
  }

  /** A digit string is the printed form of its value exactly when it is "0" or has no
      leading zero. */
  lemma {:induction false} CanonicalDigits(s: string)
    requires AllDigits(s) && s != ""
    ensures Decimal(DigitsValue(s)) == s <==> s == "0" || s[0] != '0'
  {
    if s[0] != '0' {
      NoLeadingZero(s);
    } else if s != "0" {
      if DigitsValue(s) > 0 {
        LeadingDigit(DigitsValue(s));
      }
    }
  }

  lemma {:induction false} NoLeadingZero(s: string)
    requires AllDigits(s) && s != "" && s[0] != '0'
    ensures Decimal(DigitsValue(s)) == s
  {
    var n := |s| - 1;
    if n == 0 {
      assert s[..0] == "";
      assert s == [s[0]];
    } else {
      NoLeadingZero(s[..n]);
      ValueOfLeading(s[..n]);
      assert s == s[..n] + [s[n]];
      assert DigitsValue(s) / 10 == DigitsValue(s[..n]);
    }
  }
}
