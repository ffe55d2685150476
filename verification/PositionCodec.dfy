/** Transaction positions as lowercase letters, in bijective base 26. */
module PositionCodec {
  import opened Int64
  import opened StringOrder
  import opened Wrappers

  predicate IsLetter(c: char) {
    'a' <= c <= 'z'
  }

  predicate AllLetters(s: string) {
    forall i :: 0 <= i < |s| ==> IsLetter(s[i])
  }

  function Letter(d: nat): char
    requires d < 26
  {
    'a' + d as char
  }

  /** 1 is a, 26 is z, 27 is aa. */
  function Letters(n: nat): (s: string)
    ensures AllLetters(s) && (s == "" <==> n == 0)
  {
    if n == 0 then "" else Letters((n - 1) / 26) + [Letter((n - 1) % 26)]
  }

  function LetterValue(c: char): nat
    requires IsLetter(c)
  {
    (c - 'a') as int + 1
  }

  /** The unbounded number a letter string stands for. */
  function LettersValue(s: string): nat
    requires AllLetters(s)
  {
    if s == "" then 0 else LettersValue(s[..|s| - 1]) * 26 + LetterValue(s[|s| - 1])
  }

  /** Every number is recovered from its letters. */
  lemma {:induction false} ValueOfLetters(n: nat)
    ensures LettersValue(Letters(n)) == n
  {
    if n != 0 {
      ValueOfLetters((n - 1) / 26);
      var s := Letters(n);
      assert s[..|s| - 1] == Letters((n - 1) / 26);
    }
  }

  /** Every letter string is recovered from its number; with ValueOfLetters, the code is a
      bijection between positive numbers and non-empty lowercase strings. */
  lemma {:induction false} LettersOfValue(s: string)
    requires AllLetters(s)
    ensures Letters(LettersValue(s)) == s
  {
    if s != "" {
      var n := |s| - 1;
      LettersOfValue(s[..n]);
      var v := LettersValue(s);
      assert (v - 1) / 26 == LettersValue(s[..n]) && (v - 1) % 26 == LetterValue(s[n]) - 1;
      assert s == s[..n] + [s[n]];
    }
  }

  /** Shorter first, then alphabetical. */
  predicate ShortLess(a: string, b: string) {
    |a| < |b| || (|a| == |b| && Less(a, b))
  }

  lemma {:induction false} LessBeforeTails(a: string, b: string, x: string, y: string)
    requires |a| == |b| && Less(a, b)
    ensures Less(a + x, b + y)
  {
    if a[0] == b[0] {
      LessBeforeTails(a[1..], b[1..], x, y);
      assert (a + x)[1..] == a[1..] + x && (b + y)[1..] == b[1..] + y;
    }
  }

  lemma {:induction false} GreaterIsLater(m: nat, n: nat)
    requires m < n
    ensures ShortLess(Letters(m), Letters(n))
    decreases n
  {
    if m > 0 {
      var p, q := (m - 1) / 26, (n - 1) / 26;
      var c, d := Letter((m - 1) % 26), Letter((n - 1) % 26);
      if p < q {
        GreaterIsLater(p, q);
        if |Letters(p)| == |Letters(q)| {
          LessBeforeTails(Letters(p), Letters(q), [c], [d]);
        }
      } else {
        FirstDifferenceDecides(Letters(p), c, "", d, "");
        assert Letters(p) + [c] + "" == Letters(m) && Letters(p) + [d] + "" == Letters(n);
      }
    }
  }

  /** Positions in counting order have letters in dictionary order, shorter ones first: with
      ValueOfLetters and LettersOfValue this leaves one code, the one that starts a, b, ..., z,
      aa, ab. */
  lemma {:induction false} LettersInOrder(m: nat, n: nat)
    ensures m < n <==> ShortLess(Letters(m), Letters(n))
  {
    if m < n {
      GreaterIsLater(m, n);
    } else if n < m {
      GreaterIsLater(n, m);
      NotBothWays(Letters(m), Letters(n));
    } else {
      Irreflexive(Letters(m));
    }
  }

  lemma NotBothWays(a: string, b: string)
    requires ShortLess(b, a)
    ensures !ShortLess(a, b)
  {
    if |a| == |b| && Less(a, b) {
      Transitive(a, b, a);
      Irreflexive(a);
    }
  }

  /** 26 + 26^2 + ... + 26^k, the largest value of k letters. */
  function MaxOfLength(k: nat): nat {
    if k == 0 then 0 else 26 * MaxOfLength(k - 1) + 26
  }

  lemma {:induction false} LettersBound(s: string)
    requires AllLetters(s)
    ensures LettersValue(s) <= MaxOfLength(|s|)
  {
    if s != "" {
      LettersBound(s[..|s| - 1]);
    }
  }

  lemma {:induction false} MaxOfLengthMonotone(j: nat, k: nat)
    requires j <= k
    ensures MaxOfLength(j) <= MaxOfLength(k)
  {
    if j < k {
      MaxOfLengthMonotone(j, k - 1);
    }
  }

  /** Up to 13 letters always fit a 64-bit integer. */
  lemma {:induction false} ShortLettersFit(s: string)
    requires AllLetters(s) && |s| <= 13
    ensures LettersValue(s) <= MAX_INT64
  {
    LettersBound(s);
    MaxOfLengthMonotone(|s|, 13);
    assert MaxOfLength(13) <= MAX_INT64;
  }

  /** The encoding loop; positions below one are treated as one. */
  method EncodePosition(pos: int) returns (result: string)
    ensures result == Letters(if pos < 1 then 1 else pos)
  {
    result := "";
    var n: nat := if pos < 1 then 1 else pos;
    ghost var p := n;
    while n > 0
      invariant Letters(p) == Letters(n) + result
    {
      n := n - 1;
      assert Letters(n + 1) == Letters(n / 26) + [Letter(n % 26)];
      result := [Letter(n % 26)] + result;
      n := n / 26;
    }
  }

  /** What decoding yields: nothing for an empty string or a foreign character, otherwise
      the value as it wraps around in 64 bits. */
  function Decoded(s: string): Option<int> {
    if s == "" || !AllLetters(s) then None else Some(Wrap64(LettersValue(s)))
  }

  /** The decoding loop. The accumulator wraps at every step, which in the end is the same
      as wrapping once. */
  method DecodePosition(s: string) returns (r: Option<int>)
    ensures r == Decoded(s)
  {
    if s == "" {
      return None;
    }
    var result := 0;
    for i := 0 to |s|
      invariant AllLetters(s[..i])
      invariant result == Wrap64(LettersValue(s[..i]))
    {
      var c := s[i];
      if c < 'a' || c > 'z' {
        assert !IsLetter(s[i]);
        return None;
      }
      assert s[..i + 1][..i] == s[..i];
      WrapInside(LettersValue(s[..i]), 26, LetterValue(c));
      result := Wrap64(result * 26 + (c - 'a') as int + 1);
    }
    assert s[..|s|] == s;
    return Some(result);
  }

  /** Decoding fails exactly on the empty string and on other characters than a to z; what was
      written for a position of up to 64 bits is read as that position. */
  lemma {:induction false} DecodesExactly(s: string, n: nat)
    ensures Decoded(s).None? <==> s == "" || exists i :: 0 <= i < |s| && (s[i] < 'a' || s[i] > 'z')
    ensures 1 <= n <= MAX_INT64 ==> Decoded(Letters(n)) == Some(n)
  {
    if s != "" && !AllLetters(s) {
      var i :| 0 <= i < |s| && !IsLetter(s[i]);
    }
    ValueOfLetters(n);
  }
}
