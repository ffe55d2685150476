/** Regrouping a bit stream: the 8-bit to 5-bit conversion in front of Bech32, with the
    32-bit accumulator that is never masked and therefore wraps. */
module ConvertBits {
  import opened Bits

  datatype Result = Ok(groups: seq<nat>) | InvalidValue | InvalidPadding

  ghost predicate AllBelow(vs: seq<nat>, width: nat) {
    forall i :: 0 <= i < |vs| ==> vs[i] < Pow2(width)
  }

  /** The number a sequence of `width`-bit groups spells, first group highest. */
  function Value(vs: seq<nat>, width: nat): nat {
    if vs == [] then 0 else Shl(Value(vs[..|vs| - 1], width), width) + vs[|vs| - 1]
  }

  // ----- the specification -----

  /** Bits of the stream that do not fill a whole output group. */
  function Leftover(n: nat, fromBits: nat, toBits: nat): nat
    requires toBits > 0
  {
    (fromBits * n) % toBits
  }

  function PadBits(n: nat, fromBits: nat, toBits: nat): nat
    requires toBits > 0
  {
    var left := Leftover(n, fromBits, toBits);
    if left == 0 then 0 else toBits - left
  }

  predicate FitsIn(v: int, width: nat) {
    0 <= v < Pow2(width)
  }

  function Nats(data: seq<int>): (r: seq<nat>)
    requires forall i :: 0 <= i < |data| ==> data[i] >= 0
    ensures |r| == |data| && forall i :: 0 <= i < |r| ==> r[i] == data[i]
  {
    seq(|data|, i requires 0 <= i < |data| && data[i] >= 0 => data[i])
  }

  /** The result of regrouping, fully determined: with padding the groups spell the input
      shifted left by the padding; without, the leftover bits must be zero and fewer than
      one input group. */
  ghost predicate Regrouped(data: seq<int>, fromBits: nat, toBits: nat, pad: bool, r: Result)
    requires toBits > 0
  {
    if exists i :: 0 <= i < |data| && !FitsIn(data[i], fromBits) then r == InvalidValue
    else RegroupedNats(Nats(data), fromBits, toBits, pad, r)
  }

  ghost predicate RegroupedNats(data: seq<nat>, fromBits: nat, toBits: nat, pad: bool, r: Result)
    requires toBits > 0
  {
    var left := Leftover(|data|, fromBits, toBits);
    var padding := PadBits(|data|, fromBits, toBits);
    var n := Value(data, fromBits);
    if pad then
      && r.Ok? && AllBelow(r.groups, toBits)
      && toBits * |r.groups| == fromBits * |data| + padding
      && Value(r.groups, toBits) == Shl(n, padding)
    else if left >= fromBits || Low(n, left) != 0 then r == InvalidPadding
    else
      && r.Ok? && AllBelow(r.groups, toBits)
      && toBits * |r.groups| == fromBits * |data| - left
      && Value(r.groups, toBits) == Shr(n, left)
  }

  // ----- shift facts -----

  lemma {:induction false} ShlShl(a: nat, j: nat, k: nat)
    ensures Shl(Shl(a, j), k) == Shl(a, j + k)
  {
    if k != 0 {
      ShlShl(a, j, k - 1);
    }
  }

  lemma {:induction false} ShlAdd(a: nat, b: nat, k: nat)
    ensures Shl(a + b, k) == Shl(a, k) + Shl(b, k)
  {
    if k != 0 {
      ShlAdd(a, b, k - 1);
    }
  }

  lemma {:induction false} LowLow(a: nat, j: nat, k: nat)
    requires k <= j
    ensures Low(Low(a, j), k) == Low(a, k)
  {
    if k != 0 {
      LowStep(a, j);
      LowLow(a / 2, j - 1, k - 1);
    }
  }

  /** A window of bits inside the low `w` bits is seen the same after masking to `w`. */
  lemma {:induction false} WindowOfLow(a: nat, w: nat, k: nat, n: nat)
    requires k + n <= w
    ensures Low(Shr(Low(a, w), k), n) == Low(Shr(a, k), n)
    decreases k
  {
    if k == 0 {
      LowLow(a, w, n);
    } else {
      LowStep(a, w);
      WindowOfLow(a / 2, w - 1, k - 1, n);
    }
  }

  lemma {:induction false} LowOfShl(a: nat, f: nat, w: nat)
    requires f <= w
    ensures Low(Shl(a, f), w) == Shl(Low(a, w - f), f)
  {
    if f != 0 {
      LowOfShl(a, f - 1, w - 1);
      ShlStep(a, f, 0);
    }
  }

  lemma LowIgnoresHigh(x: nat, h: nat, w: nat)
    ensures Low(x + Shl(h, w), w) == Low(x, w)
  {
    ShrLowSplit(x, w);
    ShlAdd(Shr(x, w), h, w);
    ShrLowUnique(x + Shl(h, w), Shr(x, w) + h, Low(x, w), w);
  }

  /** Filling cleared low bits does not disturb the mask. */
  lemma LowPlusFill(a: nat, f: nat, v: nat, w: nat)
    requires v < Pow2(f) && f <= w
    ensures Low(Shl(a, f) + v, w) == Low(Shl(a, f), w) + v
  {
    var l := Low(a, w - f);
    LowOfShl(a, f, w);
    ShrLowSplit(a, w - f);
    ShlLess(l, Pow2(w - f), f);
    ShlIsProduct(Pow2(w - f), f);
    Pow2Sum(w - f, f);
    ShrLowSplit(Shl(a, f), w);
    ShrLowUnique(Shl(a, f) + v, Shr(Shl(a, f), w), Shl(l, f) + v, w);
  }

  /** Appending `f` bits to a number of which only the low `w` bits are known. */
  lemma {:induction false} AppendToLow(a: nat, w: nat, f: nat, v: nat, appended: nat)
    requires v < Pow2(f) && f <= w && appended == Shl(a, f) + v
    ensures Low(Shl(Low(a, w), f), w) + v == Low(appended, w)
  {
    hide Low, Shr, Shl, Pow2;
    var h, l := Shr(a, w), Low(a, w);
    ShrLowSplit(a, w);
    ShlAdd(Shl(h, w), l, f);
    ShlShl(h, w, f);
    ShlShl(h, f, w);
    LowIgnoresHigh(Shl(l, f) + v, Shl(h, f), w);
    LowPlusFill(l, f, v, w);
  }

  lemma ShrOfAppend(a: nat, f: nat, v: nat, k: nat, appended: nat)
    requires v < Pow2(f) && appended == Shl(a, f) + v
    ensures Shr(appended, k + f) == Shr(a, k)
  {
    ShrLowUnique(Shl(a, f) + v, a, v, f);
    ShrShr(Shl(a, f) + v, f, k);
  }

  /** Moving `n` more bits out of the stream extends the groups read so far. */
  lemma {:induction false} NextGroup(a: nat, k: nat, n: nat)
    ensures Shl(Shr(a, k + n), n) + Low(Shr(a, k), n) == Shr(a, k)
  {
    ShrShr(a, k, n);
    ShrLowSplit(Shr(a, k), n);
  }

  // ----- the loop -----

  /** The width of the numbers bitwise operators work on. */
  const WORD_BITS: nat := 32

  /** `x >> k` on a 32-bit pattern, copying the sign bit in from the left. */
  function Sar(x: nat, k: nat): nat
    requires k <= WORD_BITS
  {
    Shr(x, k) + if x >= 0x80000000 then Shl(Pow2(k) - 1, WORD_BITS - k) else 0
  }

  /** The copied sign bits lie above every bit the mask keeps. */
  lemma {:induction false} MaskDropsSign(x: nat, k: nat, n: nat)
    requires k + n <= WORD_BITS
    ensures Low(Sar(x, k), n) == Low(Shr(x, k), n)
  {
    ShlShl(Pow2(k) - 1, WORD_BITS - k - n, n);
    LowIgnoresHigh(Shr(x, k), Shl(Pow2(k) - 1, WORD_BITS - k - n), n);
  }

  lemma {:induction false} FitsMeansNoHighBits(v: nat, width: nat)
    ensures Shr(v, width) == 0 <==> v < Pow2(width)
  {
    ShrLowSplit(v, width);
    ShlZero(width);
    if Shr(v, width) > 0 {
      ShlLess(0, Shr(v, width), width);
    }
  }

  lemma LeftoverIs(n: nat, fromBits: nat, toBits: nat, k: nat, bits: nat)
    requires bits < toBits && toBits * k + bits == fromBits * n
    ensures Leftover(n, fromBits, toBits) == bits
  {
    DivModUnique(fromBits * n, toBits, k, bits);
  }

  /** The final group holds the leftover bits followed by zeros. */
  lemma LowPadded(n: nat, bits: nat, toBits: nat)
    requires bits < toBits <= WORD_BITS
    ensures Low(Shl(Low(n, WORD_BITS), toBits - bits), toBits) == Shl(Low(n, bits), toBits - bits)
    ensures Low(Shl(Low(n, WORD_BITS), toBits - bits), toBits) != 0 <==> Low(n, bits) != 0
  {
    hide Low, Shl, Shr;
    LowOfShl(Low(n, WORD_BITS), toBits - bits, toBits);
    LowLow(n, WORD_BITS, bits);
    ShlIsProduct(Low(n, bits), toBits - bits);
    if Low(n, bits) > 0 {
      assert Low(n, bits) * Pow2(toBits - bits) > 0;
    }
  }

  lemma {:induction false} PaddedValue(n: nat, bits: nat, toBits: nat)
    requires bits < toBits
    ensures Shl(Shr(n, bits), toBits) + Shl(Low(n, bits), toBits - bits) == Shl(n, toBits - bits)
  {
    ShrLowSplit(n, bits);
    ShlAdd(Shl(Shr(n, bits), bits), Low(n, bits), toBits - bits);
    ShlShl(Shr(n, bits), bits, toBits - bits);
  }

  /** Append one group to the output. */
  lemma {:induction false} PushGroup(result: seq<nat>, group: nat, toBits: nat)
    requires AllBelow(result, toBits) && group < Pow2(toBits)
    ensures AllBelow(result + [group], toBits)
    ensures Value(result + [group], toBits) == Shl(Value(result, toBits), toBits) + group
    ensures toBits * |result + [group]| == toBits * |result| + toBits
  {
    assert (result + [group])[..|result|] == result;
    MulNext(toBits, |result|);
  }

  lemma MulSum(m: nat, j: nat, k: nat)
    ensures m * (j + k) == m * j + m * k
  {
  }

  lemma MulNext(m: nat, k: nat)
    ensures m * (k + 1) == m * k + m
  {
  }

  /** One output group, cut from the accumulator. */
  lemma CutGroup(n: nat, acc: nat, bits: nat, toBits: nat, group: nat)
    requires bits + toBits <= WORD_BITS && acc == Low(n, WORD_BITS)
    requires group == Low(Sar(acc, bits), toBits)
    ensures group < Pow2(toBits) && Shl(Shr(n, bits + toBits), toBits) + group == Shr(n, bits)
  {
    MaskDropsSign(acc, bits, toBits);
    WindowOfLow(n, WORD_BITS, bits, toBits);
    NextGroup(n, bits, toBits);
    ShrLowSplit(Shr(n, bits), toBits);
  }

  /** The loop state: all input bits are either in the groups written so far or among
      the low `bits` bits of the stream read so far. */
  ghost predicate Streamed(seen: seq<nat>, fromBits: nat, toBits: nat, bits: nat, result: seq<nat>) {
    && AllBelow(seen, fromBits) && AllBelow(result, toBits)
    && toBits * |result| + bits == fromBits * |seen|
    && Value(result, toBits) == Shr(Value(seen, fromBits), bits)
  }

  lemma {:induction false} NothingStreamed(fromBits: nat, toBits: nat)
    ensures Streamed([], fromBits, toBits, 0, []) && Low(Value([], fromBits), WORD_BITS) == 0
  {
    LowOfSmall(0, WORD_BITS);
  }

  lemma {:induction false} TakeIn(seen: seq<nat>, value: nat, fromBits: nat, toBits: nat, bits: nat, result: seq<nat>)
    requires fromBits <= WORD_BITS && value < Pow2(fromBits)
    requires Streamed(seen, fromBits, toBits, bits, result)
    ensures Streamed(seen + [value], fromBits, toBits, bits + fromBits, result)
    ensures Low(Shl(Low(Value(seen, fromBits), WORD_BITS), fromBits), WORD_BITS) + value == Low(Value(seen + [value], fromBits), WORD_BITS)
  {
    var n := Value(seen + [value], fromBits);
    PushGroup(seen, value, fromBits);
    AppendToLow(Value(seen, fromBits), WORD_BITS, fromBits, value, n);
    ShrOfAppend(Value(seen, fromBits), fromBits, value, bits, n);
  }

  lemma {:induction false} TakeOut(seen: seq<nat>, acc: nat, fromBits: nat, toBits: nat, bits: nat, result: seq<nat>, group: nat)
    requires bits + toBits <= WORD_BITS && acc == Low(Value(seen, fromBits), WORD_BITS)
    requires group == Low(Sar(acc, bits), toBits)
    requires Streamed(seen, fromBits, toBits, bits + toBits, result)
    ensures Streamed(seen, fromBits, toBits, bits, result + [group])
  {
    CutGroup(Value(seen, fromBits), acc, bits, toBits, group);
    PushGroup(result, group, toBits);
  }

  /** The conversion loop. Only the low `bits` bits of the accumulator are tied to the
      input; the rest is whatever the 32-bit shifts left there. Entries are integers of
      magnitude below 2^31. */
  method Convert(data: seq<int>, fromBits: nat, toBits: nat, pad: bool) returns (r: Result)
    requires 1 <= fromBits && 1 <= toBits && fromBits + toBits <= WORD_BITS
    ensures Regrouped(data, fromBits, toBits, pad, r)
  {
    hide Value, Streamed, Low, Shl, Shr, Pow2;
    var acc: nat, bits: nat := 0, 0;
    var result: seq<nat> := [];
    ghost var seen: seq<nat> := [];
    NothingStreamed(fromBits, toBits);
    for i := 0 to |data|
      invariant |seen| == i && (forall k :: 0 <= k < i ==> FitsIn(data[k], fromBits) && seen[k] == data[k])
      invariant acc == Low(Value(seen, fromBits), WORD_BITS)
      invariant bits < toBits && Streamed(seen, fromBits, toBits, bits, result)
    {
      var value := data[i];
      if value >= 0 {
        FitsMeansNoHighBits(value, fromBits);
      }
      if value < 0 || Shr(value, fromBits) != 0 {
        assert !FitsIn(data[i], fromBits);
        return InvalidValue;
      }
      var v: nat := value;
      TakeIn(seen, v, fromBits, toBits, bits, result);
      acc := Low(Shl(acc, fromBits), WORD_BITS) + v;
      seen := seen + [v];
      bits, result := Drain(acc, bits + fromBits, result, fromBits, toBits, seen);
    }
    assert seen == Nats(data);
    r := Finish(acc, bits, result, fromBits, toBits, pad, seen);
  }

  /** The inner loop: as many whole output groups as the accumulator holds. */
  method Drain(acc: nat, bits0: nat, result0: seq<nat>, fromBits: nat, toBits: nat, ghost seen: seq<nat>)
    returns (bits: nat, result: seq<nat>)
    requires 1 <= toBits && fromBits + toBits <= WORD_BITS && bits0 <= toBits - 1 + fromBits
    requires acc == Low(Value(seen, fromBits), WORD_BITS) && Streamed(seen, fromBits, toBits, bits0, result0)
    ensures bits < toBits && Streamed(seen, fromBits, toBits, bits, result)
  {
    hide Value, Streamed, Low, Pow2;
    bits, result := bits0, result0;
    while bits >= toBits
      invariant bits <= toBits - 1 + fromBits
      invariant Streamed(seen, fromBits, toBits, bits, result)
    {
      bits := bits - toBits;
      var group := Low(Sar(acc, bits), toBits);
      TakeOut(seen, acc, fromBits, toBits, bits, result, group);
      result := result + [group];
    }
  }

  /** After the loop: pad the last group, or insist that nothing of value is left over. */
  method Finish(acc: nat, bits: nat, result: seq<nat>, fromBits: nat, toBits: nat, pad: bool, ghost seen: seq<nat>)
    returns (r: Result)
    requires bits < toBits <= WORD_BITS
    requires acc == Low(Value(seen, fromBits), WORD_BITS) && Streamed(seen, fromBits, toBits, bits, result)
    ensures RegroupedNats(seen, fromBits, toBits, pad, r)
  {
    LeftoverIs(|seen|, fromBits, toBits, |result|, bits);
    LowPadded(Value(seen, fromBits), bits, toBits);
    if pad {
      if bits == 0 {
        return Ok(result);
      }
      var group := Low(Shl(acc, toBits - bits), toBits);
      PaddedValue(Value(seen, fromBits), bits, toBits);
      ShrLowSplit(Shl(acc, toBits - bits), toBits);
      PushGroup(result, group, toBits);
      return Ok(result + [group]);
    }
    if bits >= fromBits || Low(Shl(acc, toBits - bits), toBits) != 0 {
      return InvalidPadding;
    }
    return Ok(result);
  }

  // ----- the laws -----

  /** Groups of a fixed width and number are determined by the number they spell. */
  lemma {:induction false} ValueUnique(vs: seq<nat>, ws: seq<nat>, width: nat)
    requires |vs| == |ws| && AllBelow(vs, width) && AllBelow(ws, width)
    requires Value(vs, width) == Value(ws, width)
    ensures vs == ws
  {
    if vs != [] {
      var n := |vs| - 1;
      assert vs[n] < Pow2(width) && ws[n] < Pow2(width);
      SplitUnique(Value(vs[..n], width), vs[n], Value(ws[..n], width), ws[n], width);
      ValueUnique(vs[..n], ws[..n], width);
      assert vs == vs[..n] + [vs[n]] && ws == ws[..n] + [ws[n]];
    }
  }

  /** The conversion result is unique: the contract of Convert leaves no freedom. */
  lemma RegroupedUnique(data: seq<int>, fromBits: nat, toBits: nat, pad: bool, r: Result, r': Result)
    requires toBits > 0
    requires Regrouped(data, fromBits, toBits, pad, r) && Regrouped(data, fromBits, toBits, pad, r')
    ensures r == r'
  {
    if r.Ok? && r'.Ok? {
      SameProduct(toBits, |r.groups|, |r'.groups|);
      ValueUnique(r.groups, r'.groups, toBits);
    }
  }

  lemma SameProduct(m: nat, a: nat, b: nat)
    requires m > 0 && m * a == m * b
    ensures a == b
  {
    if a < b {
      SmallerQuotient(m, a, 0, b, 0);
    } else if b < a {
      SmallerQuotient(m, b, 0, a, 0);
    }
  }

  lemma {:induction false} LowOfShlZero(n: nat, p: nat, k: nat)
    requires k <= p
    ensures Low(Shl(n, p), k) == 0
  {
    if k != 0 {
      ShlStep(n, p, 0);
      LowOfShlZero(n, p - 1, k - 1);
    }
  }

  /** Converting with padding and back without: the second conversion never throws, and
      it returns the first input exactly when the padding is shorter than one of its groups.
      (With longer padding it returns whole extra zero groups.) */
  lemma RoundTripExactly(data: seq<nat>, fromBits: nat, toBits: nat, there: seq<nat>, back: Result)
    requires fromBits > 0 && toBits > 0 && AllBelow(data, fromBits)
    requires RegroupedNats(data, fromBits, toBits, true, Ok(there))
    requires RegroupedNats(there, toBits, fromBits, false, back)
    ensures back.Ok?
    ensures back == Ok(data) <==> PadBits(|data|, fromBits, toBits) < fromBits
  {
    var p := PadBits(|data|, fromBits, toBits);
    PaddedLeftover(|data|, |there|, fromBits, toBits, p);
    LowOfShlZero(Value(data, fromBits), p, p % fromBits);
    if p < fromBits {
      SameProduct(fromBits, |back.groups|, |data|);
      ShrOfShl(Value(data, fromBits), p);
      ValueUnique(back.groups, data, fromBits);
    }
  }

  lemma PaddedLeftover(n: nat, m: nat, fromBits: nat, toBits: nat, p: nat)
    requires fromBits > 0 && toBits * m == fromBits * n + p
    ensures Leftover(m, toBits, fromBits) == p % fromBits
    ensures p % fromBits <= p && (p < fromBits ==> p % fromBits == p)
  {
    var q := p / fromBits;
    assert p == fromBits * q + p % fromBits;
    MulSum(fromBits, n, q);
    DivModUnique(toBits * m, fromBits, n + q, p % fromBits);
    if p < fromBits {
      DivModUnique(p, fromBits, 0, p);
    }
  }

  lemma {:induction false} ShrOfShl(n: nat, p: nat)
    ensures Shr(Shl(n, p), p) == n
  {
    if p != 0 {
      ShlStep(n, p, 0);
      ShrOfShl(n, p - 1);
    }
  }

  /** Bytes to five-bit groups with padding and back again gives the bytes, for input of
      any length, and neither conversion throws. */
  lemma BytesRoundTrip(bytes: seq<nat>, there: Result, back: Result)
    requires AllBelow(bytes, 8)
    requires Regrouped(bytes, 8, 5, true, there)
    requires there.Ok? ==> Regrouped(there.groups, 5, 8, false, back)
    ensures there.Ok? && AllBelow(there.groups, 5) && back == Ok(bytes)
  {
    assert forall i :: 0 <= i < |bytes| ==> FitsIn(bytes[i], 8);
    assert Nats(bytes) == bytes;
    assert forall i :: 0 <= i < |there.groups| ==> FitsIn(there.groups[i], 5);
    assert Nats(there.groups) == there.groups;
    RoundTripExactly(bytes, 8, 5, there.groups, back);
  }

  /** Two byte strings of any lengths never share their five-bit form. */
  lemma BytesInjective(a: seq<nat>, b: seq<nat>, groups: seq<nat>)
    requires AllBelow(a, 8) && AllBelow(b, 8)
    requires RegroupedNats(a, 8, 5, true, Ok(groups)) && RegroupedNats(b, 8, 5, true, Ok(groups))
    ensures a == b
  {
    assert |a| == |b| by {
      assert 8 * |a| <= 5 * |groups| < 8 * |a| + 5;
      assert 8 * |b| <= 5 * |groups| < 8 * |b| + 5;
    }
    var p := PadBits(|a|, 8, 5);
    ShrOfShl(Value(a, 8), p);
    ShrOfShl(Value(b, 8), p);
    ValueUnique(a, b, 8);
  }

  // ----- bit by bit -----

  /** Bit `b` of group `q`, counted from the most significant. */
  predicate BitAt(vs: seq<nat>, width: nat, q: nat, b: nat)
    requires q < |vs| && b < width
  {
    Odd(Shr(vs[q], width - 1 - b))
  }

  lemma {:induction false} LowBitOfSum(a: nat, l: nat, w: nat, j: nat)
    requires j < w
    ensures Odd(Shr(Shl(a, w) + l, j)) == Odd(Shr(l, j))
  {
    ShlStep(a, w, l);
    if j != 0 {
      LowBitOfSum(a, l / 2, w - 1, j - 1);
    }
  }

  /** How many bits follow bit `b` of group `q` among `n` groups. */
  function BitsAfter(n: nat, width: nat, q: nat, b: nat): (r: nat)
    requires q < n && b < width
  {
    MulKeepsOrder(width, q, n - 1);
    width * (n - 1) - width * q + (width - 1 - b)
  }

  /** The bits of the groups, first group first, are the bits of the number they spell. */
  lemma {:induction false} BitOfValue(vs: seq<nat>, width: nat, q: nat, b: nat)
    requires AllBelow(vs, width) && q < |vs| && b < width
    ensures BitAt(vs, width, q, b) == Odd(Shr(Value(vs, width), BitsAfter(|vs|, width, q, b)))
  {
    var n := |vs| - 1;
    assert vs[n] < Pow2(width);
    if q == n {
      LowBitOfSum(Value(vs[..n], width), vs[n], width, width - 1 - b);
    } else {
      BitOfValue(vs[..n], width, q, b);
      MulNext(width, n - 1);
      ShrOfAppend(Value(vs[..n], width), width, vs[n], BitsAfter(n, width, q, b), Value(vs, width));
    }
  }

  lemma IndexInside(m: nat, q: nat, b: nat, n: nat)
    requires b < m && m * q + b < m * n
    ensures q < n
  {
    if n <= q {
      MulKeepsOrder(m, n, q);
    }
  }

  lemma PositionInside(m: nat, q: nat, b: nat, n: nat)
    requires b < m && q < n
    ensures m * q + b < m * n
  {
    MulKeepsOrder(m, q + 1, n);
    MulNext(m, q);
  }

  lemma BitsAfterIs(n: nat, width: nat, q: nat, b: nat)
    requires q < n && b < width
    ensures BitsAfter(n, width, q, b) == width * n - 1 - (width * q + b)
  {
    MulNext(width, n - 1);
  }

  /** With padding, the bits come out in the order in which they went in, each at the place its
      position in the stream gives it ... */
  lemma BitsComeOutInOrder(data: seq<nat>, fromBits: nat, toBits: nat, groups: seq<nat>, q: nat, b: nat, q': nat, b': nat)
    requires toBits > 0 && AllBelow(data, fromBits) && RegroupedNats(data, fromBits, toBits, true, Ok(groups))
    requires q < |data| && b < fromBits && b' < toBits && fromBits * q + b == toBits * q' + b'
    ensures q' < |groups| && BitAt(groups, toBits, q', b') == BitAt(data, fromBits, q, b)
  {
    hide Value, Shr, Shl, BitsAfter, AllBelow;
    var p := PadBits(|data|, fromBits, toBits);
    PositionInside(fromBits, q, b, |data|);
    IndexInside(toBits, q', b', |groups|);
    BitOfValue(data, fromBits, q, b);
    BitOfValue(groups, toBits, q', b');
    BitsAfterIs(|data|, fromBits, q, b);
    BitsAfterIs(|groups|, toBits, q', b');
    ShrShr(Shl(Value(data, fromBits), p), p, BitsAfter(|data|, fromBits, q, b));
    ShrOfShl(Value(data, fromBits), p);
  }

  /** ... and the bits filled in at the end are zero. */
  lemma FilledBitsAreZero(data: seq<nat>, fromBits: nat, toBits: nat, groups: seq<nat>, q': nat, b': nat)
    requires toBits > 0 && AllBelow(data, fromBits) && RegroupedNats(data, fromBits, toBits, true, Ok(groups))
    requires q' < |groups| && b' < toBits && fromBits * |data| <= toBits * q' + b'
    ensures !BitAt(groups, toBits, q', b')
  {
    hide Value, Shr, BitsAfter, AllBelow;
    var p := PadBits(|data|, fromBits, toBits);
    BitOfValue(groups, toBits, q', b');
    BitsAfterIs(|groups|, toBits, q', b');
    LowBitOfSum(Value(data, fromBits), 0, p, BitsAfter(|groups|, toBits, q', b'));
    ShrZero(BitsAfter(|groups|, toBits, q', b'));
  }

  /** Without padding they come out in order as well ... */
  lemma {:induction false} StrictBitsComeOutInOrder(data: seq<nat>, fromBits: nat, toBits: nat, groups: seq<nat>,
                                                    q: nat, b: nat, q': nat, b': nat)
    requires toBits > 0 && AllBelow(data, fromBits) && RegroupedNats(data, fromBits, toBits, false, Ok(groups))
    requires q < |data| && b < fromBits && q' < |groups| && b' < toBits && fromBits * q + b == toBits * q' + b'
    ensures BitAt(groups, toBits, q', b') == BitAt(data, fromBits, q, b)
  {
    hide Value, Shr, BitsAfter, AllBelow;
    BitOfValue(data, fromBits, q, b);
    BitOfValue(groups, toBits, q', b');
    BitsAfterIs(|data|, fromBits, q, b);
    BitsAfterIs(|groups|, toBits, q', b');
    ShrShr(Value(data, fromBits), Leftover(|data|, fromBits, toBits), BitsAfter(|groups|, toBits, q', b'));
  }

  lemma {:induction false} BitOfLow(a: nat, n: nat, j: nat)
    requires j < n
    ensures Odd(Shr(Low(a, n), j)) == Odd(Shr(a, j))
  {
    LowStep(a, n);
    if j != 0 {
      BitOfLow(a / 2, n - 1, j - 1);
    }
  }

  ghost predicate NoBitSet(a: nat, n: nat) {
    forall j: nat :: j < n ==> !Odd(Shr(a, j))
  }

  lemma {:induction false} LowIsZeroExactly(a: nat, n: nat)
    ensures Low(a, n) == 0 <==> NoBitSet(a, n)
  {
    hide Low, Shr;
    ShrLowSplit(a, n);
    forall j: nat | j < n ensures Odd(Shr(Low(a, n), j)) == Odd(Shr(a, j)) {
      BitOfLow(a, n, j);
    }
    if Low(a, n) == 0 {
      forall j: nat | j < n ensures !Odd(Shr(a, j)) {
        ShrZero(j);
      }
    }
    if NoBitSet(a, n) {
      NoBits(Low(a, n), n);
    }
  }

  /** Bit `b` of group `q` is set and lies among the last `left` bits of the stream. */
  ghost predicate SetBitLeftOver(data: seq<nat>, width: nat, left: nat, q: nat, b: nat) {
    q < |data| && b < width && BitsAfter(|data|, width, q, b) < left && BitAt(data, width, q, b)
  }

  /** ... and the conversion fails exactly when the bits that fill no whole group would fill an
      input group or are not all zero. */
  lemma {:induction false} StrictFailsExactly(data: seq<nat>, fromBits: nat, toBits: nat, r: Result)
    requires fromBits > 0 && toBits > 0 && AllBelow(data, fromBits) && RegroupedNats(data, fromBits, toBits, false, r)
    ensures r == InvalidPadding
       <==> fromBits * |data| % toBits >= fromBits || exists q, b :: SetBitLeftOver(data, fromBits, fromBits * |data| % toBits, q, b)
  {
    hide Value, Shr, Low, AllBelow;
    var left, n := Leftover(|data|, fromBits, toBits), Value(data, fromBits);
    LowIsZeroExactly(n, left);
    if q, b :| SetBitLeftOver(data, fromBits, left, q, b) {
      BitOfValue(data, fromBits, q, b);
    }
    if left < fromBits && Low(n, left) != 0 {
      var j: nat :| j < left && Odd(Shr(n, j));
      LastGroupHolds(data, fromBits, left, j);
    }
  }

  lemma {:induction false} LastGroupHolds(data: seq<nat>, width: nat, left: nat, j: nat)
    requires AllBelow(data, width) && j < left < width && Odd(Shr(Value(data, width), j))
    ensures exists q, b :: SetBitLeftOver(data, width, left, q, b)
  {
    hide Shr;
    if data == [] {
      ShrZero(j);
    } else {
      BitOfValue(data, width, |data| - 1, width - 1 - j);
      assert BitsAfter(|data|, width, |data| - 1, width - 1 - j) == j;
      assert SetBitLeftOver(data, width, left, |data| - 1, width - 1 - j);
    }
  }
}
