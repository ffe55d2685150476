/** The Bech32 checksum of BIP-173 (section "Checksum") and its Bech32m variant of
    BIP-350: a polynomial code over five-bit symbols, kept in a 30-bit register. */
module Bech32Checksum {
  import opened Bits

  const GENERATOR: seq<nat> := [0x3b6a57b2, 0x26508e6d, 0x1ea119fa, 0x3d4233dd, 0x2a1462b3]

  datatype Spec = Bech32 | Bech32m

  function ConstOf(spec: Spec): nat {
    if spec == Bech32m then 0x2bc830a3 else 1
  }

  /** A five-bit symbol. */
  predicate IsSymbol(v: nat) {
    v < 32
  }

  ghost predicate AllSymbols(vs: seq<nat>) {
    forall i :: 0 <= i < |vs| ==> IsSymbol(vs[i])
  }

  // ----- the register -----

  /** The generator words selected by the lowest `n` bits of `top`. */
  function Mix(top: nat, n: nat): nat
    requires n <= |GENERATOR|
  {
    if n == 0 then 0
    else Xor(Mix(top, n - 1), if Shr(top, n - 1) % 2 == 1 then GENERATOR[n - 1] else 0)
  }

  /** The register after a zero symbol: multiplication by x modulo the generator. */
  function Shift(chk: nat): nat {
    Xor(Shl(Low(chk, 25), 5), Mix(Shr(chk, 25), |GENERATOR|))
  }

  function Step(chk: nat, v: nat): nat {
    Xor(Shift(chk), v)
  }

  function Feed(chk: nat, vs: seq<nat>): nat {
    if vs == [] then chk else Step(Feed(chk, vs[..|vs| - 1]), vs[|vs| - 1])
  }

  ghost predicate Fits30(w: nat) {
    w < Pow2(30)
  }

  ghost predicate AllFit30(vs: seq<nat>) {
    forall i :: 0 <= i < |vs| ==> Fits30(vs[i])
  }

  /** The checksum loop. The register starts at one and never leaves 30 bits, so the
      signed 32-bit arithmetic of JavaScript is exact on it. */
  method Polymod(values: seq<nat>) returns (chk: nat)
    requires AllFit30(values)
    ensures chk == Feed(1, values)
    ensures Fits30(chk)
  {
    chk := 1;
    Pow2At30();
    for k := 0 to |values|
      invariant chk == Feed(1, values[..k])
      invariant Fits30(chk)
    {
      FeedOneMore(values, k);
      StepFits30(chk, values[k]);
      ghost var before := chk;
      var top := Shr(chk, 25);
      chk := Xor(Shl(Low(chk, 25), 5), values[k]);
      chk := XorGenerators(chk, top);
      SymbolBeforeMix(before, values[k]);
    }
    assert values[..|values|] == values;
  }

  /** The inner loop over the five bits that left the register. */
  method XorGenerators(start: nat, top: nat) returns (chk: nat)
    ensures chk == Xor(start, Mix(top, |GENERATOR|))
  {
    chk := start;
    for i := 0 to |GENERATOR|
      invariant chk == Xor(start, Mix(top, i))
    {
      MixOneMore(start, top, i);
      if Shr(top, i) % 2 == 1 {
        chk := Xor(chk, GENERATOR[i]);
      }
    }
  }

  lemma MixOneMore(start: nat, top: nat, i: nat)
    requires i < |GENERATOR|
    ensures Xor(start, Mix(top, i + 1))
         == if Shr(top, i) % 2 == 1 then Xor(Xor(start, Mix(top, i)), GENERATOR[i]) else Xor(start, Mix(top, i))
  {
    XorAssoc(start, Mix(top, i), GENERATOR[i]);
  }

  lemma FeedOneMore(values: seq<nat>, k: nat)
    requires k < |values|
    ensures Feed(1, values[..k + 1]) == Step(Feed(1, values[..k]), values[k])
  {
    assert values[..k + 1][..k] == values[..k];
  }

  lemma {:induction false} SymbolBeforeMix(chk: nat, v: nat)
    ensures Xor(Xor(Shl(Low(chk, 25), 5), v), Mix(Shr(chk, 25), 5)) == Step(chk, v)
  {
    var a, m := Shl(Low(chk, 25), 5), Mix(Shr(chk, 25), 5);
    XorAssoc(a, v, m);
    XorComm(v, m);
    XorAssoc(a, m, v);
  }

  lemma Pow2At30()
    ensures Pow2(5) == 32 && Pow2(25) == 0x2000000 && Pow2(30) == 0x40000000
  {
    Pow2Sum(10, 15);
    Pow2Sum(5, 10);
    Pow2Sum(15, 15);
    assert Pow2(5) == 32;
    assert Pow2(10) == 1024;
  }

  // ----- linearity and injectivity of one step -----

  lemma Picks(g: nat, p: bool, q: bool)
    ensures (if p != q then g else 0) == Xor(if p then g else 0, if q then g else 0)
  {
    XorSame(g);
  }

  lemma {:induction false} MixLinear(a: nat, b: nat, n: nat)
    requires n <= |GENERATOR|
    ensures Mix(Xor(a, b), n) == Xor(Mix(a, n), Mix(b, n))
  {
    if n != 0 {
      MixLinear(a, b, n - 1);
      XorShr(a, b, n - 1);
      XorOdd(Shr(a, n - 1), Shr(b, n - 1));
      var p, q := Odd(Shr(a, n - 1)), Odd(Shr(b, n - 1));
      Picks(GENERATOR[n - 1], p, q);
      XorSwap(Mix(a, n - 1), Mix(b, n - 1), if p then GENERATOR[n - 1] else 0, if q then GENERATOR[n - 1] else 0);
    }
  }

  lemma {:induction false} ShiftLinear(a: nat, b: nat)
    ensures Shift(Xor(a, b)) == Xor(Shift(a), Shift(b))
  {
    XorLow(a, b, 25);
    XorShl(Low(a, 25), Low(b, 25), 5);
    XorShr(a, b, 25);
    MixLinear(Shr(a, 25), Shr(b, 25), |GENERATOR|);
    XorSwap(Shl(Low(a, 25), 5), Shl(Low(b, 25), 5), Mix(Shr(a, 25), |GENERATOR|), Mix(Shr(b, 25), |GENERATOR|));
  }

  lemma {:induction false} StepLinear(a: nat, b: nat, v: nat, w: nat)
    ensures Step(Xor(a, b), Xor(v, w)) == Xor(Step(a, v), Step(b, w))
  {
    ShiftLinear(a, b);
    XorSwap(Shift(a), Shift(b), v, w);
  }

  lemma {:induction false} MixFits30(top: nat, n: nat)
    requires n <= |GENERATOR|
    ensures Fits30(Mix(top, n))
  {
    Pow2At30();
    if n != 0 {
      MixFits30(top, n - 1);
      XorBound(Mix(top, n - 1), if Shr(top, n - 1) % 2 == 1 then GENERATOR[n - 1] else 0, 30);
    }
  }

  lemma StepFits30(chk: nat, v: nat)
    requires Fits30(v)
    ensures Fits30(Step(chk, v))
  {
    ShrLowSplit(chk, 25);
    ShlIsProduct(Low(chk, 25), 5);
    Pow2Sum(25, 5);
    Pow2At30();
    MixFits30(Shr(chk, 25), |GENERATOR|);
    XorBound(Shl(Low(chk, 25), 5), Mix(Shr(chk, 25), |GENERATOR|), 30);
    XorBound(Shift(chk), v, 30);
  }

  // ----- a non-zero register stays non-zero -----

  /** One bit of a mixed word, one generator at a time. */
  lemma BitOfMixStep(top: nat, n: nat, k: nat)
    requires n < |GENERATOR|
    ensures Odd(Shr(Mix(top, n + 1), k))
       <==> Odd(Shr(Mix(top, n), k)) != (Odd(Shr(top, n)) && Odd(Shr(GENERATOR[n], k)))
  {
    var g := if Shr(top, n) % 2 == 1 then GENERATOR[n] else 0;
    XorShr(Mix(top, n), g, k);
    XorOdd(Shr(Mix(top, n), k), Shr(g, k));
    ShrZero(k);
  }

  lemma {:induction false} BitOfMix(top: nat, k: nat, g0: bool, g1: bool, g2: bool, g3: bool, g4: bool)
    requires g0 == Odd(Shr(0x3b6a57b2, k)) && g1 == Odd(Shr(0x26508e6d, k)) && g2 == Odd(Shr(0x1ea119fa, k))
    requires g3 == Odd(Shr(0x3d4233dd, k)) && g4 == Odd(Shr(0x2a1462b3, k))
    ensures Odd(Shr(Mix(top, 5), k))
       <==> ((((Odd(Shr(top, 0)) && g0) != (Odd(Shr(top, 1)) && g1)) != (Odd(Shr(top, 2)) && g2))
             != (Odd(Shr(top, 3)) && g3)) != (Odd(Shr(top, 4)) && g4)
  {
    ShrZero(k);
    BitOfMixStep(top, 0, k);
    BitOfMixStep(top, 1, k);
    BitOfMixStep(top, 2, k);
    BitOfMixStep(top, 3, k);
    BitOfMixStep(top, 4, k);
  }

  /** The low five bits of the generator words are independent: they mix to zero only
      when nothing was selected. */
  lemma {:induction false} MixIndependent(top: nat)
    requires top < 32
    requires forall k: nat :: k < 5 ==> !Odd(Shr(Mix(top, 5), k))
    ensures top == 0
  {
    BitOfMix(top, 0, false, true, false, true, true);
    BitOfMix(top, 1, true, false, true, false, true);
    BitOfMix(top, 2, false, true, false, true, false);
    BitOfMix(top, 3, false, true, true, true, false);
    BitOfMix(top, 4, true, false, true, true, true);
    assert !Odd(Shr(top, 0)) && !Odd(Shr(top, 1)) && !Odd(Shr(top, 2)) && !Odd(Shr(top, 3)) && !Odd(Shr(top, 4));
    Pow2At30();
    NoBits(top, 5);
  }

  lemma {:induction false} LowBitsOfShl(x: nat, j: nat, k: nat)
    requires k <= j
    ensures Shr(Shl(x, j), k) == Shl(x, j - k)
  {
    if k != 0 {
      LowBitsOfShl(x, j - 1, k - 1);
    }
  }

  lemma ShiftKernel(a: nat)
    requires Fits30(a) && Shift(a) == 0
    ensures a == 0
  {
    hide Xor, Low, Mix;
    var low, top := Low(a, 25), Shr(a, 25);
    ShrLowSplit(a, 25);
    Pow2At30();
    ShlIsProduct(top, 25);
    assert top < 32;
    XorZeroMeansEqual(Shl(low, 5), Mix(top, 5));
    forall k: nat | k < 5 ensures !Odd(Shr(Mix(top, 5), k)) {
      LowBitsOfShl(low, 5, k);
    }
    MixIndependent(top);
    MixOfZero(5);
    ShlIsProduct(low, 5);
    ShlZero(25);
  }

  // ----- feeding sequences -----

  function Zeros(n: nat): seq<nat> {
    if n == 0 then [] else Zeros(n - 1) + [0]
  }

  function XorEach(vs: seq<nat>, ws: seq<nat>): (r: seq<nat>)
    requires |vs| == |ws|
    ensures |r| == |vs|
    ensures forall i :: 0 <= i < |r| ==> r[i] == Xor(vs[i], ws[i])
  {
    seq(|vs|, i requires 0 <= i < |vs| => Xor(vs[i], ws[i]))
  }

  lemma {:induction false} FeedAppend(chk: nat, vs: seq<nat>, ws: seq<nat>)
    ensures Feed(chk, vs + ws) == Feed(Feed(chk, vs), ws)
  {
    if ws == [] {
      assert vs + ws == vs;
    } else {
      FeedAppend(chk, vs, ws[..|ws| - 1]);
      assert (vs + ws)[..|vs + ws| - 1] == vs + ws[..|ws| - 1];
    }
  }

  /** The whole checksum is linear over exclusive or, for sequences of any length. */
  lemma {:induction false} FeedLinear(a: nat, b: nat, vs: seq<nat>, ws: seq<nat>)
    requires |vs| == |ws|
    ensures Feed(Xor(a, b), XorEach(vs, ws)) == Xor(Feed(a, vs), Feed(b, ws))
  {
    if vs == [] {
      assert XorEach(vs, ws) == [];
    } else {
      var n := |vs| - 1;
      FeedLinear(a, b, vs[..n], ws[..n]);
      assert XorEach(vs, ws)[..n] == XorEach(vs[..n], ws[..n]);
      StepLinear(Feed(a, vs[..n]), Feed(b, ws[..n]), vs[n], ws[n]);
    }
  }

  lemma {:induction false} FeedFits30(chk: nat, vs: seq<nat>)
    requires Fits30(chk) && AllFit30(vs)
    ensures Fits30(Feed(chk, vs))
  {
    if vs != [] {
      StepFits30(Feed(chk, vs[..|vs| - 1]), vs[|vs| - 1]);
    }
  }

  lemma {:induction false} ZeroIntoZero(n: nat)
    ensures Feed(0, Zeros(n)) == 0
  {
    hide Step;
    if n != 0 {
      ZeroIntoZero(n - 1);
      assert Zeros(n)[..|Zeros(n)| - 1] == Zeros(n - 1);
      StepOfZero();
    }
  }

  lemma StepOfZero()
    ensures Step(0, 0) == 0
  {
    hide Shift;
    ShiftOfZero();
    assert Xor(0, 0) == 0;
  }

  lemma ShiftOfZero()
    ensures Shift(0) == 0
  {
    LowOfSmall(0, 25);
    ShlZero(5);
    MixOfZero(5);
  }

  lemma {:induction false} MixOfZero(n: nat)
    requires n <= |GENERATOR|
    ensures Mix(0, n) == 0
  {
    if n != 0 {
      MixOfZero(n - 1);
      ShrZero(n - 1);
    }
  }

  lemma {:induction false} NonZeroStays(chk: nat, n: nat)
    requires Fits30(chk) && chk != 0
    ensures Fits30(Feed(chk, Zeros(n))) && Feed(chk, Zeros(n)) != 0
  {
    if n != 0 {
      NonZeroStays(chk, n - 1);
      assert Zeros(n)[..|Zeros(n)| - 1] == Zeros(n - 1);
      var before := Feed(chk, Zeros(n - 1));
      Pow2At30();
      StepFits30(before, 0);
      if Shift(before) == 0 {
        ShiftKernel(before);
      }
    }
  }

  /** Symbols read as the digits of a number in base 32. */
  function Pack(ws: seq<nat>): nat {
    if ws == [] then 0 else Shl(Pack(ws[..|ws| - 1]), 5) + ws[|ws| - 1]
  }

  lemma {:induction false} PackBound(ws: seq<nat>)
    requires AllSymbols(ws)
    ensures Pack(ws) < Pow2(5 * |ws|)
  {
    if ws != [] {
      var n := |ws| - 1;
      assert IsSymbol(ws[n]);
      PackBound(ws[..n]);
      ShlIsProduct(Pack(ws[..n]), 5);
      Pow2Sum(5, 5 * n);
      Pow2At30();
    }
  }

  lemma {:induction false} PackZero(ws: seq<nat>, i: nat)
    requires Pack(ws) == 0 && i < |ws|
    ensures ws[i] == 0
  {
    var n := |ws| - 1;
    ShlIsProduct(Pack(ws[..n]), 5);
    if i < n {
      PackZero(ws[..n], i);
    }
  }

  /** The first six symbols into an empty register are simply stored in it. */
  lemma {:induction false} FirstSixAreStored(ws: seq<nat>)
    requires AllSymbols(ws) && |ws| <= 6
    ensures Feed(0, ws) == Pack(ws)
  {
    if ws != [] {
      var n := |ws| - 1;
      FirstSixAreStored(ws[..n]);
      PackBound(ws[..n]);
      Pow2Monotone(5 * n, 25);
      LowOfSmall(Pack(ws[..n]), 25);
      MixOfZero(5);
      assert IsSymbol(ws[n]);
      Pow2At30();
      XorFillsLow(Pack(ws[..n]), ws[n], 5);
    }
  }

  // ----- checksums -----

  /** The human-readable part as numbers: high bits, a separator, low bits. */
  function HrpNumbers(hrp: string): seq<nat> {
    seq(|hrp|, i requires 0 <= i < |hrp| => Shr(hrp[i] as int, 5))
    + [0]
    + seq(|hrp|, i requires 0 <= i < |hrp| => Low(hrp[i] as int, 5))
  }

  method HrpExpand(hrp: string) returns (result: seq<nat>)
    ensures result == HrpNumbers(hrp)
  {
    result := [];
    for i := 0 to |hrp|
      invariant result == seq(i, k requires 0 <= k < i => Shr(hrp[k] as int, 5))
    {
      result := result + [Shr(hrp[i] as int, 5)];
    }
    result := result + [0];
    ghost var high := result;
    for i := 0 to |hrp|
      invariant result == high + seq(i, k requires 0 <= k < i => Low(hrp[k] as int, 5))
    {
      result := result + [Low(hrp[i] as int, 5)];
    }
  }

  lemma {:induction false} ByteInTwoParts(a: nat)
    ensures Shr(a, 5) == a / 32 && Low(a, 5) == a % 32
  {
    ShrLowSplit(a, 5);
    ShlIsProduct(Shr(a, 5), 5);
    Pow2At30();
    DivModUnique(a, 32, Shr(a, 5), Low(a, 5));
  }

  /** Each character's code divided by 32, then a zero, then the remainders. */
  lemma HrpNumbersAre(hrp: string, i: nat)
    requires i < |hrp|
    ensures |HrpNumbers(hrp)| == 2 * |hrp| + 1 && HrpNumbers(hrp)[|hrp|] == 0
    ensures HrpNumbers(hrp)[i] == hrp[i] as int / 32
    ensures HrpNumbers(hrp)[|hrp| + 1 + i] == hrp[i] as int % 32
  {
    ByteInTwoParts(hrp[i] as int);
  }

  lemma {:induction false} ShrAtMost(a: nat, k: nat)
    ensures Shr(a, k) <= a
  {
    if k != 0 {
      ShrAtMost(a / 2, k - 1);
    }
  }

  lemma HrpFits30(hrp: string)
    ensures AllFit30(HrpNumbers(hrp))
  {
    Pow2At30();
    forall i | 0 <= i < |hrp| ensures Fits30(Shr(hrp[i] as int, 5)) && Fits30(Low(hrp[i] as int, 5)) {
      ShrAtMost(hrp[i] as int, 5);
      ShrLowSplit(hrp[i] as int, 5);
    }
  }

  /** The number the six checksum symbols spell. */
  function ChecksumWord(hrp: string, data: seq<nat>, spec: Spec): nat {
    Xor(Feed(1, HrpNumbers(hrp) + data + Zeros(6)), ConstOf(spec))
  }

  /** What verification tests: the whole code word leaves the constant in the register. */
  ghost predicate Verifies(hrp: string, word: seq<nat>, spec: Spec) {
    Feed(1, HrpNumbers(hrp) + word) == ConstOf(spec)
  }

  lemma SymbolsFit30(vs: seq<nat>)
    requires AllSymbols(vs)
    ensures AllFit30(vs)
  {
    Pow2At30();
    forall i | 0 <= i < |vs| ensures Fits30(vs[i]) {
      assert IsSymbol(vs[i]);
    }
  }

  lemma {:induction false} ZerosAllSymbols(n: nat)
    ensures AllSymbols(Zeros(n)) && |Zeros(n)| == n
    ensures forall i :: 0 <= i < n ==> Zeros(n)[i] == 0
  {
    if n != 0 {
      ZerosAllSymbols(n - 1);
    }
  }

  lemma ChecksumWordFits30(hrp: string, data: seq<nat>, spec: Spec)
    requires AllSymbols(data)
    ensures AllFit30(HrpNumbers(hrp) + data + Zeros(6))
    ensures Fits30(ChecksumWord(hrp, data, spec))
  {
    HrpFits30(hrp);
    ZerosAllSymbols(6);
    SymbolsFit30(data);
    SymbolsFit30(Zeros(6));
    Pow2At30();
    FeedFits30(1, HrpNumbers(hrp) + data + Zeros(6));
    XorBound(Feed(1, HrpNumbers(hrp) + data + Zeros(6)), ConstOf(spec), 30);
  }

  method CreateChecksum(hrp: string, data: seq<nat>, spec: Spec) returns (result: seq<nat>)
    requires AllSymbols(data)
    ensures |result| == 6 && AllSymbols(result)
    ensures Pack(result) == ChecksumWord(hrp, data, spec)
  {
    var values := HrpExpand(hrp);
    ChecksumWordFits30(hrp, data, spec);
    assert Zeros(6) == [0, 0, 0, 0, 0, 0];
    var poly := Polymod(values + data + [0, 0, 0, 0, 0, 0]);
    poly := Xor(poly, if spec == Bech32m then 0x2bc830a3 else 1);
    result := SixSymbols(poly);
  }

  /** The register as six symbols, most significant first. */
  method SixSymbols(poly: nat) returns (result: seq<nat>)
    requires Fits30(poly)
    ensures |result| == 6 && AllSymbols(result) && Pack(result) == poly
  {
    hide Low;
    Pow2At30();
    LowOfSmall(poly, 30);
    result := [];
    for i := 0 to 6
      invariant |result| == i && AllSymbols(result)
      invariant Pack(result) == Shr(poly, 5 * (6 - i))
    {
      var m := 5 * (5 - i);
      ShrLowSplit(Shr(poly, m), 5);
      ShrShr(poly, m, 5);
      var symbol := Low(Shr(poly, m), 5);
      assert (result + [symbol])[..i] == result;
      result := result + [symbol];
    }
  }

  /** A created checksum always verifies: for every human-readable part and all data, the
      register ends at 1 for Bech32 and at 0x2bc830a3 for Bech32m. */
  lemma {:induction false} CreatedChecksumVerifies(hrp: string, data: seq<nat>, checksum: seq<nat>, spec: Spec)
    requires |checksum| == 6 && AllSymbols(checksum)
    requires Pack(checksum) == ChecksumWord(hrp, data, spec)
    ensures Verifies(hrp, data + checksum, spec)
    ensures Feed(1, HrpNumbers(hrp) + (data + checksum)) == if spec == Bech32m then 0x2bc830a3 else 1
  {
    var values := HrpNumbers(hrp) + data;
    var p := Feed(1, values + Zeros(6));
    assert HrpNumbers(hrp) + (data + checksum) == values + checksum;
    FinalSixAdd(values, checksum);
    XorAssoc(p, p, ConstOf(spec));
    XorSame(p);
  }

  /** Six final symbols are exclusive-ored onto what six zeros would have left. */
  lemma {:induction false} FinalSixAdd(values: seq<nat>, six: seq<nat>)
    requires |six| == 6 && AllSymbols(six)
    ensures Feed(1, values + six) == Xor(Feed(1, values + Zeros(6)), Pack(six))
  {
    var s := Feed(1, values);
    ZerosAllSymbols(6);
    assert XorEach(Zeros(6), six) == six;
    FeedAppend(1, values, Zeros(6));
    FeedAppend(1, values, six);
    FeedLinear(s, 0, Zeros(6), six);
    XorComm(s, 0);
    FirstSixAreStored(six);
  }

  // ----- what the checksum detects -----

  /** Two sequences of the same length that differ, but only in symbols inside `n`
      consecutive places from `i` on. */
  ghost predicate DifferInBurst(vs: seq<nat>, ws: seq<nat>, i: nat, n: nat) {
    && |vs| == |ws| && i + n <= |vs| && vs != ws
    && vs[..i] == ws[..i] && vs[i + n..] == ws[i + n..]
    && AllSymbols(vs[i..i + n]) && AllSymbols(ws[i..i + n])
  }

  lemma {:induction false} XorEachSame(vs: seq<nat>)
    ensures XorEach(vs, vs) == Zeros(|vs|)
  {
    ZerosAllSymbols(|vs|);
    forall i | 0 <= i < |vs| ensures XorEach(vs, vs)[i] == 0 {
      XorSame(vs[i]);
    }
  }

  lemma XorSymbols(vs: seq<nat>, ws: seq<nat>)
    requires |vs| == |ws| && AllSymbols(vs) && AllSymbols(ws)
    ensures AllSymbols(XorEach(vs, ws))
  {
    Pow2At30();
    forall i | 0 <= i < |vs| ensures IsSymbol(XorEach(vs, ws)[i]) {
      assert IsSymbol(vs[i]) && IsSymbol(ws[i]);
      XorBound(vs[i], ws[i], 5);
    }
  }

  /** The difference of two such sequences is zero outside the burst. */
  lemma {:induction false} BurstDifference(vs: seq<nat>, ws: seq<nat>, i: nat, n: nat)
    requires DifferInBurst(vs, ws, i, n)
    ensures XorEach(vs, ws) == Zeros(i) + XorEach(vs[i..i + n], ws[i..i + n]) + Zeros(|vs| - i - n)
  {
    hide Xor, Zeros;
    XorEachSame(vs[..i]);
    XorEachSame(vs[i + n..]);
    assert XorEach(vs, ws)
        == XorEach(vs[..i], ws[..i]) + XorEach(vs[i..i + n], ws[i..i + n]) + XorEach(vs[i + n..], ws[i + n..]);
  }

  lemma BurstIsNotZero(vs: seq<nat>, ws: seq<nat>, i: nat, n: nat)
    requires DifferInBurst(vs, ws, i, n)
    ensures Pack(XorEach(vs[i..i + n], ws[i..i + n])) != 0
  {
    if Pack(XorEach(vs[i..i + n], ws[i..i + n])) == 0 {
      PackZeroMeansEqual(vs[i..i + n], ws[i..i + n]);
      EqualInParts(vs, ws, i, n);
    }
  }

  lemma PackZeroMeansEqual(v: seq<nat>, w: seq<nat>)
    requires |v| == |w| && AllSymbols(v) && AllSymbols(w) && Pack(XorEach(v, w)) == 0
    ensures v == w
  {
    forall j | 0 <= j < |v| ensures v[j] == w[j] {
      PackZero(XorEach(v, w), j);
      XorZeroMeansEqual(v[j], w[j]);
    }
  }

  lemma EqualInParts(vs: seq<nat>, ws: seq<nat>, i: nat, n: nat)
    requires |vs| == |ws| && i + n <= |vs|
    requires vs[..i] == ws[..i] && vs[i..i + n] == ws[i..i + n] && vs[i + n..] == ws[i + n..]
    ensures vs == ws
  {
    assert vs == vs[..i] + vs[i..i + n] + vs[i + n..] && ws == ws[..i] + ws[i..i + n] + ws[i + n..];
  }

  lemma {:induction false} FeedBurst(i: nat, d: seq<nat>, k: nat)
    requires AllSymbols(d) && |d| <= 6 && Pack(d) != 0
    ensures Feed(0, Zeros(i) + d + Zeros(k)) != 0
  {
    FeedAppend(0, Zeros(i) + d, Zeros(k));
    FeedAppend(0, Zeros(i), d);
    ZeroIntoZero(i);
    FirstSixAreStored(d);
    PackBound(d);
    Pow2Monotone(5 * |d|, 30);
    NonZeroStays(Pack(d), k);
  }

  /** A burst of at most six wrong symbols, anywhere in a sequence of any length, always
      ends with a different register. */
  lemma {:induction false} BurstChangesRegister(vs: seq<nat>, ws: seq<nat>, i: nat, n: nat)
    requires DifferInBurst(vs, ws, i, n) && n <= 6
    ensures Feed(1, vs) != Feed(1, ws)
  {
    hide Feed, Xor, Pack, Zeros;
    XorSymbols(vs[i..i + n], ws[i..i + n]);
    BurstDifference(vs, ws, i, n);
    BurstIsNotZero(vs, ws, i, n);
    FeedBurst(i, XorEach(vs[i..i + n], ws[i..i + n]), |vs| - i - n);
    XorSame(1);
    FeedLinear(1, 1, vs, ws);
    XorSame(Feed(1, vs));
  }

  lemma BurstInContext(pre: seq<nat>, vs: seq<nat>, ws: seq<nat>, post: seq<nat>, i: nat, n: nat)
    requires DifferInBurst(vs, ws, i, n)
    ensures DifferInBurst(pre + vs + post, pre + ws + post, |pre| + i, n)
  {
    hide AllSymbols;
    SlicesInContext(pre, vs, post, i, n);
    SlicesInContext(pre, ws, post, i, n);
  }

  lemma SlicesInContext(pre: seq<nat>, vs: seq<nat>, post: seq<nat>, i: nat, n: nat)
    requires i + n <= |vs|
    ensures var v := pre + vs + post;
            && v[..|pre| + i] == pre + vs[..i]
            && v[|pre| + i..|pre| + i + n] == vs[i..i + n]
            && v[|pre| + i + n..] == vs[i + n..] + post
            && v[|pre|..|pre| + |vs|] == vs
  {
  }

  /** Errors in a received code word are noticed: if a valid word and a received word
      differ only within six consecutive symbols, the received one does not verify. A
      single wrong symbol is the case of a burst of one. */
  lemma BurstIsDetected(hrp: string, word: seq<nat>, received: seq<nat>, spec: Spec, i: nat, n: nat)
    requires Verifies(hrp, word, spec)
    requires DifferInBurst(word, received, i, n) && n <= 6
    ensures !Verifies(hrp, received, spec)
  {
    var h := HrpNumbers(hrp);
    BurstInContext(h, word, received, [], i, n);
    assert h + word + [] == h + word && h + received + [] == h + received;
    BurstChangesRegister(h + word, h + received, |h| + i, n);
  }

  lemma {:induction false} XorCancel(p: nat, q: nat, c: nat)
    requires Xor(p, c) == Xor(q, c)
    ensures p == q
  {
    XorAssoc(p, c, c);
    XorAssoc(q, c, c);
    XorSame(c);
    XorComm(p, 0);
    XorComm(q, 0);
  }

  /** Changing the data within six consecutive symbols changes the created checksum. */
  lemma BurstChangesChecksum(hrp: string, data: seq<nat>, data': seq<nat>, spec: Spec, i: nat, n: nat)
    requires DifferInBurst(data, data', i, n) && n <= 6
    ensures ChecksumWord(hrp, data, spec) != ChecksumWord(hrp, data', spec)
  {
    hide Feed, Xor, Zeros, HrpNumbers;
    var h, z := HrpNumbers(hrp), Zeros(6);
    BurstInContext(h, data, data', z, i, n);
    BurstChangesRegister(h + data + z, h + data' + z, |h| + i, n);
    if ChecksumWord(hrp, data, spec) == ChecksumWord(hrp, data', spec) {
      XorCancel(Feed(1, h + data + z), Feed(1, h + data' + z), ConstOf(spec));
    }
  }

  // ----- the generator polynomial -----

  /** Twice a symbol in the field of 32 elements of BIP-173: without carries, and with 32
      replaced by 8 and 1. */
  function Twice(v: int): int {
    if v < 16 then 2 * v else if v / 4 % 2 == 1 then 2 * v - 32 - 8 + 1 else 2 * v - 32 + 8 + 1
  }

  ghost predicate AllTwice(vs: seq<nat>, ws: seq<nat>) {
    |vs| == |ws| && forall i :: 0 <= i < |vs| ==> vs[i] == Twice(ws[i])
  }

  /** The generator polynomial of BIP-173, x^6 + 29 x^5 + 22 x^4 + 20 x^3 + 21 x^2 + 29 x + 18,
      highest coefficient first, and its doubles. */
  const MULTIPLES: seq<seq<nat>> := [
    [1, 29, 22, 20, 21, 29, 18],
    [2, 19, 5, 1, 3, 19, 13],
    [4, 15, 10, 2, 6, 15, 26],
    [8, 30, 20, 4, 12, 30, 29],
    [16, 21, 1, 8, 24, 21, 19]]

  /** The word a single bit of the top symbol mixes in. */
  lemma {:induction false} MixOfOneBit(k: nat)
    requires k < 5
    ensures Mix(Pow2(k), 5) == GENERATOR[k]
  {
    hide Xor;
    forall n: nat | n < 5 ensures Shr(Pow2(k), n) % 2 == 1 <==> n == k {
      OneBit(k, n);
    }
    MixUpTo(Pow2(k), k, 5);
  }

  lemma {:induction false} OneBit(k: nat, n: nat)
    ensures Shr(Pow2(k), n) % 2 == 1 <==> n == k
  {
    if k > 0 && n > 0 {
      OneBit(k - 1, n - 1);
    } else if n > 0 {
      ShrZero(n - 1);
    }
  }

  lemma {:induction false} MixUpTo(top: nat, k: nat, n: nat)
    requires k < 5 && n <= 5
    requires forall m: nat :: m < 5 ==> (Shr(top, m) % 2 == 1 <==> m == k)
    ensures Mix(top, n) == if n <= k then 0 else GENERATOR[k]
  {
    if n > 0 {
      MixUpTo(top, k, n - 1);
      XorZero(Mix(top, n - 1));
    }
  }

  /** One step on a register with `c` above and `low` below bit 25. */
  lemma {:induction false} StepOfParts(c: nat, low: nat, g: nat, v: nat)
    requires low < Pow2(25) && v < 32 && Mix(c, 5) == g && g == 32 * low + v
    ensures Step(Shl(c, 25) + low, v) == 0
  {
    hide Xor, Mix, Low, Shr;
    ShrLowUnique(Shl(c, 25) + low, c, low, 25);
    ShlIsProduct(low, 5);
    Pow2At30();
    XorFillsLow(low, v, 5);
    XorAssoc(Shl(low, 5), g, v);
    XorAssoc(Shl(low, 5), v, v);
    XorSame(v);
    XorZero(Shl(low, 5));
    XorAssoc(Shl(low, 5), Shl(low, 5), 0);
    XorSame(Shl(low, 5));
  }

  lemma {:induction false} PackOneMore(ws: seq<nat>, v: nat)
    ensures Pack(ws + [v]) == 32 * Pack(ws) + v
  {
    assert (ws + [v])[..|ws|] == ws;
    ShlIsProduct(Pack(ws), 5);
    Pow2At30();
  }

  lemma PackOfSix(g: seq<nat>)
    requires |g| >= 6
    ensures Pack(g[..6]) == 32 * (32 * (32 * (32 * (32 * g[0] + g[1]) + g[2]) + g[3]) + g[4]) + g[5]
  {
    hide Pack;
    PackOneMore([], g[0]);
    PackOneMore(g[..1], g[1]);
    PackOneMore(g[..2], g[2]);
    PackOneMore(g[..3], g[3]);
    PackOneMore(g[..4], g[4]);
    PackOneMore(g[..5], g[5]);
    assert [] + [g[0]] == g[..1] && g[..1] + [g[1]] == g[..2] && g[..2] + [g[2]] == g[..3];
    assert g[..3] + [g[3]] == g[..4] && g[..4] + [g[4]] == g[..5] && g[..5] + [g[5]] == g[..6];
    NothingPacked();
  }

  lemma NothingPacked()
    ensures Pack([]) == 0
  {
  }

  lemma {:induction false} FeedOne(chk: nat, v: nat)
    ensures Feed(chk, [v]) == Step(chk, v)
  {
    assert [v][..0] == [];
  }

  /** Seven symbols of which the first selects the word that the others spell. */
  lemma {:induction false} SevenLeaveNothing(g: seq<nat>, k: nat, low: nat)
    requires |g| == 7 && AllSymbols(g) && k < 5 && g[0] == Pow2(k)
    requires low == 32 * (32 * (32 * (32 * g[1] + g[2]) + g[3]) + g[4]) + g[5] && GENERATOR[k] == 32 * low + g[6]
    ensures Feed(0, g) == 0
  {
    hide Xor, Mix, Low, Shr, Step, Feed, Pack, Pow2;
    assert forall i :: 0 <= i < 7 ==> IsSymbol(g[i]);
    assert g == g[..6] + [g[6]];
    FeedAppend(0, g[..6], [g[6]]);
    FirstSixAreStored(g[..6]);
    PackOfSix(g);
    FeedOne(Pack(g[..6]), g[6]);
    MixOfOneBit(k);
    Pow2At30();
    ShlIsProduct(Pow2(k), 25);
    StepOfParts(Pow2(k), low, GENERATOR[k], g[6]);
  }

  /** The code words of the checksum are what BIP-173 says: the generator polynomial and its
      doubles leave nothing in the register, and so do, by FeedLinear, all their sums. */
  lemma GeneratorLeavesNothing()
    ensures forall k :: 0 <= k < 5 ==> Feed(0, MULTIPLES[k]) == 0
    ensures MULTIPLES[0] == [1, 29, 22, 20, 21, 29, 18]
    ensures forall j, k :: 0 <= j < k < 5 && k == j + 1 ==> AllTwice(MULTIPLES[k], MULTIPLES[j])
  {
    hide Feed;
    assert Pow2(0) == 1 && Pow2(1) == 2 && Pow2(2) == 4 && Pow2(3) == 8 && Pow2(4) == 16;
    SevenLeaveNothing(MULTIPLES[0], 0, 0x3b6a57b2 / 32);
    SevenLeaveNothing(MULTIPLES[1], 1, 0x26508e6d / 32);
    SevenLeaveNothing(MULTIPLES[2], 2, 0x1ea119fa / 32);
    SevenLeaveNothing(MULTIPLES[3], 3, 0x3d4233dd / 32);
    SevenLeaveNothing(MULTIPLES[4], 4, 0x2a1462b3 / 32);
  }
}
