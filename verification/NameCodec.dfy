/** DNN codes: a block number and a transaction position as
    n{word}{word}[{cycle}]{letters}, read back by greedy longest match. */
module NameCodec {
  import opened Arith
  import opened Int64
  import opened PositionCodec
  import opened WordList
  import opened Wrappers

  /** A code taken apart. */
  datatype Parts = Parts(word1: string, word2: string, digits: string, letters: string)

  function Build(p: Parts): string {
    "n" + p.word1 + p.word2 + p.digits + p.letters
  }

  lemma BuildNested(p: Parts)
    ensures Build(p) == "n" + Tail(p) && Build(p)[1..] == Tail(p)
  {
    Assoc3("n" + p.word1 + p.word2, p.digits, p.letters);
    Assoc3("n" + p.word1, p.word2, p.digits + p.letters);
    Assoc3("n", p.word1, p.word2 + (p.digits + p.letters));
  }

  lemma Assoc3(a: string, b: string, c: string)
    ensures a + b + c == a + (b + c)
  {
  }

  /** A usable word list: non-empty words, and indices of two words fit 64 bits. */
  ghost predicate IsWordList(words: seq<string>) {
    |words| >= 1 && CycleSize(words) <= MAX_INT64 && NoEmptyWord(words)
  }

  // ----- encoding -----

  function CycleSize(words: seq<string>): nat {
    Times(|words|, |words|)
  }

  lemma CycleSizePositive(words: seq<string>)
    requires |words| >= 1
    ensures CycleSize(words) >= |words|
  {
    TimesMonotone(1, |words|, |words|);
    assert Times(1, |words|) == |words|;
  }

  /** A block number as cycle, first word index and second word index. */
  function CycleIndex(words: seq<string>, block: nat): nat
    requires |words| >= 1
  {
    CycleSizePositive(words);
    Quot(block, CycleSize(words))
  }

  function Index1(words: seq<string>, block: nat): (i: nat)
    requires |words| >= 1
    ensures i < |words|
  {
    CycleSizePositive(words);
    QuotLess(Rem(block, CycleSize(words)), |words|, |words|);
    Quot(Rem(block, CycleSize(words)), |words|)
  }

  function Index2(words: seq<string>, block: nat): (i: nat)
    requires |words| >= 1
    ensures i < |words|
  {
    CycleSizePositive(words);
    Rem(Rem(block, CycleSize(words)), |words|)
  }

  function BlockAt(words: seq<string>, cycle: nat, i: nat, j: nat): nat {
    Times(cycle, CycleSize(words)) + (Times(i, |words|) + j)
  }

  lemma BlockOfIndices(words: seq<string>, block: nat)
    requires |words| >= 1
    ensures BlockAt(words, CycleIndex(words, block), Index1(words, block), Index2(words, block)) == block
    ensures CycleIndex(words, block) <= block
  {
    CycleSizePositive(words);
    QuotRemSplit(block, CycleSize(words));
    QuotRemSplit(Rem(block, CycleSize(words)), |words|);
    QuotAtMost(block, CycleSize(words));
  }

  lemma IndicesOfBlock(words: seq<string>, cycle: nat, i: nat, j: nat)
    requires i < |words| && j < |words|
    ensures var b := BlockAt(words, cycle, i, j);
            CycleIndex(words, b) == cycle && Index1(words, b) == i && Index2(words, b) == j
  {
    var n := Times(i, |words|) + j;
    TimesMonotone(i + 1, |words|, |words|);
    assert n < CycleSize(words);
    QuotRemUnique(cycle, n, CycleSize(words));
    QuotRemUnique(i, j, |words|);
  }

  function PartsOf(words: seq<string>, block: nat, position: nat): Parts
    requires |words| >= 1
  {
    var cycle := CycleIndex(words, block);
    Parts(words[Index1(words, block)], words[Index2(words, block)],
          if cycle > 0 then Decimal(cycle) else "", Letters(position))
  }

  function Encoding(words: seq<string>, block: int, position: int): Option<string>
    requires |words| >= 1
  {
    if block < 0 || position < 1 then None else Some(Build(PartsOf(words, block, position)))
  }

  method Encode(words: seq<string>, blockNumber: int, position: int) returns (r: Option<string>)
    requires IsWordList(words) && InInt64(blockNumber) && InInt64(position)
    ensures r == Encoding(words, blockNumber, position)
  {
    if blockNumber < 0 {
      return None;
    }
    if position < 1 {
      return None;
    }
    var cycleSize := |words| * |words|;
    TimesIsProduct(|words|, |words|);
    CycleSizePositive(words);
    var cycle, blockInCycle := blockNumber / cycleSize, blockNumber % cycleSize;
    QuotRemAreDivMod(blockNumber, cycleSize);
    QuotRemAreDivMod(blockInCycle, |words|);
    assert blockInCycle / |words| == Index1(words, blockNumber) && blockInCycle % |words| == Index2(words, blockNumber);
    var word1, word2 := words[blockInCycle / |words|], words[blockInCycle % |words|];
    var posStr := EncodePosition(position);
    if cycle > 0 {
      return Some("n" + word1 + word2 + Decimal(cycle) + posStr);
    }
    assert "n" + word1 + word2 + "" + posStr == "n" + word1 + word2 + posStr;
    return Some("n" + word1 + word2 + posStr);
  }

  // ----- decoding -----

  /** How many digits a string starts with. */
  function DigitCount(s: string): (n: nat)
    ensures n <= |s| && AllDigits(s[..n]) && (n < |s| ==> !IsDigit(s[n]))
  {
    if s == "" || !IsDigit(s[0]) then 0 else 1 + DigitCount(s[1..])
  }

  /** Take a code apart, if it has the right shape. */
  function Parse(words: seq<string>, code: string): (r: Option<Parts>)
    ensures r.Some? ==> IsParse(words, r.value)
  {
    if |code| < 2 || code[0] != 'n' || BestMatch(words, code[1..]) == "" then None
    else
      BestMatchIsLongest(words, code[1..]);
      ParseSecond(words, BestMatch(words, code[1..]), Rest(words, code[1..]))
  }

  function ParseSecond(words: seq<string>, word1: string, rest: string): (r: Option<Parts>)
    requires word1 in words
    ensures r.Some? ==> IsParse(words, r.value)
  {
    if BestMatch(words, rest) == "" then None
    else
      BestMatchIsLongest(words, rest);
      ParseTail(words, word1, BestMatch(words, rest), Rest(words, rest))
  }

  function ParseTail(words: seq<string>, word1: string, word2: string, rest: string): (r: Option<Parts>)
    requires word1 in words && word2 in words
    ensures r.Some? ==> IsParse(words, r.value)
  {
    var n := DigitCount(rest);
    if n == |rest| then None else Some(Parts(word1, word2, rest[..n], rest[n..]))
  }

  function Tail(p: Parts): string {
    p.word1 + (p.word2 + (p.digits + p.letters))
  }

  ghost predicate IsParse(words: seq<string>, p: Parts) {
    && p.word1 in words && p.word2 in words
    && AllDigits(p.digits) && p.letters != "" && !IsDigit(p.letters[0])
  }

  function Rest(words: seq<string>, s: string): string
  {
    BestMatchIsLongest(words, s);
    s[|BestMatch(words, s)|..]
  }

  /** The block number the words and the cycle digits spell, without any bound. */
  function BlockOf(words: seq<string>, p: Parts): nat
    requires p.word1 in words && p.word2 in words && AllDigits(p.digits)
  {
    BlockAt(words, DigitsValue(p.digits), FirstIndex(words, p.word1), FirstIndex(words, p.word2))
  }

  function DecodedParts(words: seq<string>, parts: Option<Parts>): Option<(int, int)>
    requires parts.Some? ==> IsParse(words, parts.value)
  {
    if parts.None? || DigitsValue(parts.value.digits) > MAX_INT64 || Decoded(parts.value.letters).None? then None
    else Some((Wrap64(BlockOf(words, parts.value)), Decoded(parts.value.letters).value))
  }

  function Decoding(words: seq<string>, code: string): Option<(int, int)> {
    DecodedParts(words, Parse(words, code))
  }

  lemma ParseIsBuild(words: seq<string>, code: string)
    requires Parse(words, code).Some?
    ensures code == Build(Parse(words, code).value)
  {
    hide BestMatch, Build, Parse, ParseSecond;
    var p := Parse(words, code).value;
    FirstIsHead(words, code);
    SecondIsTail(words, p.word1, Rest(words, code[1..]));
    WordAndRest(words, code[1..]);
    assert code == "n" + code[1..];
    BuildNested(p);
  }

  lemma {:induction false} FirstIsHead(words: seq<string>, code: string)
    requires Parse(words, code).Some?
    ensures code != "" && code[0] == 'n' && Parse(words, code).value.word1 == BestMatch(words, code[1..])
    ensures BestMatch(words, code[1..]) in words
    ensures Parse(words, code) == ParseSecond(words, BestMatch(words, code[1..]), Rest(words, code[1..]))
  {
    BestMatchIsLongest(words, code[1..]);
    SecondIsTail(words, BestMatch(words, code[1..]), Rest(words, code[1..]));
  }

  lemma SecondIsTail(words: seq<string>, word1: string, rest: string)
    requires word1 in words && ParseSecond(words, word1, rest).Some?
    ensures var p := ParseSecond(words, word1, rest).value;
            p.word1 == word1 && p.word2 + (p.digits + p.letters) == rest
  {
    hide BestMatch;
    BestMatchIsLongest(words, rest);
    WordAndRest(words, rest);
    TailJoins(words, word1, BestMatch(words, rest), Rest(words, rest));
  }

  lemma TailJoins(words: seq<string>, word1: string, word2: string, rest: string)
    requires word1 in words && word2 in words && ParseTail(words, word1, word2, rest).Some?
    ensures var p := ParseTail(words, word1, word2, rest).value; p.digits + p.letters == rest
  {
    var n := DigitCount(rest);
    assert rest[..n] + rest[n..] == rest;
  }

  lemma {:induction false} WordAndRest(words: seq<string>, s: string)
    ensures s == BestMatch(words, s) + Rest(words, s)
  {
    BestMatchIsLongest(words, s);
  }

  lemma {:induction false} ParseDigits(digits: string)
    requires AllDigits(digits) && digits != ""
    ensures ParseInt(digits) == if DigitsValue(digits) > MAX_INT64 then None else Some(DigitsValue(digits))
  {
    assert IsDigit(digits[0]);
  }

  method Decode(words: seq<string>, code: string) returns (r: Option<(int, int)>)
    requires IsWordList(words)
    ensures r == Decoding(words, code)
  {
    if |code| < 2 || code[0] != 'n' {
      return None;
    }
    var word1, rest := MatchWord(words, code[1..]);
    if word1 == "" {
      return None;
    }
    var word2: string;
    word2, rest := MatchWord(words, rest);
    if word2 == "" {
      return None;
    }
    r := DecodeSuffix(words, word1, word2, rest);
  }

  /** What follows the words: optional cycle digits, then position letters. */
  method DecodeSuffix(words: seq<string>, word1: string, word2: string, suffix: string) returns (r: Option<(int, int)>)
    requires word1 in words && word2 in words
    ensures r == DecodedParts(words, ParseTail(words, word1, word2, suffix))
  {
    var rest := suffix;
    var digitCount := ScanDigits(rest);
    var digits := rest[..digitCount];
    var cycle := 0;
    if digitCount > 0 {
      ParseDigits(digits);
      var parsed := ParseInt(digits);
      if parsed.None? {
        return None;
      }
      cycle := parsed.value;
      rest := rest[digitCount..];
    }
    if rest == "" {
      return None;
    }
    var position := DecodePosition(rest);
    if position.None? {
      return None;
    }
    var word1Index := FindWordIndex(words, word1);
    var word2Index := FindWordIndex(words, word2);
    var blockNumber := CombineBlock(words, cycle, word1Index, word2Index);
    return Some((blockNumber, position.value));
  }

  /** The digit scan. */
  method ScanDigits(s: string) returns (n: nat)
    ensures n == DigitCount(s)
  {
    n := 0;
    while n < |s| && '0' <= s[n] <= '9'
      invariant n <= |s|
      invariant DigitCount(s) == n + DigitCount(s[n..])
    {
      assert s[n..][0] == s[n] && s[n..][1..] == s[n + 1..];
      n := n + 1;
    }
  }

  /** The block arithmetic, wrapping after the multiplication and after the addition. */
  method CombineBlock(words: seq<string>, cycle: nat, word1Index: nat, word2Index: nat) returns (blockNumber: int)
    ensures blockNumber == Wrap64(BlockAt(words, cycle, word1Index, word2Index))
  {
    var base := |words|;
    var blockInCycle := word1Index * base + word2Index;
    TimesIsProduct(word1Index, base);
    TimesIsProduct(base, base);
    TimesIsProduct(cycle, base * base);
    WrapInside(cycle * (base * base), 1, blockInCycle);
    blockNumber := Wrap64(Wrap64(cycle * (base * base)) + blockInCycle);
  }

  // ----- decoding undoes encoding -----

  lemma DigitsBefore(digits: string, letters: string, n: nat)
    requires n <= |digits + letters| && letters != ""
    ensures n < |digits| ==> (digits + letters)[n] == digits[n]
    ensures n > |digits| ==> (digits + letters)[..n][|digits|] == letters[0]
  {
  }

  lemma {:induction false} DigitCountOf(digits: string, letters: string)
    requires AllDigits(digits) && letters != "" && !IsDigit(letters[0])
    ensures DigitCount(digits + letters) == |digits|
    ensures (digits + letters)[..|digits|] == digits && (digits + letters)[|digits|..] == letters
  {
    var s, n := digits + letters, DigitCount(digits + letters);
    DigitsBefore(digits, letters, n);
  }

  /** Longest match recovers both words and the rest, whatever digits and letters follow. */
  lemma {:induction false} ParseOfBuild(words: seq<string>, i: nat, j: nat, digits: string, letters: string)
    requires PrefixFree(words) && NoEmptyWord(words) && i < |words| && j < |words|
    requires AllDigits(digits) && AllLetters(letters) && letters != ""
    ensures var p := Parts(words[i], words[j], digits, letters);
            Parse(words, Build(p)) == Some(p) && FirstIndex(words, words[i]) == i && FirstIndex(words, words[j]) == j
  {
    var tail2 := digits + letters;
    BuildNested(Parts(words[i], words[j], digits, letters));
    MatchAndRest(words, i, words[j] + tail2);
    MatchAndRest(words, j, tail2);
    assert IsLetter(letters[0]);
    DigitCountOf(digits, letters);
  }

  lemma {:induction false} MatchAndRest(words: seq<string>, i: nat, tail: string)
    requires PrefixFree(words) && NoEmptyWord(words) && i < |words|
    ensures BestMatch(words, words[i] + tail) == words[i] != "" && Rest(words, words[i] + tail) == tail
    ensures FirstIndex(words, words[i]) == i
  {
    MatchIsUnambiguous(words, i, tail);
    assert (words[i] + tail)[|words[i]|..] == tail;
  }

  lemma DecodeBuilt(words: seq<string>, block: nat, position: nat)
    requires IsWordList(words) && PrefixFree(words)
    requires block <= MAX_INT64 && 1 <= position <= MAX_INT64
    ensures Decoding(words, Build(PartsOf(words, block, position))) == Some((block, position))
  {
    var p := PartsOf(words, block, position);
    ParseOfEncode(words, block, position);
    BlockOfIndices(words, block);
    ValueOfLetters(position);
    DecodingOfParts(words, Build(p), p);
  }

  ghost predicate RoundTripsAt(words: seq<string>, block: int, position: int)
    requires |words| >= 1
  {
    && Encoding(words, block, position).Some?
    && Decoding(words, Encoding(words, block, position).value) == Some((block, position))
  }

  /** For every block and position within 64 bits and every prefix-free word list, decoding
      an encoded pair gives the pair. */
  lemma DecodeOfEncode(words: seq<string>, block: int, position: int)
    requires IsWordList(words) && PrefixFree(words)
    requires 0 <= block <= MAX_INT64 && 1 <= position <= MAX_INT64
    ensures RoundTripsAt(words, block, position)
  {
    DecodeBuilt(words, block, position);
  }

  lemma DecodingOfParts(words: seq<string>, code: string, p: Parts)
    requires Parse(words, code) == Some(p)
    ensures DigitsValue(p.digits) <= MAX_INT64 && Decoded(p.letters).Some? ==>
      Decoding(words, code) == Some((Wrap64(BlockOf(words, p)), Decoded(p.letters).value))
  {
  }

  /** An encoded pair is taken apart into exactly the parts it was built from. */
  lemma {:induction false} ParseOfEncode(words: seq<string>, block: nat, position: nat)
    requires |words| >= 1 && PrefixFree(words) && NoEmptyWord(words) && position >= 1
    ensures var p := PartsOf(words, block, position);
            && Parse(words, Build(p)) == Some(p)
            && FirstIndex(words, p.word1) == Index1(words, block)
            && FirstIndex(words, p.word2) == Index2(words, block)
            && AllDigits(p.digits) && DigitsValue(p.digits) == CycleIndex(words, block)
  {
    var p := PartsOf(words, block, position);
    DecimalValue(CycleIndex(words, block));
    ParseOfBuild(words, Index1(words, block), Index2(words, block), p.digits, p.letters);
  }

  // ----- the code, spelled out -----

  lemma BlockAtIs(words: seq<string>, cycle: nat, i: nat, j: nat)
    ensures BlockAt(words, cycle, i, j) == cycle * (|words| * |words|) + i * |words| + j
  {
    TimesIsProduct(|words|, |words|);
    TimesIsProduct(cycle, |words| * |words|);
    TimesIsProduct(i, |words|);
  }

  /** Block i * W + j of a cycle of W * W blocks is written with word i and then word j of the
      W words, the cycle number if it is not the first, and the letters of the position. */
  lemma {:induction false} EncodingSpells(words: seq<string>, cycle: nat, i: nat, j: nat, position: nat)
    requires i < |words| && j < |words| && position >= 1
    ensures Encoding(words, cycle * (|words| * |words|) + i * |words| + j, position)
         == Some("n" + words[i] + words[j] + (if cycle > 0 then Decimal(cycle) else "") + Letters(position))
    ensures forall b, p :: Encoding(words, b, p).None? <==> b < 0 || p < 1
  {
    BlockAtIs(words, cycle, i, j);
    IndicesOfBlock(words, cycle, i, j);
  }

  /** And what is written in this form, with any cycle digits, is read as that block, with
      64-bit wrap-around; cycle digits beyond 64 bits are an error. */
  lemma {:induction false} DecodingSpells(words: seq<string>, i: nat, j: nat, digits: string, letters: string, block: nat)
    requires PrefixFree(words) && NoEmptyWord(words) && i < |words| && j < |words|
    requires AllDigits(digits) && AllLetters(letters) && letters != ""
    requires block == DigitsValue(digits) * (|words| * |words|) + i * |words| + j
    ensures Decoding(words, "n" + words[i] + words[j] + digits + letters)
         == if DigitsValue(digits) > MAX_INT64 then None else Some((Wrap64(block), Wrap64(LettersValue(letters))))
  {
    var p := Parts(words[i], words[j], digits, letters);
    ParseOfBuild(words, i, j, digits, letters);
    assert IsParse(words, p);
    BlockOfParts(words, i, j, p, block);
    DecodingIsOfParts(words, Build(p), p);
  }

  lemma {:induction false} BlockOfParts(words: seq<string>, i: nat, j: nat, p: Parts, block: nat)
    requires p.word1 in words && p.word2 in words && AllDigits(p.digits)
    requires FirstIndex(words, p.word1) == i && FirstIndex(words, p.word2) == j
    requires block == DigitsValue(p.digits) * (|words| * |words|) + i * |words| + j
    ensures BlockOf(words, p) == block
  {
    BlockAtIs(words, DigitsValue(p.digits), i, j);
  }

  lemma DecodingIsOfParts(words: seq<string>, code: string, p: Parts)
    requires Parse(words, code) == Some(p) && IsParse(words, p)
    ensures Decoding(words, code)
         == if DigitsValue(p.digits) > MAX_INT64 || Decoded(p.letters).None? then None
            else Some((Wrap64(BlockOf(words, p)), Decoded(p.letters).value))
  {
  }

  // ----- encoding undoes decoding, exactly when -----

  /** Cycle digits as the encoder would write them. */
  predicate CanonicalCycle(digits: string) {
    digits == "" || digits[0] != '0'
  }

  /** What a code names before 64-bit wrap-around fits 64 bits. */
  ghost predicate Fits(words: seq<string>, p: Parts)
    requires p.word1 in words && p.word2 in words && AllDigits(p.digits) && AllLetters(p.letters)
  {
    LettersValue(p.letters) <= MAX_INT64 && BlockOf(words, p) <= MAX_INT64
  }

  lemma ReencodeCanonical(words: seq<string>, p: Parts)
    requires p.word1 in words && p.word2 in words
    requires AllDigits(p.digits) && AllLetters(p.letters) && CanonicalCycle(p.digits)
    ensures PartsOf(words, BlockOf(words, p), LettersValue(p.letters)) == p
  {
    IndicesOfBlock(words, DigitsValue(p.digits), FirstIndex(words, p.word1), FirstIndex(words, p.word2));
    LettersOfValue(p.letters);
    if p.digits != "" {
      CanonicalDigits(p.digits);
      ValueOfLeading(p.digits);
    }
  }

  lemma CycleIsCanonical(words: seq<string>, block: nat, position: nat)
    requires |words| >= 1
    ensures CanonicalCycle(PartsOf(words, block, position).digits)
  {
    LeadingDigit(CycleIndex(words, block));
  }

  /** Whenever a code decodes, encoding the result gives the same code back exactly when
      its cycle digits are absent or have no leading zero, and its position letters and
      block number fit 64 bits (up to 13 letters always do). */
  lemma EncodeOfDecode(words: seq<string>, code: string)
    requires IsWordList(words) && PrefixFree(words)
    requires Decoding(words, code).Some?
    ensures Parse(words, code).Some? && AllLetters(Parse(words, code).value.letters)
    ensures var (block, position) := Decoding(words, code).value;
            var p := Parse(words, code).value;
            Encoding(words, block, position) == Some(code) <==> CanonicalCycle(p.digits) && Fits(words, p)
  {
    var (block, position) := Decoding(words, code).value;
    var p := Parse(words, code).value;
    if CanonicalCycle(p.digits) && Fits(words, p) {
      CanonicalReencodes(words, code, p);
    }
    if Encoding(words, block, position) == Some(code) {
      EncodedFits(words, block, position);
    }
  }

  lemma CanonicalReencodes(words: seq<string>, code: string, p: Parts)
    requires IsWordList(words) && Parse(words, code) == Some(p) && AllLetters(p.letters)
    requires CanonicalCycle(p.digits)
    ensures Encoding(words, BlockOf(words, p), LettersValue(p.letters)) == Some(code)
  {
    ParseIsBuild(words, code);
    ReencodeCanonical(words, p);
    NonEmptyIsPositive(p.letters);
  }

  lemma {:induction false} NonEmptyIsPositive(s: string)
    requires AllLetters(s) && s != ""
    ensures LettersValue(s) >= 1
  {
  }

  lemma EncodedFits(words: seq<string>, block: nat, position: nat)
    requires |words| >= 1 && PrefixFree(words) && NoEmptyWord(words)
    requires 1 <= position <= MAX_INT64 && block <= MAX_INT64
    ensures var p := PartsOf(words, block, position);
            && Parse(words, Build(p)) == Some(p)
            && CanonicalCycle(p.digits) && AllLetters(p.letters) && Fits(words, p)
  {
    ParseOfEncode(words, block, position);
    CycleIsCanonical(words, block, position);
    BlockOfIndices(words, block);
    ValueOfLetters(position);
  }

  // ----- the dictionary condition is not only sufficient -----

  /** Words of at most twelve lowercase letters. */
  ghost predicate ShortLowercase(words: seq<string>) {
    forall i :: 0 <= i < |words| ==> 1 <= |words[i]| <= 12 && AllLetters(words[i])
  }

  ghost predicate RoundTripsEverywhere(words: seq<string>)
    requires |words| >= 1
  {
    forall b, p :: 0 <= b <= MAX_INT64 && 1 <= p <= MAX_INT64 ==> RoundTripsAt(words, b, p)
  }

  /** The code of word pair (0, i) with letters that continue words[i] to words[j]. */
  function Clash(words: seq<string>, i: nat, j: nat): Parts
    requires i < |words| && j < |words| && words[i] <= words[j]
  {
    Parts(words[0], words[i], "", words[j][|words[i]|..] + "a")
  }

  lemma ClashIsEncoded(words: seq<string>, i: nat, j: nat)
    requires IsWordList(words) && ShortLowercase(words)
    requires i < |words| && j < |words| && words[i] <= words[j]
    ensures AllLetters(Clash(words, i, j).letters)
    ensures 1 <= LettersValue(Clash(words, i, j).letters) <= MAX_INT64
    ensures Encoding(words, i, LettersValue(Clash(words, i, j).letters)) == Some(Build(Clash(words, i, j)))
  {
    var letters := Clash(words, i, j).letters;
    assert AllLetters(words[j]);
    forall k | 0 <= k < |letters| ensures IsLetter(letters[k]) {
      if k < |words[j]| - |words[i]| {
        assert letters[k] == words[j][|words[i]| + k];
      }
    }
    ShortLettersFit(letters);
    LettersOfValue(letters);
    IndicesOfBlock(words, 0, 0, i);
  }

  lemma PiecesAreLetters(s: string, a: string, b: string)
    requires s == a + b
    ensures AllLetters(s) <==> AllLetters(a) && AllLetters(b)
  {
    if AllLetters(s) {
      assert forall i :: 0 <= i < |a| ==> a[i] == s[i];
      assert forall i :: 0 <= i < |b| ==> b[i] == s[|a| + i];
    }
  }

  lemma LettersOnlyCode(words: seq<string>, i: nat, j: nat)
    requires ShortLowercase(words) && i < |words| && j < |words| && words[i] <= words[j]
    requires AllLetters(Clash(words, i, j).letters)
    requires Parse(words, Build(Clash(words, i, j))).Some?
    ensures Parse(words, Build(Clash(words, i, j))).value.digits == ""
  {
    var c := Clash(words, i, j);
    var p := Parse(words, Build(c)).value;
    BuildNested(c);
    PiecesAreLetters(c.digits + c.letters, c.digits, c.letters);
    PiecesAreLetters(c.word2 + (c.digits + c.letters), c.word2, c.digits + c.letters);
    PiecesAreLetters(Tail(c), c.word1, c.word2 + (c.digits + c.letters));
    ParseIsBuild(words, Build(c));
    BuildNested(p);
    PiecesAreLetters(Tail(p), p.word1, p.word2 + (p.digits + p.letters));
    PiecesAreLetters(p.word2 + (p.digits + p.letters), p.word2, p.digits + p.letters);
    PiecesAreLetters(p.digits + p.letters, p.digits, p.letters);
    assert p.digits != "" ==> IsLetter(p.digits[0]);
  }

  lemma {:induction false} ClashIndices(words: seq<string>, p: Parts, i: nat)
    requires IsWordList(words) && i < |words|
    requires p.word1 in words && p.word2 in words && p.digits == ""
    requires Wrap64(BlockOf(words, p)) == i
    ensures FirstIndex(words, p.word1) == 0 && FirstIndex(words, p.word2) == i
  {
    var i1, i2 := FirstIndex(words, p.word1), FirstIndex(words, p.word2);
    TimesMonotone(i1 + 1, |words|, |words|);
    IndicesOfBlock(words, 0, i1, i2);
    IndicesOfBlock(words, 0, 0, i);
  }

  lemma {:induction false} ClashRest(words: seq<string>, i: nat, j: nat)
    requires i < |words| && j < |words| && words[i] <= words[j]
    requires BestMatch(words, Build(Clash(words, i, j))[1..]) == words[0]
    ensures Rest(words, Build(Clash(words, i, j))[1..]) == words[j] + "a"
  {
    var c := Clash(words, i, j);
    BuildNested(c);
    DropWord(words[0], words[i] + ("" + c.letters));
    ContinueWord(words[i], words[j]);
  }

  lemma DropWord(w: string, tail: string)
    ensures (w + tail)[|w|..] == tail
  {
  }

  lemma ContinueWord(w: string, x: string)
    requires w <= x
    ensures w + ("" + (x[|w|..] + "a")) == x + "a"
  {
    assert x == w + x[|w|..];
  }

  /** If one entry is a prefix of another, some pair does not survive the round trip. */
  lemma ClashBreaksRoundTrip(words: seq<string>, i: nat, j: nat)
    requires IsWordList(words) && ShortLowercase(words)
    requires i < |words| && j < |words| && i != j && words[i] <= words[j]
    requires words[i] == words[j] ==> j < i
    ensures 1 <= LettersValueOf(Clash(words, i, j)) <= MAX_INT64 && i <= MAX_INT64
    ensures !RoundTripsAt(words, i, LettersValueOf(Clash(words, i, j)))
  {
    CycleSizePositive(words);
    ClashIsEncoded(words, i, j);
    ClashDoesNotDecode(words, i, j);
  }

  lemma ClashDoesNotDecode(words: seq<string>, i: nat, j: nat)
    requires IsWordList(words) && ShortLowercase(words)
    requires i < |words| && j < |words| && i != j && words[i] <= words[j]
    requires words[i] == words[j] ==> j < i
    requires AllLetters(Clash(words, i, j).letters)
    ensures Decoding(words, Build(Clash(words, i, j))) != Some((i, LettersValue(Clash(words, i, j).letters)))
  {
    hide Build, Clash, Parse, Decoding, BestMatch, AllLetters, LettersValue, BlockOf, FirstIndex;
    var code := Build(Clash(words, i, j));
    if Decoding(words, code) == Some((i, LettersValue(Clash(words, i, j).letters))) {
      DecodedBlock(words, code, i, LettersValue(Clash(words, i, j).letters));
      LettersOnlyCode(words, i, j);
      ClashIndices(words, Parse(words, code).value, i);
      ParsedWords(words, code);
      ClashRest(words, i, j);
      GreedyTakesLonger(words, words[j], "a");
      LongerPrefixIsAll(words[i], words[j]);
      EarlierCopy(words, i, j);
    }
  }

  lemma LongerPrefixIsAll(a: string, b: string)
    requires a <= b && |a| >= |b|
    ensures a == b
  {
  }

  lemma DecodedBlock(words: seq<string>, code: string, block: int, position: int)
    requires Decoding(words, code) == Some((block, position))
    ensures Parse(words, code).Some? && Wrap64(BlockOf(words, Parse(words, code).value)) == block
  {
  }

  lemma {:induction false} ParsedWords(words: seq<string>, code: string)
    requires Parse(words, code).Some?
    ensures code != "" && Parse(words, code).value.word1 == BestMatch(words, code[1..])
    ensures Parse(words, code).value.word2 == BestMatch(words, Rest(words, code[1..]))
  {
  }

  lemma EarlierCopy(words: seq<string>, i: nat, j: nat)
    requires i < |words| && j < |words| && (words[i] == words[j] ==> j < i)
    ensures words[i] == words[j] ==> words[j] in words[..i]
  {
  }

  lemma {:induction false} GreedyTakesLonger(words: seq<string>, w: string, tail: string)
    requires w in words
    ensures |BestMatch(words, w + tail)| >= |w|
  {
    BestMatchIsLongest(words, w + tail);
    assert w <= w + tail;
  }

  function LettersValueOf(p: Parts): nat {
    if AllLetters(p.letters) then LettersValue(p.letters) else 0
  }

  lemma NotPrefixFreeBreaks(words: seq<string>, i: nat, j: nat)
    requires IsWordList(words) && ShortLowercase(words)
    requires i < |words| && j < |words| && i != j && words[i] <= words[j]
    ensures !RoundTripsEverywhere(words)
  {
    if words[i] == words[j] && i < j {
      ClashBreaksRoundTrip(words, j, i);
    } else {
      ClashBreaksRoundTrip(words, i, j);
    }
  }

  /** For lists of short lowercase words, the round trip holds for every block and
      position exactly when no word is a prefix of another. */
  lemma RoundTripExactlyWhenPrefixFree(words: seq<string>)
    requires IsWordList(words) && ShortLowercase(words)
    ensures RoundTripsEverywhere(words) <==> PrefixFree(words)
  {
    if PrefixFree(words) {
      forall b, p | 0 <= b <= MAX_INT64 && 1 <= p <= MAX_INT64 ensures RoundTripsAt(words, b, p) {
        DecodeOfEncode(words, b, p);
      }
    } else {
      var i, j :| 0 <= i < |words| && 0 <= j < |words| && i != j && words[i] <= words[j];
      NotPrefixFreeBreaks(words, i, j);
    }
  }
}
