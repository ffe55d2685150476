/** The name notations people type: name.n{block}[.{position}], name.b{block}[.{position}]
    and name.{code}, with the printers that write them. */
module Notation {
  import opened Int64
  import opened PositionCodec
  import opened WordList
  import opened NameCodec
  import opened Wrappers

  /** The encoder's settings; none of them ever changes. */
  datatype Encoder = Encoder(words: seq<string>, genesisBlock: int)
  datatype Name = Name(name: string, block: int, position: int)

  // ----- splitting at dots -----

  function Split(s: string): (parts: seq<string>)
    ensures |parts| >= 1
  {
    if s == "" then [""]
    else if s[0] == '.' then [""] + Split(s[1..])
    else
      var r := Split(s[1..]);
      [[s[0]] + r[0]] + r[1..]
  }

  function Join(parts: seq<string>): string
    requires |parts| >= 1
  {
    if |parts| == 1 then parts[0] else parts[0] + "." + Join(parts[1..])
  }

  predicate DotFree(s: string) {
    forall i :: 0 <= i < |s| ==> s[i] != '.'
  }

  lemma {:induction false} JoinOfSplit(s: string)
    ensures Join(Split(s)) == s
  {
    if s != "" {
      JoinOfSplit(s[1..]);
      var r := Split(s[1..]);
      assert s == [s[0]] + s[1..];
      if s[0] == '.' {
        assert Split(s)[1..] == r;
      } else if |r| > 1 {
        assert Split(s)[1..] == r[1..];
        assert [s[0]] + r[0] + "." + Join(r[1..]) == [s[0]] + (r[0] + "." + Join(r[1..]));
      }
    }
  }

  lemma {:induction false} SplitAtFirstDot(name: string, rest: string)
    requires DotFree(name)
    ensures Split(name + "." + rest) == [name] + Split(rest)
  {
    var s := name + "." + rest;
    if name == "" {
      assert s[1..] == rest;
    } else {
      assert s[1..] == name[1..] + "." + rest && s[0] == name[0];
      SplitAtFirstDot(name[1..], rest);
      assert [name[0]] + name[1..] == name;
    }
  }

  lemma {:induction false} SplitDotFree(s: string)
    requires DotFree(s)
    ensures Split(s) == [s]
  {
    if s != "" {
      SplitDotFree(s[1..]);
      assert [s[0]] + s[1..] == s;
    }
  }

  // ----- numbers with shorthand suffixes -----

  predicate HasSuffix(s: string, suffix: string) {
    |s| >= |suffix| && s[|s| - |suffix|..] == suffix
  }

  datatype Multiplier = Multiplier(suffix: string, factor: int)

  const MULTIPLIERS: seq<Multiplier> := [
    Multiplier("h", 100),
    Multiplier("k", 1000),
    Multiplier("m", 1000000),
    Multiplier("b", 1000000000),
    Multiplier("t", 1000000000000),
    Multiplier("qd", 1000000000000000),
    Multiplier("qt", 1000000000000000000)]

  /** The multipliers live in a Go map, whose iteration order is free. */
  ghost predicate IsMapOrder(order: seq<Multiplier>) {
    multiset(order) == multiset(MULTIPLIERS)
  }

  lemma InMapOrder(order: seq<Multiplier>, m: Multiplier)
    requires IsMapOrder(order)
    ensures m in order <==> m in MULTIPLIERS
  {
    assert m in order <==> m in multiset(order);
  }

  function PlainNumber(s: string): int {
    match ParseInt(s)
    case None => 0
    case Some(n) => n
  }

  /** The first multiplier met that fits decides. */
  function Scale(s: string, order: seq<Multiplier>): int {
    if order == [] then PlainNumber(s)
    else if HasSuffix(s, order[0].suffix) then
      var trimmed := s[..|s| - |order[0].suffix|];
      Wrap64(PlainNumber(if trimmed == "" then "1" else trimmed) * order[0].factor)
    else Scale(s, order[1..])
  }

  function ExpandShorthand(s: string, order: seq<Multiplier>): int {
    if HasSuffix(s, "sp") || HasSuffix(s, "o") then MAX_INT64 else Scale(s, order)
  }

  // ----- parsing and printing -----

  /** The last step: rebase Bitcoin block numbers and reject those before genesis. */
  function Assemble(enc: Encoder, prefix: char, name: string, number: int, position: Option<int>): Option<Name> {
    var block := if prefix == 'b' then Wrap64(number - enc.genesisBlock) else number;
    if position.None? then None
    else if prefix == 'b' && block < 0 then None
    else Some(Name(name, block, position.value))
  }

  function ParseBlockNotation(enc: Encoder, name: string, notation: string, order: seq<Multiplier>): Option<Name>
    requires notation != ""
  {
    var parts := Split(notation[1..]);
    Assemble(enc, notation[0], name, ExpandShorthand(parts[0], order),
             if |parts| > 1 then ParseInt(parts[1]) else Some(1))
  }

  function ParseNotation(enc: Encoder, notation: string, order: seq<Multiplier>): Option<Name> {
    var parts := Split(notation);
    if |parts| < 2 then None
    else
      var name, remaining := parts[0], Join(parts[1..]);
      if |remaining| > 1 && remaining[0] == 'n' then
        match Decoding(enc.words, remaining)
        case Some(decoded) => Some(Name(name, decoded.0, decoded.1))
        case None => ParseBlockNotation(enc, name, remaining, order)
      else if remaining != "" && remaining[0] == 'b' then ParseBlockNotation(enc, name, remaining, order)
      else None
  }

  function FormatNumbers(block: int, position: int): string {
    if position == 1 then FormatInt(block) else FormatInt(block) + "." + FormatInt(position)
  }

  function FormatDNNBlock(block: int, position: int): string {
    "n" + FormatNumbers(block, position)
  }

  function FormatBitcoinBlock(enc: Encoder, block: int, position: int): string {
    "b" + FormatNumbers(Wrap64(block + enc.genesisBlock), position)
  }

  // ----- parsing undoes printing -----

  /** Words start with a lowercase letter, so no word matches a number. */
  ghost predicate LetterWords(words: seq<string>) {
    forall i :: 0 <= i < |words| ==> words[i] != "" && IsLetter(words[i][0])
  }

  predicate NumberLike(s: string) {
    s != "" && (IsDigit(s[0]) || s[0] == '-') && IsDigit(s[|s| - 1])
  }

  lemma FormatIntShape(n: int)
    ensures NumberLike(FormatInt(n)) && DotFree(FormatInt(n))
  {
    var d := Decimal(if n < 0 then -n else n);
    assert IsDigit(d[0]) && IsDigit(d[|d| - 1]);
    assert forall i :: 0 <= i < |d| ==> IsDigit(d[i]);
  }

  lemma NoShorthand(s: string, suffix: string)
    requires NumberLike(s) && suffix != "" && !IsDigit(suffix[|suffix| - 1])
    ensures !HasSuffix(s, suffix)
  {
    if HasSuffix(s, suffix) {
      SuffixEndsAlike(s, suffix);
    }
  }

  lemma SuffixEndsAlike(s: string, suffix: string)
    requires s != "" && suffix != "" && HasSuffix(s, suffix)
    ensures suffix[|suffix| - 1] == s[|s| - 1]
  {
    assert suffix[|suffix| - 1] == s[|s| - |suffix|..][|suffix| - 1];
  }

  lemma {:induction false} NoMultiplierFits(s: string, order: seq<Multiplier>)
    requires NumberLike(s)
    requires forall m :: m in order ==> m.suffix != "" && !IsDigit(m.suffix[|m.suffix| - 1])
    ensures Scale(s, order) == PlainNumber(s)
  {
    if order != [] {
      assert order[0] in order;
      NoShorthand(s, order[0].suffix);
      NoMultiplierFits(s, order[1..]);
    }
  }

  lemma MultipliersEndInLetters(m: Multiplier)
    requires m in MULTIPLIERS
    ensures m.suffix != "" && !IsDigit(m.suffix[|m.suffix| - 1])
  {
    var i :| 0 <= i < |MULTIPLIERS| && MULTIPLIERS[i] == m;
    assert i < 7;
  }

  /** A printed number is read back as itself, whatever the map order. */
  lemma ExpandPlainNumber(n: int, order: seq<Multiplier>)
    requires InInt64(n) && IsMapOrder(order)
    ensures ExpandShorthand(FormatInt(n), order) == n
  {
    var s := FormatInt(n);
    FormatIntShape(n);
    NoShorthand(s, "sp");
    NoShorthand(s, "o");
    forall m | m in order ensures m.suffix != "" && !IsDigit(m.suffix[|m.suffix| - 1]) {
      InMapOrder(order, m);
      MultipliersEndInLetters(m);
    }
    NoMultiplierFits(s, order);
    ParseOfFormat(n);
  }

  lemma NumbersAreNotCodes(words: seq<string>, s: string)
    requires LetterWords(words) && s != "" && !IsLetter(s[0])
    ensures Decoding(words, "n" + s) == None
  {
    assert ("n" + s)[1..] == s;
    BestMatchIsLongest(words, s);
    if BestMatch(words, s) != "" {
      MatchStartsWithLetter(words, s);
    }
  }

  lemma {:induction false} MatchStartsWithLetter(words: seq<string>, s: string)
    requires LetterWords(words) && s != "" && BestMatch(words, s) != ""
    ensures IsLetter(s[0])
  {
    BestMatchIsLongest(words, s);
    var best := BestMatch(words, s);
    var k :| 0 <= k < |words| && words[k] == best;
    assert IsLetter(words[k][0]) && best[0] == s[0];
  }

  /** The numeric tail of a notation splits back into its numbers. */
  lemma NumbersComeBack(block: int, position: int, order: seq<Multiplier>)
    requires InInt64(block) && InInt64(position) && IsMapOrder(order)
    ensures var parts := Split(FormatNumbers(block, position));
            && ExpandShorthand(parts[0], order) == block
            && (if |parts| > 1 then ParseInt(parts[1]) else Some(1)) == Some(position)
  {
    SplitNumbers(block, position);
    ExpandPlainNumber(block, order);
    ParseOfFormat(position);
  }

  lemma ParseNumbers(enc: Encoder, name: string, prefix: char, tail: string, block: int, position: int, order: seq<Multiplier>)
    requires InInt64(block) && InInt64(position) && IsMapOrder(order) && tail == FormatNumbers(block, position)
    ensures ParseBlockNotation(enc, name, [prefix] + tail, order) == Assemble(enc, prefix, name, block, Some(position))
  {
    NumbersComeBack(block, position, order);
    assert ([prefix] + tail)[1..] == tail;
  }

  lemma SplitNumbers(block: int, position: int)
    ensures Split(FormatNumbers(block, position))
         == if position == 1 then [FormatInt(block)] else [FormatInt(block), FormatInt(position)]
  {
    FormatIntShape(block);
    FormatIntShape(position);
    if position == 1 {
      SplitDotFree(FormatInt(block));
    } else {
      SplitAtFirstDot(FormatInt(block), FormatInt(position));
      SplitDotFree(FormatInt(position));
    }
  }

  /** Everything after the first dot reaches the parser of the second half unchanged. */
  lemma {:induction false} NameAndRest(name: string, rest: string)
    requires DotFree(name)
    ensures var parts := Split(name + "." + rest);
            |parts| >= 2 && parts[0] == name && Join(parts[1..]) == rest
  {
    SplitAtFirstDot(name, rest);
    JoinOfSplit(rest);
    assert ([name] + Split(rest))[1..] == Split(rest);
  }

  /** Printing a DNN block and parsing it back, for the whole 64-bit range. */
  lemma ParseOfDNNBlock(enc: Encoder, name: string, block: int, position: int, order: seq<Multiplier>)
    requires LetterWords(enc.words) && DotFree(name) && InInt64(block) && InInt64(position) && IsMapOrder(order)
    ensures ParseNotation(enc, name + "." + FormatDNNBlock(block, position), order)
         == Some(Name(name, block, position))
  {
    hide ParseNotation, ParseBlockNotation, Assemble, FormatNumbers, FormatInt, Decoding, LetterWords, IsMapOrder;
    var tail := FormatNumbers(block, position);
    FormatIntShape(block);
    NumbersStartLikeBlock(block, position);
    NumbersAreNotCodes(enc.words, tail);
    DNNBranch(enc, name, ['n'] + tail, order);
    ParseNumbers(enc, name, 'n', tail, block, position, order);
    AssembleDNN(enc, name, block, position);
  }

  lemma NumbersStartLikeBlock(block: int, position: int)
    ensures FormatInt(block) != "" && FormatNumbers(block, position) != "" && FormatNumbers(block, position)[0] == FormatInt(block)[0]
  {
    FormatIntShape(block);
  }

  lemma AssembleDNN(enc: Encoder, name: string, block: int, position: int)
    ensures Assemble(enc, 'n', name, block, Some(position)) == Some(Name(name, block, position))
  {
  }

  lemma DNNBranch(enc: Encoder, name: string, rest: string, order: seq<Multiplier>)
    requires |rest| > 1 && rest[0] == 'n' && DotFree(name) && Decoding(enc.words, rest) == None
    ensures ParseNotation(enc, name + "." + rest, order) == ParseBlockNotation(enc, name, rest, order)
  {
    NameAndRest(name, rest);
  }

  /** Printing as a Bitcoin block and parsing it back gives the same name exactly for
      non-negative DNN blocks, whatever the genesis; others are rejected. */
  lemma ParseOfBitcoinBlock(enc: Encoder, name: string, block: int, position: int, order: seq<Multiplier>)
    requires DotFree(name) && InInt64(block) && InInt64(position) && IsMapOrder(order)
    ensures ParseNotation(enc, name + "." + FormatBitcoinBlock(enc, block, position), order)
         == if block >= 0 then Some(Name(name, block, position)) else None
  {
    hide ParseNotation, ParseBlockNotation, Assemble, FormatNumbers;
    var shown := Wrap64(block + enc.genesisBlock);
    Rebase(enc, name, block, position);
    ParseNumbers(enc, name, 'b', FormatNumbers(shown, position), shown, position, order);
    BitcoinBranch(enc, name, ['b'] + FormatNumbers(shown, position), order);
  }

  lemma {:induction false} Rebase(enc: Encoder, name: string, block: int, position: int)
    requires InInt64(block)
    ensures Assemble(enc, 'b', name, Wrap64(block + enc.genesisBlock), Some(position))
         == if block >= 0 then Some(Name(name, block, position)) else None
  {
    WrapBack(block, enc.genesisBlock);
  }

  lemma WrapBack(x: int, g: int)
    requires InInt64(x)
    ensures Wrap64(Wrap64(x + g) - g) == x
  {
    WrapInside(x + g, 1, -g);
  }

  lemma BitcoinBranch(enc: Encoder, name: string, rest: string, order: seq<Multiplier>)
    requires rest != "" && rest[0] == 'b' && DotFree(name)
    ensures ParseNotation(enc, name + "." + rest, order) == ParseBlockNotation(enc, name, rest, order)
  {
    NameAndRest(name, rest);
  }

  /** Printing as a word code and parsing it back. */
  lemma ParseOfCode(enc: Encoder, name: string, block: int, position: int, order: seq<Multiplier>)
    requires IsWordList(enc.words) && PrefixFree(enc.words) && DotFree(name)
    requires 0 <= block <= MAX_INT64 && 1 <= position <= MAX_INT64
    ensures Encoding(enc.words, block, position).Some?
    ensures ParseNotation(enc, name + "." + Encoding(enc.words, block, position).value, order)
         == Some(Name(name, block, position))
  {
    DecodeOfEncode(enc.words, block, position);
    NameAndRest(name, Encoding(enc.words, block, position).value);
  }

  /** The three printed forms of any names never collide with one another. */
  lemma FormsNeverCollide(enc: Encoder, b0: int, p0: int, b1: int, p1: int, b2: int, p2: int)
    requires IsWordList(enc.words) && PrefixFree(enc.words) && LetterWords(enc.words)
    requires 0 <= b0 <= MAX_INT64 && 1 <= p0 <= MAX_INT64
    requires InInt64(b1) && InInt64(p1) && InInt64(b2) && InInt64(p2)
    ensures Encoding(enc.words, b0, p0).Some?
    ensures Encoding(enc.words, b0, p0).value != FormatDNNBlock(b1, p1)
    ensures Encoding(enc.words, b0, p0).value != FormatBitcoinBlock(enc, b2, p2)
    ensures FormatDNNBlock(b1, p1) != FormatBitcoinBlock(enc, b2, p2)
  {
    DecodeOfEncode(enc.words, b0, p0);
    FormatIntShape(b1);
    assert FormatNumbers(b1, p1)[0] == FormatInt(b1)[0];
    NumbersAreNotCodes(enc.words, FormatNumbers(b1, p1));
    assert FormatDNNBlock(b1, p1)[0] == 'n' && FormatBitcoinBlock(enc, b2, p2)[0] == 'b';
  }

  // ----- the notations, spelled out -----

  /** name.b{number}[.{position}] means the DNN block that far above genesis, position 1 if none
      is given, and is rejected below genesis. */
  lemma BitcoinNumberMeans(enc: Encoder, name: string, n: int, position: int, order: seq<Multiplier>)
    requires DotFree(name) && InInt64(n) && InInt64(n - enc.genesisBlock) && InInt64(position) && IsMapOrder(order)
    ensures ParseNotation(enc, name + "." + ("b" + FormatInt(n)), order)
         == if n >= enc.genesisBlock then Some(Name(name, n - enc.genesisBlock, 1)) else None
    ensures position != 1 ==>
      ParseNotation(enc, name + "." + ("b" + (FormatInt(n) + "." + FormatInt(position))), order)
      == if n >= enc.genesisBlock then Some(Name(name, n - enc.genesisBlock, position)) else None
  {
    hide ParseNotation, ParseBlockNotation, FormatInt;
    ParseNumbers(enc, name, 'b', FormatNumbers(n, 1), n, 1, order);
    ParseNumbers(enc, name, 'b', FormatNumbers(n, position), n, position, order);
    BitcoinBranch(enc, name, "b" + FormatNumbers(n, 1), order);
    BitcoinBranch(enc, name, "b" + FormatNumbers(n, position), order);
  }

  /** name.n{number}[.{position}] means the DNN block itself. */
  lemma DNNNumberMeans(enc: Encoder, name: string, n: int, position: int, order: seq<Multiplier>)
    requires LetterWords(enc.words) && DotFree(name) && InInt64(n) && InInt64(position) && IsMapOrder(order)
    ensures ParseNotation(enc, name + "." + ("n" + FormatInt(n)), order) == Some(Name(name, n, 1))
    ensures position != 1 ==>
      ParseNotation(enc, name + "." + ("n" + (FormatInt(n) + "." + FormatInt(position))), order) == Some(Name(name, n, position))
  {
    hide ParseNotation, FormatInt;
    ParseOfDNNBlock(enc, name, n, 1, order);
    ParseOfDNNBlock(enc, name, n, position, order);
  }

  /** Anything else is rejected: a text without a dot, a second half that is empty or a lone n or
      begins with another letter than n and b, and a position that is no number. */
  lemma {:induction false} OthersAreRejected(enc: Encoder, name: string, rest: string, n: int, position: string, order: seq<Multiplier>)
    requires DotFree(name) && DotFree(position)
    ensures ParseNotation(enc, name, order) == None
    ensures rest == "" || rest == "n" || (rest[0] != 'n' && rest[0] != 'b') ==> ParseNotation(enc, name + "." + rest, order) == None
    ensures ParseInt(position).None? ==>
      ParseNotation(enc, name + "." + ("b" + (FormatInt(n) + "." + position)), order) == None
  {
    hide FormatInt, ExpandShorthand, Decoding;
    SplitDotFree(name);
    NameAndRest(name, rest);
    var tail := FormatInt(n) + "." + position;
    FormatIntShape(n);
    SplitAtFirstDot(FormatInt(n), position);
    SplitDotFree(position);
    BitcoinBranch(enc, name, "b" + tail, order);
    assert ("b" + tail)[1..] == tail;
  }

  /** The printers write the position exactly when it is not 1. */
  lemma PositionPrintedExactly(enc: Encoder, block: int, position: int)
    ensures DotFree(FormatDNNBlock(block, position)) <==> position == 1
    ensures DotFree(FormatBitcoinBlock(enc, block, position)) <==> position == 1
  {
    hide FormatInt;
    DotsInNumbers(block, position);
    DotsInNumbers(Wrap64(block + enc.genesisBlock), position);
    AfterPrefix("n", FormatNumbers(block, position));
    AfterPrefix("b", FormatNumbers(Wrap64(block + enc.genesisBlock), position));
  }

  lemma DotsInNumbers(block: int, position: int)
    ensures DotFree(FormatNumbers(block, position)) <==> position == 1
  {
    FormatIntShape(block);
    if position != 1 {
      assert FormatNumbers(block, position)[|FormatInt(block)|] == '.';
    }
  }

  lemma AfterPrefix(prefix: string, s: string)
    requires DotFree(prefix)
    ensures DotFree(prefix + s) <==> DotFree(s)
  {
    if DotFree(prefix + s) {
      assert forall i :: 0 <= i < |s| ==> s[i] == (prefix + s)[|prefix| + i];
    }
  }

  // ----- shorthand numbers -----

  /** Whichever order the map has, the only multiplier that fits is the one that is used. */
  lemma {:induction false} OnlyFitIsUsed(s: string, order: seq<Multiplier>, m: Multiplier)
    requires m in order && HasSuffix(s, m.suffix)
    requires forall x :: x in order && HasSuffix(s, x.suffix) ==> x == m
    ensures Scale(s, order) == Scale(s, [m])
  {
    if order[0] != m {
      assert order[0] in order;
      OnlyFitIsUsed(s, order[1..], m);
    }
  }

  lemma {:induction false} ScaledByOne(n: int, m: Multiplier)
    requires InInt64(n)
    ensures Scale(FormatInt(n) + m.suffix, [m]) == Wrap64(n * m.factor)
  {
    var s := FormatInt(n) + m.suffix;
    ParseOfFormat(n);
    assert s[|s| - |m.suffix|..] == m.suffix && s[..|s| - |m.suffix|] == FormatInt(n);
  }

  lemma LastChars(number: string, suffix: string, other: string)
    requires NumberLike(number) && suffix != "" && other != "" && HasSuffix(number + suffix, other)
    ensures other[|other| - 1] == suffix[|suffix| - 1]
    ensures |suffix| == 1 && |other| >= 2 ==> IsDigit(other[|other| - 2])
    ensures |suffix| >= 2 && |other| >= 2 ==> other[|other| - 2] == suffix[|suffix| - 2]
  {
    var s := number + suffix;
    SuffixEndsAlike(s, other);
    if |other| >= 2 {
      assert other[|other| - 2] == s[|s| - |other|..][|other| - 2] == s[|s| - 2];
    }
  }

  /** A number with one of the suffixes h, k, m, b, t or qd is that number of hundreds,
      thousands and so on, wrapping at 64 bits; with o or sp it is the largest there is. The
      order of the map does not matter. */
  lemma {:induction false} ShorthandMeans(n: int, order: seq<Multiplier>)
    requires InInt64(n) && IsMapOrder(order)
    ensures ExpandShorthand(FormatInt(n) + "h", order) == Wrap64(n * 100)
    ensures ExpandShorthand(FormatInt(n) + "k", order) == Wrap64(n * 1000)
    ensures ExpandShorthand(FormatInt(n) + "m", order) == Wrap64(n * 1_000_000)
    ensures ExpandShorthand(FormatInt(n) + "b", order) == Wrap64(n * 1_000_000_000)
    ensures ExpandShorthand(FormatInt(n) + "t", order) == Wrap64(n * 1_000_000_000_000)
    ensures ExpandShorthand(FormatInt(n) + "qd", order) == Wrap64(n * 1_000_000_000_000_000)
    ensures ExpandShorthand(FormatInt(n) + "o", order) == ExpandShorthand(FormatInt(n) + "sp", order) == MAX_INT64
  {
    hide FormatInt, Wrap64, Scale, IsMapOrder;
    OneShorthand(n, order, 0);
    OneShorthand(n, order, 1);
    OneShorthand(n, order, 2);
    OneShorthand(n, order, 3);
    OneShorthand(n, order, 4);
    OneShorthand(n, order, 5);
    var f := FormatInt(n);
    assert (f + "o")[|f + "o"| - 1..] == "o" && (f + "sp")[|f + "sp"| - 2..] == "sp";
  }

  /** Of the suffixes before qt none ends in another. */
  lemma NoOtherFits(number: string, i: nat, k: nat)
    requires NumberLike(number) && i < 6 && k < 7
    requires HasSuffix(number + MULTIPLIERS[i].suffix, MULTIPLIERS[k].suffix)
    ensures i == k
  {
    hide NumberLike, HasSuffix;
    LastChars(number, MULTIPLIERS[i].suffix, MULTIPLIERS[k].suffix);
  }

  lemma NotSpecial(number: string, i: nat)
    requires NumberLike(number) && i < 7
    ensures !HasSuffix(number + MULTIPLIERS[i].suffix, "sp") && !HasSuffix(number + MULTIPLIERS[i].suffix, "o")
  {
    hide NumberLike, HasSuffix;
    var s := number + MULTIPLIERS[i].suffix;
    if HasSuffix(s, "sp") { LastChars(number, MULTIPLIERS[i].suffix, "sp"); }
    if HasSuffix(s, "o") { LastChars(number, MULTIPLIERS[i].suffix, "o"); }
  }

  lemma {:induction false} OneShorthand(n: int, order: seq<Multiplier>, i: nat)
    requires InInt64(n) && IsMapOrder(order) && i < 6
    ensures ExpandShorthand(FormatInt(n) + MULTIPLIERS[i].suffix, order) == Wrap64(n * MULTIPLIERS[i].factor)
  {
    hide FormatInt, Wrap64, Scale, IsMapOrder, NumberLike;
    var m, s := MULTIPLIERS[i], FormatInt(n) + MULTIPLIERS[i].suffix;
    FormatIntShape(n);
    NotSpecial(FormatInt(n), i);
    InMapOrder(order, m);
    forall x | x in order && HasSuffix(s, x.suffix) ensures x == m {
      InMapOrder(order, x);
      var k :| 0 <= k < 7 && MULTIPLIERS[k] == x;
      NoOtherFits(FormatInt(n), i, k);
    }
    SuffixFits(FormatInt(n), m.suffix);
    OnlyFitIsUsed(s, order, m);
    ScaledByOne(n, m);
  }

  lemma SuffixFits(number: string, suffix: string)
    ensures HasSuffix(number + suffix, suffix)
  {
  }

  lemma NoOtherBareFits(i: nat, k: nat)
    requires i < 6 && k < 7 && HasSuffix(MULTIPLIERS[i].suffix, MULTIPLIERS[k].suffix)
    ensures i == k
  {
    hide HasSuffix;
    SuffixIsShorter(MULTIPLIERS[i].suffix, MULTIPLIERS[k].suffix);
    SuffixEndsAlike(MULTIPLIERS[i].suffix, MULTIPLIERS[k].suffix);
  }

  lemma SuffixIsShorter(s: string, suffix: string)
    requires HasSuffix(s, suffix)
    ensures |suffix| <= |s|
  {
  }

  lemma NotSpecialBare(i: nat)
    requires i < 6
    ensures !HasSuffix(MULTIPLIERS[i].suffix, "sp") && !HasSuffix(MULTIPLIERS[i].suffix, "o")
  {
    hide HasSuffix;
    if HasSuffix(MULTIPLIERS[i].suffix, "sp") { SuffixEndsAlike(MULTIPLIERS[i].suffix, "sp"); }
    if HasSuffix(MULTIPLIERS[i].suffix, "o") { SuffixEndsAlike(MULTIPLIERS[i].suffix, "o"); }
  }

  lemma {:induction false} OneBareShorthand(order: seq<Multiplier>, i: nat)
    requires IsMapOrder(order) && i < 6
    ensures ExpandShorthand(MULTIPLIERS[i].suffix, order) == MULTIPLIERS[i].factor
  {
    hide Scale, IsMapOrder, HasSuffix;
    var m := MULTIPLIERS[i];
    NotSpecialBare(i);
    InMapOrder(order, m);
    forall x | x in order && HasSuffix(m.suffix, x.suffix) ensures x == m {
      InMapOrder(order, x);
      var k :| 0 <= k < 7 && MULTIPLIERS[k] == x;
      NoOtherBareFits(i, k);
    }
    SuffixFits("", m.suffix);
    assert "" + m.suffix == m.suffix;
    OnlyFitIsUsed(m.suffix, order, m);
    BareScale(m);
  }

  /** A suffix alone counts once. */
  lemma {:induction false} BareShorthandMeans(order: seq<Multiplier>)
    requires IsMapOrder(order)
    ensures ExpandShorthand("h", order) == 100 && ExpandShorthand("k", order) == 1000
    ensures ExpandShorthand("m", order) == 1_000_000 && ExpandShorthand("b", order) == 1_000_000_000
    ensures ExpandShorthand("t", order) == 1_000_000_000_000 && ExpandShorthand("qd", order) == 1_000_000_000_000_000
  {
    hide ExpandShorthand, IsMapOrder;
    OneBareShorthand(order, 0);
    OneBareShorthand(order, 1);
    OneBareShorthand(order, 2);
    OneBareShorthand(order, 3);
    OneBareShorthand(order, 4);
    OneBareShorthand(order, 5);
  }

  lemma BareScale(m: Multiplier)
    ensures Scale(m.suffix, [m]) == Wrap64(m.factor)
  {
    ParseOfFormat(1);
    assert Decimal(1) == "1";
    assert m.suffix[|m.suffix| - |m.suffix|..] == m.suffix && m.suffix[..|m.suffix| - |m.suffix|] == "";
  }

  lemma {:induction false} FirstFitIsUsed(s: string, order: seq<Multiplier>, i: nat)
    requires i < |order| && HasSuffix(s, order[i].suffix)
    requires forall k :: 0 <= k < i ==> !HasSuffix(s, order[k].suffix)
    ensures Scale(s, order) == Scale(s, [order[i]])
  {
    if i > 0 {
      FirstFitIsUsed(s, order[1..], i - 1);
    }
  }

  lemma TrailingLetterIsNoNumber(n: int)
    ensures PlainNumber(FormatInt(n) + "q") == 0
  {
    var s := FormatInt(n) + "q";
    FormatIntShape(n);
    var signed := s[0] == '+' || s[0] == '-';
    var digits := if signed then s[1..] else s;
    assert digits[|digits| - 1] == 'q' && !IsDigit('q');
  }

  /** With the suffix qt it does matter: the number counts only if the map's iteration meets
      qt before t, and is zero otherwise. Entry i is the first of the two. */
  lemma {:induction false} QtDependsOnMapOrder(n: int, order: seq<Multiplier>, i: nat)
    requires InInt64(n) && IsMapOrder(order) && i < |order| && (order[i].suffix == "t" || order[i].suffix == "qt")
    requires forall k :: 0 <= k < i ==> order[k].suffix != "t" && order[k].suffix != "qt"
    ensures ExpandShorthand(FormatInt(n) + "qt", order)
         == if order[i].suffix == "qt" then Wrap64(n * 1_000_000_000_000_000_000) else 0
  {
    hide FormatInt, Wrap64, Scale, IsMapOrder, PlainNumber, NumberLike, HasSuffix;
    var m, s := order[i], FormatInt(n) + "qt";
    FormatIntShape(n);
    NotSpecial(FormatInt(n), 6);
    forall k | 0 <= k < i ensures !HasSuffix(s, order[k].suffix) {
      InMapOrder(order, order[k]);
      if HasSuffix(s, order[k].suffix) { OnlyTAndQtFit(FormatInt(n), order[k]); }
    }
    InMapOrder(order, m);
    TAndQtFit(FormatInt(n));
    FirstFitIsUsed(s, order, i);
    ScaledByOne(n, MULTIPLIERS[6]);
    TrailingLetterIsNoNumber(n);
    OneScale(s, m);
  }

  lemma OnlyTAndQtFit(number: string, m: Multiplier)
    requires NumberLike(number) && m in MULTIPLIERS && HasSuffix(number + "qt", m.suffix)
    ensures m.suffix == "t" || m.suffix == "qt"
  {
    LastChars(number, "qt", m.suffix);
  }

  lemma TAndQtFit(number: string)
    ensures HasSuffix(number + "qt", "t") && HasSuffix(number + "qt", "qt")
    ensures (number + "qt")[..|number + "qt"| - 1] == number + "q"
  {
    var s := number + "qt";
    assert s[|s| - 2..] == "qt" && s[|s| - 1..] == "t";
  }

  lemma {:induction false} OneScale(s: string, m: Multiplier)
    requires HasSuffix(s, m.suffix) && |s| > |m.suffix|
    ensures Scale(s, [m]) == Wrap64(PlainNumber(s[..|s| - |m.suffix|]) * m.factor)
  {
  }
}
