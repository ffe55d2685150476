/** Bech32 and Bech32m strings and the SegWit addresses built from them. */
module Bech32Address {
  import opened Bits
  import opened Bech32Checksum
  import opened Separator
  import ConvertBits

  const CHARSET: string := "qpzry9x8gf2tvdw0s3jn54khce6mua7l"

  datatype Result = Ok(address: string) | ProgramError(error: ConvertBits.Result)

  function CharsOf(symbols: seq<nat>): (s: string)
    requires AllSymbols(symbols)
    ensures |s| == |symbols|
  {
    seq(|symbols|, i requires 0 <= i < |symbols| && IsSymbol(symbols[i]) => CHARSET[symbols[i]])
  }

  /** The string form: human-readable part, separator, data, checksum. */
  ghost predicate EncodesWith(hrp: string, data: seq<nat>, spec: Spec, checksum: seq<nat>, result: string)
    requires AllSymbols(data)
  {
    && |checksum| == 6 && AllSymbols(checksum)
    && Verifies(hrp, data + checksum, spec)
    && result == hrp + "1" + CharsOf(data) + CharsOf(checksum)
  }

  ghost predicate IsEncoding(hrp: string, data: seq<nat>, spec: Spec, result: string)
    requires AllSymbols(data)
  {
    exists checksum :: EncodesWith(hrp, data, spec, checksum, result)
  }

  method Encode(hrp: string, data: seq<nat>, spec: Spec) returns (result: string)
    requires AllSymbols(data)
    ensures IsEncoding(hrp, data, spec, result)
  {
    hide CharsOf, Verifies, Pack, ChecksumWord;
    var check := CreateChecksum(hrp, data, spec);
    CreatedChecksumVerifies(hrp, data, check, spec);
    var combined := data + check;
    result := hrp + "1";
    NoChars();
    for i := 0 to |combined|
      invariant AllSymbols(combined[..i])
      invariant result == hrp + "1" + CharsOf(combined[..i])
    {
      assert IsSymbol(combined[i]);
      assert combined[..i + 1] == combined[..i] + [combined[i]];
      CharsOfNext(combined[..i], combined[i]);
      result := result + [CHARSET[combined[i]]];
    }
    assert combined[..|combined|] == combined;
    CharsOfConcat(data, check);
    assert EncodesWith(hrp, data, spec, check, result);
  }

  lemma NoChars()
    ensures CharsOf([]) == ""
  {
  }

  lemma CharsOfNext(a: seq<nat>, x: nat)
    requires AllSymbols(a) && IsSymbol(x)
    ensures AllSymbols(a + [x]) && CharsOf(a + [x]) == CharsOf(a) + [CHARSET[x]]
  {
  }

  lemma CharsOfConcat(a: seq<nat>, b: seq<nat>)
    requires AllSymbols(a) && AllSymbols(b)
    ensures AllSymbols(a + b) && CharsOf(a + b) == CharsOf(a) + CharsOf(b)
  {
  }

  /** A witness program as an address: Bech32 for version 0, Bech32m above. */
  ghost predicate AddressWith(hrp: string, version: nat, program: seq<nat>, groups: seq<nat>, address: string) {
    && IsSymbol(version) && AllSymbols(groups)
    && ConvertBits.AllBelow(program, 8) && ConvertBits.RegroupedNats(program, 8, 5, true, ConvertBits.Ok(groups))
    && IsEncoding(hrp, [version] + groups, if version == 0 then Bech32 else Bech32m, address)
  }

  ghost predicate IsAddress(hrp: string, version: nat, program: seq<nat>, address: string) {
    exists groups :: AddressWith(hrp, version, program, groups, address)
  }

  method EncodeSegwitAddress(hrp: string, witnessVersion: nat, witnessProgram: seq<int>) returns (r: Result)
    requires IsSymbol(witnessVersion)
    ensures r.Ok? <==> forall i :: 0 <= i < |witnessProgram| ==> 0 <= witnessProgram[i] < 256
    ensures r.Ok? ==> IsAddress(hrp, witnessVersion, ConvertBits.Nats(witnessProgram), r.address)
  {
    hide IsEncoding;
    Pow2At8();
    var data5bit := ConvertBits.Convert(witnessProgram, 8, 5, true);
    if !data5bit.Ok? {
      return ProgramError(data5bit);
    }
    FiveBitGroupsAreSymbols(data5bit.groups);
    var fullData := [witnessVersion] + data5bit.groups;
    var spec := if witnessVersion == 0 then Bech32 else Bech32m;
    var address := Encode(hrp, fullData, spec);
    assert AddressWith(hrp, witnessVersion, ConvertBits.Nats(witnessProgram), data5bit.groups, address);
    r := Ok(address);
  }

  lemma Pow2At8()
    ensures Pow2(8) == 256
  {
    assert Pow2(4) == 16;
    Pow2Sum(4, 4);
  }

  lemma FiveBitGroupsAreSymbols(groups: seq<nat>)
    requires ConvertBits.AllBelow(groups, 5)
    ensures AllSymbols(groups)
  {
    Pow2At30();
    forall i | 0 <= i < |groups| ensures IsSymbol(groups[i]) {
      assert groups[i] < Pow2(5);
    }
  }

  /** The symbol a character stands for. */
  function SymbolOf(c: char): nat {
    if c < '8' then SymbolOfLow(c) else if c < 'j' then SymbolOfMiddle(c) else SymbolOfHigh(c)
  }

  function SymbolOfLow(c: char): nat {
    if c == '0' then 15 else if c == '2' then 10 else if c == '3' then 17 else if c == '4' then 21
    else if c == '5' then 20 else if c == '6' then 26 else if c == '7' then 30 else 32
  }

  function SymbolOfMiddle(c: char): nat {
    if c == '8' then 7 else if c == '9' then 5 else if c == 'a' then 29 else if c == 'c' then 24
    else if c == 'd' then 13 else if c == 'e' then 25 else if c == 'f' then 9 else if c == 'g' then 8
    else if c == 'h' then 23 else 32
  }

  function SymbolOfHigh(c: char): nat {
    if c == 'j' then 18 else if c == 'k' then 22 else if c == 'l' then 31 else if c == 'm' then 27
    else if c == 'n' then 19 else if c == 'p' then 1 else if c == 'q' then 0 else if c == 'r' then 3
    else if c == 's' then 16 else if c == 't' then 11 else if c == 'u' then 28 else if c == 'v' then 12
    else if c == 'w' then 14 else if c == 'x' then 6 else if c == 'y' then 4 else if c == 'z' then 2 else 32
  }

  lemma SymbolOfChar(v: nat)
    requires IsSymbol(v)
    ensures SymbolOf(CHARSET[v]) == v
  {
    if v < 16 {
      if v < 8 {} else {}
    } else if v < 24 {} else {}
  }

  lemma CharsInjective(a: seq<nat>, b: seq<nat>)
    requires AllSymbols(a) && AllSymbols(b) && CharsOf(a) == CharsOf(b)
    ensures a == b
  {
    hide SymbolOf;
    forall i | 0 <= i < |a| ensures a[i] == b[i] {
      assert CharsOf(a)[i] == CHARSET[a[i]] && CharsOf(b)[i] == CHARSET[b[i]];
      assert IsSymbol(a[i]) && IsSymbol(b[i]);
      SymbolOfChar(a[i]);
      SymbolOfChar(b[i]);
    }
  }

  /** The separator is not a character of the charset. */
  lemma NoSeparatorInChars(symbols: seq<nat>, i: nat)
    requires AllSymbols(symbols) && i < |symbols|
    ensures CharsOf(symbols)[i] != '1'
  {
    hide SymbolOfMiddle, SymbolOfHigh;
    assert IsSymbol(symbols[i]);
    SymbolOfChar(symbols[i]);
    assert SymbolOf('1') == 32;
  }

  lemma SameStringSameParts(h: string, g: string, x: seq<nat>, y: seq<nat>, sx: Spec, sy: Spec, result: string)
    requires AllSymbols(x) && AllSymbols(y)
    requires IsEncoding(h, x, sx, result) && IsEncoding(g, y, sy, result)
    ensures h == g && x == y
  {
    hide CharsOf, Verifies;
    var cx :| EncodesWith(h, x, sx, cx, result);
    var cy :| EncodesWith(g, y, sy, cy, result);
    var dx, dy := CharsOf(x) + CharsOf(cx), CharsOf(y) + CharsOf(cy);
    CharsOfConcat(x, cx);
    CharsOfConcat(y, cy);
    forall i | 0 <= i < |dx| ensures dx[i] != '1' {
      NoSeparatorInChars(x + cx, i);
    }
    forall i | 0 <= i < |dy| ensures dy[i] != '1' {
      NoSeparatorInChars(y + cy, i);
    }
    assert result == h + "1" + dx && result == g + "1" + dy;
    LastSeparatorSplits(h, g, '1', dx, dy);
    assert CharsOf(x) == dx[..|dx| - 6] && CharsOf(y) == dy[..|dy| - 6];
    CharsInjective(x, y);
  }

  /** What a reader of an address finds: the part, the separator and characters of a code word
      that begins with the witness version, goes on with the regrouped program, and leaves 1
      in the register for version 0 and 0x2bc830a3 for every other. */
  lemma AddressReads(hrp: string, version: nat, program: seq<nat>, address: string) returns (word: seq<nat>)
    requires IsAddress(hrp, version, program, address)
    ensures AllSymbols(word) && |word| >= 7 && address == hrp + "1" + CharsOf(word)
    ensures word[0] == version && ConvertBits.RegroupedNats(program, 8, 5, true, ConvertBits.Ok(word[1..|word| - 6]))
    ensures Feed(1, HrpNumbers(hrp) + word) == if version == 0 then 1 else 0x2bc830a3
  {
    hide Feed, CharsOf;
    var groups :| AddressWith(hrp, version, program, groups, address);
    var data, spec := [version] + groups, if version == 0 then Bech32 else Bech32m;
    var checksum :| EncodesWith(hrp, data, spec, checksum, address);
    word := data + checksum;
    CharsOfConcat(data, checksum);
    assert word[1..|word| - 6] == groups;
  }

  /** One address, one human-readable part, one witness version and one program, whatever
      their lengths. */
  lemma AddressesInjective(h: string, v: nat, a: seq<nat>, g: string, w: nat, b: seq<nat>, address: string)
    requires IsAddress(h, v, a, address) && IsAddress(g, w, b, address)
    ensures h == g && v == w && a == b
  {
    hide IsEncoding;
    var ga :| AddressWith(h, v, a, ga, address);
    var gb :| AddressWith(g, w, b, gb, address);
    SameStringSameParts(h, g, [v] + ga, [w] + gb, if v == 0 then Bech32 else Bech32m, if w == 0 then Bech32 else Bech32m, address);
    assert ([v] + ga)[0] == ([w] + gb)[0] && ([v] + ga)[1..] == ([w] + gb)[1..];
    ConvertBits.BytesInjective(a, b, ga);
  }
}
