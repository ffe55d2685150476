/** The dictionary behind the name codec: greedy longest match, word lookup, and what
    makes the match unambiguous. */
module WordList {
  import opened StringOrder

  /** No word is a prefix of another entry (in particular no entry occurs twice). */
  ghost predicate PrefixFree(words: seq<string>) {
    forall i, j :: 0 <= i < |words| && 0 <= j < |words| && i != j ==> !(words[i] <= words[j])
  }

  ghost predicate NoEmptyWord(words: seq<string>) {
    forall i :: 0 <= i < |words| ==> words[i] != ""
  }

  ghost predicate Sorted(words: seq<string>) {
    forall i :: 0 <= i < |words| - 1 ==> Less(words[i], words[i + 1])
  }

  /** The longest word that starts `s`, the first one found of that length; empty if none. */
  function BestMatch(words: seq<string>, s: string): string {
    if words == [] then ""
    else
      var n := |words| - 1;
      var best := BestMatch(words[..n], s);
      if words[n] <= s && |words[n]| > |best| then words[n] else best
  }

  lemma {:induction false} BestMatchIsLongest(words: seq<string>, s: string)
    ensures BestMatch(words, s) <= s
    ensures BestMatch(words, s) != "" ==> BestMatch(words, s) in words
    ensures forall w :: w in words && w <= s ==> |w| <= |BestMatch(words, s)|
  {
    if words != [] {
      var n := |words| - 1;
      BestMatchIsLongest(words[..n], s);
      assert words == words[..n] + [words[n]];
    }
  }

  /** The greedy matching loop. */
  method MatchWord(words: seq<string>, s: string) returns (best: string, rest: string)
    ensures best == BestMatch(words, s)
    ensures best <= s && rest == s[|best|..]
    ensures best != "" ==> best in words
    ensures forall w :: w in words && w <= s ==> |w| <= |best|
  {
    best := "";
    for i := 0 to |words|
      invariant best == BestMatch(words[..i], s)
    {
      assert words[..i + 1][..i] == words[..i];
      var w := words[i];
      if w <= s && |w| > |best| {
        best := w;
      }
    }
    assert words[..|words|] == words;
    BestMatchIsLongest(words, s);
    rest := s[|best|..];
  }

  function FirstIndex(words: seq<string>, w: string): (i: int)
    ensures -1 <= i < |words|
    ensures i == -1 <==> w !in words
    ensures i >= 0 ==> words[i] == w && w !in words[..i]
  {
    if words == [] then -1
    else if words[0] == w then 0
    else
      var i := FirstIndex(words[1..], w);
      assert i >= 0 ==> words[..i + 1] == [words[0]] + words[1..][..i];
      if i == -1 then -1 else i + 1
  }

  /** The lookup loop. */
  method FindWordIndex(words: seq<string>, word: string) returns (index: int)
    ensures index == FirstIndex(words, word)
  {
    for i := 0 to |words|
      invariant word !in words[..i]
    {
      if words[i] == word {
        FirstIndexIs(words, word, i);
        return i;
      }
    }
    assert words[..|words|] == words;
    return -1;
  }

  lemma {:induction false} FirstIndexIs(words: seq<string>, w: string, i: nat)
    requires i < |words| && words[i] == w && w !in words[..i]
    ensures FirstIndex(words, w) == i
  {
  }

  lemma PrefixesComparable(a: string, b: string, s: string)
    requires a <= s && b <= s && |a| <= |b|
    ensures a <= b
  {
  }

  /** In a prefix-free list the greedy match of a word followed by anything is that word. */
  lemma {:induction false} MatchIsUnambiguous(words: seq<string>, i: nat, rest: string)
    requires PrefixFree(words) && NoEmptyWord(words) && i < |words|
    ensures BestMatch(words, words[i] + rest) == words[i]
    ensures FirstIndex(words, words[i]) == i
  {
    var s := words[i] + rest;
    var best := BestMatch(words, s);
    BestMatchIsLongest(words, s);
    assert words[i] <= s && words[i] in words;
    var k :| 0 <= k < |words| && words[k] == best;
    PrefixesComparable(words[i], best, s);
    var f := FirstIndex(words, words[i]);
    assert words[f] <= words[i];
  }

  lemma {:induction false} SortedApart(words: seq<string>, i: nat, j: nat)
    requires Sorted(words) && i < j < |words|
    ensures Less(words[i], words[j])
  {
    if i + 1 < j {
      SortedApart(words, i, j - 1);
      assert Less(words[j - 1], words[j]);
      Transitive(words[i], words[j - 1], words[j]);
    }
  }

  /** In a strictly sorted list, prefix-freedom can be read off neighbours. */
  lemma SortedPrefixFreeByNeighbours(words: seq<string>)
    requires Sorted(words)
    ensures PrefixFree(words) <==> forall i :: 0 <= i < |words| - 1 ==> !(words[i] <= words[i + 1])
  {
    if !PrefixFree(words) {
      var i, j :| 0 <= i < |words| && 0 <= j < |words| && i != j && words[i] <= words[j];
      if i < j {
        assert Less(words[i], words[i + 1]);
        if i + 1 < j {
          SortedApart(words, i + 1, j);
        }
        BetweenExtensions(words[i], words[i + 1], words[j]);
      } else {
        SortedApart(words, j, i);
        ExtensionIsNotLess(words[i], words[j]);
      }
    }
  }

  lemma {:induction false} ExtensionIsNotLess(w: string, x: string)
    requires w <= x
    ensures !Less(x, w)
  {
    if w != "" {
      ExtensionIsNotLess(w[1..], x[1..]);
    }
  }
}
