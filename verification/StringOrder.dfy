/** The order Go compares strings in: character by character, a proper prefix first. */
module StringOrder {

  predicate Less(a: string, b: string) {
    b != "" && (a == "" || a[0] < b[0] || (a[0] == b[0] && Less(a[1..], b[1..])))
  }

  lemma {:induction false} Irreflexive(a: string)
    ensures !Less(a, a)
  {
    if a != "" {
      Irreflexive(a[1..]);
    }
  }

  lemma {:induction false} Transitive(a: string, b: string, c: string)
    requires Less(a, b) && Less(b, c)
    ensures Less(a, c)
  {
    if a != "" && a[0] == b[0] && b[0] == c[0] {
      Transitive(a[1..], b[1..], c[1..]);
    }
  }

  lemma {:induction false} Total(a: string, b: string)
    ensures a == b || Less(a, b) || Less(b, a)
  {
    if a != "" && b != "" && a[0] == b[0] {
      Total(a[1..], b[1..]);
      assert a == [a[0]] + a[1..] && b == [b[0]] + b[1..];
    }
  }

  /** Everything between a word and an extension of it also extends it. */
  lemma {:induction false} BetweenExtensions(w: string, m: string, x: string)
    requires w <= x && Less(w, m) && (Less(m, x) || m == x)
    ensures w <= m
  {
    if w != "" {
      if m != x {
        assert m[0] == w[0];
        BetweenExtensions(w[1..], m[1..], x[1..]);
        assert m == [m[0]] + m[1..] && w == [w[0]] + w[1..];
      }
    }
  }

  /** The first differing character decides; a proper prefix comes first. */
  lemma {:induction false} FirstDifferenceDecides(p: string, c: char, x: string, d: char, y: string)
    requires c != d
    ensures Less(p + [c] + x, p + [d] + y) <==> c < d
    ensures Less(p, p + [c] + x)
  {
    var a, b := p + [c] + x, p + [d] + y;
    if p == "" {
      assert a == [c] + x && b == [d] + y;
    } else {
      FirstDifferenceDecides(p[1..], c, x, d, y);
      assert a[1..] == p[1..] + [c] + x && b[1..] == p[1..] + [d] + y;
    }
  }
}
