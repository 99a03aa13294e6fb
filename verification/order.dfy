/** Python's `<` on `str`: lexicographic by code point, a proper prefix first. */
module StringOrder {

  predicate Less(a: string, b: string) {
    if a == [] then b != []
    else if b == [] then false
    else a[0] < b[0] || (a[0] == b[0] && Less(a[1..], b[1..]))
  }

  predicate LessEq(a: string, b: string) {
    a == b || Less(a, b)
  }

  lemma {:induction false} LessIrreflexive(a: string)
    ensures !Less(a, a)
  {
    if a != [] {
      LessIrreflexive(a[1..]);
    }
  }

  lemma {:induction false} LessTransitive(a: string, b: string, c: string)
    requires Less(a, b) && Less(b, c)
    ensures Less(a, c)
  {
    if a != [] && b != [] && c != [] && a[0] == b[0] && b[0] == c[0] {
      LessTransitive(a[1..], b[1..], c[1..]);
    }
  }

  /** Two different strings are always ordered one way or the other. */
  lemma {:induction false} LessTotal(a: string, b: string)
    requires a != b
    ensures Less(a, b) || Less(b, a)
  {
    if a != [] && b != [] && a[0] == b[0] {
      assert a == [a[0]] + a[1..] && b == [b[0]] + b[1..];
      LessTotal(a[1..], b[1..]);
    }
  }

  /** A string that is not below another is at or above it. */
  lemma NotLessIsAtLeast(a: string, b: string)
    requires !Less(a, b)
    ensures LessEq(b, a)
  {
    if a != b {
      LessTotal(a, b);
    }
  }

  lemma LessEqLess(a: string, b: string, c: string)
    requires LessEq(a, b) && Less(b, c)
    ensures Less(a, c)
  {
    if a != b {
      LessTransitive(a, b, c);
    }
  }
}
