/** Python's `str.split(sep)`, `sep.join(parts)`, `str.count(c)` and
    `str.replace(c, '')` for a one-character separator. */
module Text {

  /** Number of occurrences of `c` in `s`. */
  function Count(s: string, c: char): nat {
    if s == [] then 0 else (if s[0] == c then 1 else 0) + Count(s[1..], c)
  }

  /** `s` with every `c` removed. */
  function RemoveAll(s: string, c: char): string {
    if s == [] then [] else (if s[0] == c then [] else [s[0]]) + RemoveAll(s[1..], c)
  }

  /** `s.split(sep)`: the maximal separator-free pieces between occurrences of `sep`;
      never empty, `"".split(sep) == [""]`. */
  function Split(s: string, sep: char): (parts: seq<string>)
    ensures |parts| == Count(s, sep) + 1
    ensures forall p :: p in parts ==> sep !in p
  {
    if s == [] then [[]]
    else
      var rest := Split(s[1..], sep);
      if s[0] == sep then [[]] + rest
      else [[s[0]] + rest[0]] + rest[1..]
  }

  /** `sep.join(parts)`. */
  function Join(parts: seq<string>, sep: char): string {
    if |parts| == 0 then []
    else if |parts| == 1 then parts[0]
    else parts[0] + [sep] + Join(parts[1..], sep)
  }

  lemma {:induction false} CountConcat(a: string, b: string, c: char)
    ensures Count(a + b, c) == Count(a, c) + Count(b, c)
  {
    if a != [] {
      assert (a + b)[1..] == a[1..] + b;
      CountConcat(a[1..], b, c);
    } else {
      assert a + b == b;
    }
  }

  lemma {:induction false} RemoveAllConcat(a: string, b: string, c: char)
    ensures RemoveAll(a + b, c) == RemoveAll(a, c) + RemoveAll(b, c)
  {
    if a != [] {
      assert (a + b)[1..] == a[1..] + b;
      RemoveAllConcat(a[1..], b, c);
    } else {
      assert a + b == b;
    }
  }

  /** A character occurs nowhere exactly when it is counted zero times. */
  lemma {:induction false} CountZero(s: string, c: char)
    ensures Count(s, c) == 0 <==> c !in s
  {
    if s != [] {
      CountZero(s[1..], c);
      assert s == [s[0]] + s[1..];
    }
  }

  /** Removing an absent character changes nothing. */
  lemma {:induction false} RemoveAllAbsent(s: string, c: char)
    requires c !in s
    ensures RemoveAll(s, c) == s
  {
    if s != [] {
      RemoveAllAbsent(s[1..], c);
      assert s == [s[0]] + s[1..];
    }
  }

  /** Splitting text that starts with a separator-free piece `p`. */
  lemma {:induction false} SplitPrefix(p: string, t: string, sep: char)
    requires sep !in p
    ensures Split(p + t, sep) == [p + Split(t, sep)[0]] + Split(t, sep)[1..]
  {
    if p != [] {
      assert (p + t)[1..] == p[1..] + t;
      SplitPrefix(p[1..], t, sep);
      assert [p[0]] + (p[1..] + Split(t, sep)[0]) == p + Split(t, sep)[0];
    } else {
      assert p + t == t;
      assert p + Split(t, sep)[0] == Split(t, sep)[0];
      assert Split(t, sep) == [Split(t, sep)[0]] + Split(t, sep)[1..];
    }
  }

  /** Splitting undoes joining when no piece holds the separator. */
  lemma {:induction false} SplitJoin(parts: seq<string>, sep: char)
    requires |parts| >= 1
    requires forall p :: p in parts ==> sep !in p
    ensures Split(Join(parts, sep), sep) == parts
  {
    if |parts| == 1 {
      SplitPrefix(parts[0], [], sep);
      assert parts[0] + [] == parts[0];
    } else {
      var rest := parts[1..];
      SplitJoin(rest, sep);
      var tail := Join(rest, sep);
      assert Split([sep] + tail, sep) == [[]] + Split(tail, sep) by {
        assert ([sep] + tail)[1..] == tail;
      }
      assert parts[0] + [sep] + tail == parts[0] + ([sep] + tail);
      SplitPrefix(parts[0], [sep] + tail, sep);
      assert parts[0] + [] == parts[0];
      assert parts == [parts[0]] + rest;
    }
  }

  /** Joining undoes splitting, for every text. */
  lemma {:induction false} JoinSplit(s: string, sep: char)
    ensures Join(Split(s, sep), sep) == s
  {
    if s != [] {
      var rest := Split(s[1..], sep);
      JoinSplit(s[1..], sep);
      if s[0] == sep {
        assert ([[]] + rest)[1..] == rest;
        assert s == [sep] + s[1..];
      } else {
        var parts := [[s[0]] + rest[0]] + rest[1..];
        if |rest| == 1 {
          assert s == [s[0]] + s[1..];
        } else {
          assert parts[1..] == rest[1..];
          assert Join(rest, sep) == rest[0] + [sep] + Join(rest[1..], sep);
          assert s == [s[0]] + s[1..];
        }
      }
    }
  }

  /** Joining one more piece appends a separator and that piece. */
  lemma {:induction false} JoinSnoc(parts: seq<string>, x: string, sep: char)
    requires |parts| >= 1
    ensures Join(parts + [x], sep) == Join(parts, sep) + [sep] + x
  {
    if |parts| > 1 {
      assert (parts + [x])[1..] == parts[1..] + [x];
      JoinSnoc(parts[1..], x, sep);
    } else {
      assert (parts + [x])[1..] == [x];
    }
  }

  /** A join holds a character other than the separator only if some piece does. */
  lemma {:induction false} JoinAvoids(parts: seq<string>, sep: char, c: char)
    requires c != sep
    requires forall p :: p in parts ==> c !in p
    ensures c !in Join(parts, sep)
  {
    if |parts| > 1 {
      JoinAvoids(parts[1..], sep, c);
    }
  }

  /** A join is empty exactly when there is nothing, or one empty piece, to join. */
  lemma JoinEmpty(parts: seq<string>, sep: char)
    ensures Join(parts, sep) == [] <==> parts == [] || parts == [[]]
  {
  }

  /** Splitting text that ends with a separator yields a final empty piece. */
  lemma SplitSnocSep(s: string, sep: char)
    ensures Split(s + [sep], sep) == Split(s, sep) + [[]]
  {
    var parts := Split(s, sep);
    JoinSplit(s, sep);
    JoinSnoc(parts, [], sep);
    assert Join(parts + [[]], sep) == s + [sep];
    SplitJoin(parts + [[]], sep);
  }

  /** The last piece of a split is empty exactly when the text is empty or ends with the separator. */
  lemma {:induction false} LastPieceEmpty(s: string, sep: char)
    ensures var parts := Split(s, sep);
      parts[|parts| - 1] == [] <==> s == [] || s[|s| - 1] == sep
  {
    if s != [] {
      var rest := Split(s[1..], sep);
      if s[0] == sep {
        if s[1..] != [] {
          LastPieceEmpty(s[1..], sep);
        }
      } else if |rest| == 1 {
        CountZero(s[1..], sep);
        if |s| > 1 {
          assert s[|s| - 1] == s[1..][|s| - 2];
        }
      } else {
        LastPieceEmpty(s[1..], sep);
      }
    }
  }

  /** Pieces of a split never hold a character the text does not hold. */
  lemma {:induction false} SplitPiecesAvoid(s: string, sep: char, c: char)
    requires c !in s
    ensures forall p :: p in Split(s, sep) ==> c !in p
  {
    if s != [] {
      SplitPiecesAvoid(s[1..], sep, c);
      var rest := Split(s[1..], sep);
      if s[0] != sep {
        assert rest[0] in rest;
        assert forall p :: p in rest[1..] ==> p in rest;
      }
    }
  }
}
