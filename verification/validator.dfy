/** `valid_number` and the exact value `float` gives a string it accepts. */
module Validator {
  import opened Text
  import opened Decimal

  /** `valid_number`: non-empty; after one optional leading `-`, at most one `.`;
      with the `.` removed, a non-empty run of ASCII digits. */
  predicate ValidNumber(s: string) {
    if s == "" then false
    else
      var t := if s[0] == '-' then s[1..] else s;
      if Count(t, '.') > 1 then false
      else
        var digits := RemoveAll(t, '.');
        digits != "" && AllDigits(digits)
  }

  /** An unsigned decimal: digits, or digits `.` digits, with a digit somewhere. */
  predicate Unsigned(t: string) {
    || (|t| >= 1 && AllDigits(t))
    || (exists i :: 0 <= i < |t| && t[i] == '.' && |t| >= 2 && AllDigits(t[..i]) && AllDigits(t[i + 1..]))
  }

  /** The numeral grammar: an unsigned decimal, optionally after one `-`. */
  predicate Numeral(s: string) {
    Unsigned(s) || (|s| >= 1 && s[0] == '-' && Unsigned(s[1..]))
  }

  lemma AllDigitsConcat(a: string, b: string)
    ensures AllDigits(a + b) <==> AllDigits(a) && AllDigits(b)
  {
    assert forall i :: 0 <= i < |a| ==> (a + b)[i] == a[i];
    assert forall i :: 0 <= i < |b| ==> (a + b)[|a| + i] == b[i];
  }

  lemma DigitsHaveNoDot(a: string)
    requires AllDigits(a)
    ensures '.' !in a
  {
  }

  /** Counting and removing dots around one `.` at a known position. */
  lemma AroundDot(a: string, b: string)
    ensures Count(a + ['.'] + b, '.') == Count(a, '.') + 1 + Count(b, '.')
    ensures RemoveAll(a + ['.'] + b, '.') == RemoveAll(a, '.') + RemoveAll(b, '.')
  {
    CountConcat(a + ['.'], b, '.');
    CountConcat(a, ['.'], '.');
    RemoveAllConcat(a + ['.'], b, '.');
    RemoveAllConcat(a, ['.'], '.');
    assert RemoveAll(['.'], '.') == [];
  }

  /** The post-sign checks of `valid_number` on `t`. */
  predicate UnsignedChecks(t: string) {
    Count(t, '.') <= 1 && RemoveAll(t, '.') != "" && AllDigits(RemoveAll(t, '.'))
  }

  lemma ChecksWithoutDot(t: string)
    requires '.' !in t
    ensures UnsignedChecks(t) <==> Unsigned(t)
  {
    CountZero(t, '.');
    RemoveAllAbsent(t, '.');
  }

  lemma ChecksWithDot(t: string, i: nat)
    requires i < |t| && t[i] == '.'
    ensures UnsignedChecks(t) ==> Unsigned(t)
  {
    var a, b := t[..i], t[i + 1..];
    assert t == a + ['.'] + b;
    AroundDot(a, b);
    if UnsignedChecks(t) {
      CountZero(a, '.');
      CountZero(b, '.');
      RemoveAllAbsent(a, '.');
      RemoveAllAbsent(b, '.');
      AllDigitsConcat(a, b);
    }
  }

  lemma UnsignedPassesChecks(t: string)
    requires Unsigned(t)
    ensures UnsignedChecks(t)
  {
    if |t| >= 1 && AllDigits(t) {
      DigitsPassChecks(t);
    } else {
      var j :| 0 <= j < |t| && t[j] == '.' && |t| >= 2 && AllDigits(t[..j]) && AllDigits(t[j + 1..]);
      DotAtPassesChecks(t, j);
    }
  }

  lemma DotAtPassesChecks(t: string, j: nat)
    requires j < |t| && t[j] == '.' && |t| >= 2 && AllDigits(t[..j]) && AllDigits(t[j + 1..])
    ensures UnsignedChecks(t)
  {
    assert t == t[..j] + ['.'] + t[j + 1..];
    DottedPassesChecks(t[..j], t[j + 1..]);
  }

  lemma DigitsPassChecks(t: string)
    requires |t| >= 1 && AllDigits(t)
    ensures UnsignedChecks(t)
  {
    DigitsHaveNoDot(t);
    CountZero(t, '.');
    RemoveAllAbsent(t, '.');
  }

  lemma DottedPassesChecks(a: string, b: string)
    requires AllDigits(a) && AllDigits(b) && |a| + |b| >= 1
    ensures UnsignedChecks(a + ['.'] + b)
  {
    DigitsHaveNoDot(a);
    DigitsHaveNoDot(b);
    AroundDot(a, b);
    CountZero(a, '.');
    CountZero(b, '.');
    RemoveAllAbsent(a, '.');
    RemoveAllAbsent(b, '.');
    AllDigitsConcat(a, b);
  }

  /** The checks applied after the sign accept exactly the unsigned decimals. */
  lemma UnsignedIff(t: string)
    ensures UnsignedChecks(t) <==> Unsigned(t)
  {
    if Unsigned(t) {
      UnsignedPassesChecks(t);
    } else if '.' !in t {
      ChecksWithoutDot(t);
    } else {
      var i :| 0 <= i < |t| && t[i] == '.';
      ChecksWithDot(t, i);
    }
  }

  /** An unsigned decimal never starts with `-`. */
  lemma DashNotUnsigned(s: string)
    requires |s| >= 1 && s[0] == '-'
    ensures !Unsigned(s)
  {
    assert !IsDigit(s[0]);
    assert forall i :: 1 <= i <= |s| ==> s[..i][0] == s[0];
  }

  /** `valid_number` accepts exactly the strings of the numeral grammar. */
  lemma ValidNumberIffNumeral(s: string)
    ensures ValidNumber(s) <==> Numeral(s)
  {
    if s != "" {
      UnsignedIff(s);
      UnsignedIff(s[1..]);
      if s[0] == '-' {
        DashNotUnsigned(s);
      }
    }
  }

  /** Digits after the first `.`, or 0 when there is none. */
  function FractionLength(t: string): nat {
    if t == [] then 0 else if t[0] == '.' then |t| - 1 else FractionLength(t[1..])
  }

  /** The exact number `float(s)` approximates for an accepted `s`: its digits read
      as an integer, scaled down by the digits after the `.`, negated after a `-`. */
  function Value(s: string): real
    requires ValidNumber(s)
  {
    var negative := s[0] == '-';
    var t := if negative then s[1..] else s;
    var magnitude := DigitsValue(RemoveAll(t, '.')) as real / Pow10(FractionLength(t)) as real;
    if negative then -magnitude else magnitude
  }

  /** A digit string has no fraction digits. */
  lemma {:induction false} DigitsFractionLength(t: string)
    requires AllDigits(t)
    ensures FractionLength(t) == 0
  {
    if t != [] {
      DigitsFractionLength(t[1..]);
    }
  }

  /** An unsigned digit string is a valid number and `float` reads it as its digits' value. */
  lemma DigitsValid(d: string)
    requires |d| >= 1 && AllDigits(d)
    ensures ValidNumber(d) && Value(d) == DigitsValue(d) as real
  {
    assert d[0] != '-';
    DigitsHaveNoDot(d);
    CountZero(d, '.');
    RemoveAllAbsent(d, '.');
    DigitsFractionLength(d);
    assert Pow10(0) == 1;
  }

  /** Appending digits shifts the value left by one place per appended digit. */
  lemma {:induction false} DigitsValueConcat(a: string, b: string)
    requires AllDigits(a) && AllDigits(b)
    ensures AllDigits(a + b) && DigitsValue(a + b) == DigitsValue(a) * Pow10(|b|) + DigitsValue(b)
  {
    AllDigitsConcat(a, b);
    if b == [] {
      assert a + b == a;
    } else {
      var front := b[..|b| - 1];
      DigitsValueConcat(a, front);
      var d := DigitValue(b[|b| - 1]);
      LastDigitStep(a, b, front);
      ShiftPlace(DigitsValue(a), DigitsValue(front), Pow10(|front|), d);
    }
  }

  /** Dropping the last digit of `a + b` drops the last digit of `b`. */
  lemma LastDigitStep(a: string, b: string, front: string)
    requires AllDigits(a) && AllDigits(b) && b != [] && front == b[..|b| - 1]
    ensures AllDigits(a + front) && AllDigits(a + b) && AllDigits(front)
    ensures DigitsValue(a + b) == 10 * DigitsValue(a + front) + DigitValue(b[|b| - 1])
    ensures DigitsValue(b) == 10 * DigitsValue(front) + DigitValue(b[|b| - 1])
    ensures Pow10(|b|) == 10 * Pow10(|front|)
  {
    AllDigitsConcat(a, b);
    AllDigitsConcat(a, front);
    assert (a + b)[..|a + b| - 1] == a + front;
    assert (a + b)[|a + b| - 1] == b[|b| - 1];
  }

  lemma ShiftPlace(x: nat, y: nat, p: nat, d: nat)
    ensures 10 * (x * p + y) + d == x * (10 * p) + (10 * y + d)
  {
  }

  /** After the first `.`, the fraction length is the number of characters that follow it. */
  lemma {:induction false} FractionLengthAfterDot(a: string, b: string)
    requires '.' !in a
    ensures FractionLength(a + ['.'] + b) == |b|
  {
    if a != [] {
      assert (a + ['.'] + b)[1..] == a[1..] + ['.'] + b;
      FractionLengthAfterDot(a[1..], b);
    }
  }

  /** Whole and fractional parts over a common power of ten. */
  lemma ScaledSum(n: nat, w: nat, f: nat, p: nat)
    requires p >= 1 && n == w * p + f
    ensures n as real / p as real == w as real + f as real / p as real
  {
  }

  /** A numeral `a.b` with a digit on at least one side is accepted, and `float` reads it as
      the whole part `a` plus the fraction `b` over `10^|b|`; after a `-`, as its negation. */
  lemma FractionValue(a: string, b: string)
    requires AllDigits(a) && AllDigits(b) && |a| + |b| >= 1
    ensures ValidNumber(a + "." + b)
    ensures Value(a + "." + b) == DigitsValue(a) as real + DigitsValue(b) as real / Pow10(|b|) as real
    ensures ValidNumber("-" + a + "." + b)
    ensures Value("-" + a + "." + b) == -(DigitsValue(a) as real + DigitsValue(b) as real / Pow10(|b|) as real)
  {
    var t := a + ['.'] + b;
    assert a + "." + b == t;
    assert "-" + a + "." + b == "-" + t;
    DotValue(a, b);
    NegateValue(t);
  }

  /** The unsigned half of `FractionValue`, on `a + ['.'] + b`. */
  lemma DotValue(a: string, b: string)
    requires AllDigits(a) && AllDigits(b) && |a| + |b| >= 1
    ensures ValidNumber(a + ['.'] + b) && (a + ['.'] + b)[0] != '-'
    ensures Value(a + ['.'] + b) == DigitsValue(a) as real + DigitsValue(b) as real / Pow10(|b|) as real
  {
    var t := a + ['.'] + b;
    FractionChecks(a, b);
    FractionLengthAfterDot(a, b);
    DigitsValueConcat(a, b);
    UnsignedValue(t);
    ScaledSum(DigitsValue(a + b), DigitsValue(a), DigitsValue(b), Pow10(|b|));
  }

  lemma UnsignedValue(t: string)
    requires ValidNumber(t) && t[0] != '-'
    ensures Value(t) == DigitsValue(RemoveAll(t, '.')) as real / Pow10(FractionLength(t)) as real
  {
  }

  /** `a.b` passes the checks of `valid_number` with `a + b` as its digits. */
  lemma FractionChecks(a: string, b: string)
    requires AllDigits(a) && AllDigits(b) && |a| + |b| >= 1
    ensures '.' !in a
    ensures ValidNumber(a + ['.'] + b) && (a + ['.'] + b)[0] != '-'
    ensures RemoveAll(a + ['.'] + b, '.') == a + b
  {
    var t := a + ['.'] + b;
    assert t[0] != '-' by {
      if a != [] {
        assert t[0] == a[0];
      }
    }
    DigitsHaveNoDot(a);
    DigitsHaveNoDot(b);
    AroundDot(a, b);
    CountZero(a, '.');
    CountZero(b, '.');
    RemoveAllAbsent(a, '.');
    RemoveAllAbsent(b, '.');
    AllDigitsConcat(a, b);
  }

  /** `str(n)` and `"-" + str(n)` are valid numbers and `float` reads them back as `n`
      and `-n`. */
  lemma ValueOfDecimalString(n: nat)
    ensures ValidNumber(DecimalString(n)) && Value(DecimalString(n)) == n as real
    ensures ValidNumber("-" + DecimalString(n)) && Value("-" + DecimalString(n)) == -(n as real)
  {
    DecimalStringValue(n);
    DigitsValid(DecimalString(n));
    NegateValue(DecimalString(n));
  }

  /** Examples: `""`, `"-"`, `"1.2.3"` and `"abc"` are rejected. */
  lemma RejectedExamples()
    ensures !ValidNumber("") && !ValidNumber("-") && !ValidNumber("1.2.3") && !ValidNumber("abc")
  {
    assert "-"[1..] == "";
    assert Count("1.2.3", '.') == 2;
    RemoveAllAbsent("abc", '.');
    assert !IsDigit("abc"[0]);
  }

  /** Examples: `"10"`, `"20.5"` and `"-3.5"` are accepted at their values. */
  lemma ValueExamples()
    ensures ValidNumber("10") && Value("10") == 10.0
    ensures ValidNumber("20.5") && Value("20.5") == 20.5
    ensures ValidNumber("-3.5") && Value("-3.5") == -3.5
  {
    TenExample();
    FractionExample();
    NegativeExample();
  }

  lemma TenExample()
    ensures ValidNumber("10") && Value("10") == 10.0
  {
    assert DecimalString(10) == "10";
    ValueOfDecimalString(10);
  }

  lemma TwentyExample()
    ensures ValidNumber("20") && Value("20") == 20.0
  {
    assert DecimalString(20) == "20";
    ValueOfDecimalString(20);
  }

  lemma FractionExample()
    ensures ValidNumber("20.5") && Value("20.5") == 20.5
  {
    var t := "20.5";
    DotSplitExample();
    assert DigitsValue("205") == 205 by {
      assert "205"[..2] == "20";
      assert "20"[..1] == "2";
      assert "2"[..0] == "";
    }
  }

  lemma DotSplitExample()
    ensures Count("20.5", '.') == 1 && RemoveAll("20.5", '.') == "205" && FractionLength("20.5") == 1
  {
    var t := "20.5";
    AroundDot("20", "5");
    assert t == "20" + ['.'] + "5";
    RemoveAllAbsent("20", '.');
    RemoveAllAbsent("5", '.');
    CountZero("20", '.');
    CountZero("5", '.');
    assert t[1..] == "0.5";
    assert t[1..][1..] == ".5";
  }

  /** A leading `-` on an accepted unsigned string is accepted and negates its value. */
  lemma NegateValue(t: string)
    requires ValidNumber(t) && t[0] != '-'
    ensures ValidNumber("-" + t) && Value("-" + t) == -Value(t)
  {
    var s := "-" + t;
    assert s != "" && s[0] == '-' && s[1..] == t;
  }

  lemma NegativeExample()
    ensures ValidNumber("-3.5") && Value("-3.5") == -3.5
  {
    ThreeAndAHalf();
    NegateValue("3.5");
    assert "-" + "3.5" == "-3.5";
  }

  lemma ThreeAndAHalf()
    ensures ValidNumber("3.5") && Value("3.5") == 3.5
  {
    var t := "3.5";
    AroundDot("3", "5");
    assert t == "3" + ['.'] + "5";
    RemoveAllAbsent("3", '.');
    RemoveAllAbsent("5", '.');
    assert RemoveAll(t, '.') == "35";
    assert DigitsValue("35") == 35 by {
      assert "35"[..1] == "3";
      assert "3"[..0] == "";
    }
    assert FractionLength(t) == 1 by {
      assert t[1..] == ".5";
    }
  }
}
