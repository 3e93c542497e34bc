/**
 * Positional numerals over the upper-case hexadecimal digit alphabet. A binary
 * numeral is a numeral in base 2 and a hexadecimal numeral one in base 16, so the
 * value of a digit string is defined once, here, for both.
 */
module Numerals {

  /** `base` raised to the power `e`. */
  function Pow(base: nat, e: nat): nat
  {
    if e == 0 then 1 else base * Pow(base, e - 1)
  }

  lemma {:induction false} PowPositive(base: nat, e: nat)
    requires base >= 1
    ensures Pow(base, e) >= 1
  {
    if e > 0 {
      PowPositive(base, e - 1);
    }
  }

  lemma {:induction false} PowAdd(base: nat, m: nat, n: nat)
    ensures Pow(base, m + n) == Pow(base, m) * Pow(base, n)
  {
    if m > 0 {
      PowAdd(base, m - 1, n);
      assert Pow(base, m + n) == base * Pow(base, m - 1 + n);
    }
  }

  lemma PowMonotone(base: nat, m: nat, n: nat)
    requires base >= 1 && m <= n
    ensures Pow(base, m) <= Pow(base, n)
  {
    if m < n {
      if base == 1 {
        PowOne(n);
        PowOne(m);
      } else {
        PowStrictlyIncreasing(base, m, n);
      }
    }
  }

  lemma {:induction false} PowOne(e: nat)
    ensures Pow(1, e) == 1
  {
    if e > 0 {
      PowOne(e - 1);
    }
  }

  lemma {:induction false} PowStrictlyIncreasing(base: nat, m: nat, n: nat)
    requires base >= 2 && m < n
    ensures Pow(base, m) < Pow(base, n)
  {
    PowPositive(base, m);
    if n > m + 1 {
      PowStrictlyIncreasing(base, m, n - 1);
    }
  }

  /** The upper-case hexadecimal digits '0'..'9' and 'A'..'F'. */
  predicate IsHexDigit(c: char)
  {
    '0' <= c <= '9' || 'A' <= c <= 'F'
  }

  /** The number a digit character stands for (0 for a character that is not a digit). */
  function DigitValue(c: char): (v: nat)
    ensures v < 16
    ensures IsHexDigit(c) ==> (v < 10 <==> '0' <= c <= '9')
  {
    if '0' <= c <= '9' then c as int - '0' as int
    else if 'A' <= c <= 'F' then c as int - 'A' as int + 10
    else 0
  }

  /** Distinct digit characters stand for distinct numbers. */
  lemma DigitValueInjective(c: char, d: char)
    requires IsHexDigit(c) && IsHexDigit(d) && DigitValue(c) == DigitValue(d)
    ensures c == d
  {
  }

  /** `c` is a digit of the given base: '0'/'1' in base 2, any hex digit in base 16. */
  predicate IsDigit(base: nat, c: char)
  {
    IsHexDigit(c) && DigitValue(c) < base
  }

  predicate AllDigits(base: nat, s: string)
  {
    forall i :: 0 <= i < |s| ==> IsDigit(base, s[i])
  }

  /** `n` copies of the digit '0'. */
  function Zeros(n: nat): string
  {
    seq(n, _ => '0')
  }

  /**
   * The value of the digit string `s` in `base`, most significant digit first
   * (Horner's rule: the value of all but the last digit, times the base, plus
   * the last digit). Only meaningful when `AllDigits(base, s)`; every property
   * below that needs it assumes it.
   */
  function Value(base: nat, s: string): nat
  {
    if s == [] then 0 else Value(base, s[..|s| - 1]) * base + DigitValue(s[|s| - 1])
  }

  /** Appending one digit multiplies by the base and adds the digit. */
  lemma ValueSnoc(base: nat, s: string, c: char)
    ensures Value(base, s + [c]) == Value(base, s) * base + DigitValue(c)
  {
    assert (s + [c])[..|s|] == s;
  }

  /** `a < b` gives at least one more multiple of `p`. */
  lemma MulStep(a: nat, b: nat, p: nat)
    requires a < b
    ensures a * p + p <= b * p
  {
    var k: nat := b - a - 1;
    assert b * p == a * p + p + k * p;
  }

  /** Shifting a number below `p` one place left and adding a digit stays below `p * b`. */
  lemma ShiftBound(v: nat, p: nat, b: nat, d: nat)
    requires v < p && d < b
    ensures v * b + d < b * p
  {
    MulStep(v, p, b);
  }

  /** `k` digits never reach `base^k`. */
  lemma {:induction false} ValueBound(base: nat, s: string)
    requires AllDigits(base, s)
    ensures Value(base, s) < Pow(base, |s|)
  {
    if s != [] {
      var front := s[..|s| - 1];
      ValueBound(base, front);
      ShiftBound(Value(base, front), Pow(base, |front|), base, DigitValue(s[|s| - 1]));
    }
  }

  lemma Regroup(v: int, p: int, w: int, b: int, d: int)
    ensures (v * p + w) * b + d == v * (p * b) + (w * b + d)
  {
    assert (v * p + w) * b == (v * p) * b + w * b;
    assert (v * p) * b == v * (p * b);
  }

  /** Writing the digits of `t` after those of `s` shifts `s` left by `|t|` places. */
  lemma {:induction false} ValueConcat(base: nat, s: string, t: string)
    ensures Value(base, s + t) == Value(base, s) * Pow(base, |t|) + Value(base, t)
  {
    if t == [] {
      assert s + t == s;
    } else {
      var front, c := t[..|t| - 1], t[|t| - 1];
      assert s + t == (s + front) + [c];
      assert t == front + [c];
      ValueSnoc(base, s + front, c);
      ValueSnoc(base, front, c);
      ValueConcat(base, s, front);
      Regroup(Value(base, s), Pow(base, |front|), Value(base, front), base, DigitValue(c));
      assert Pow(base, |t|) == Pow(base, |front|) * base;
    }
  }

  lemma AllDigitsConcat(base: nat, s: string, t: string)
    requires AllDigits(base, s) && AllDigits(base, t)
    ensures AllDigits(base, s + t)
  {
    var st := s + t;
    forall i | 0 <= i < |st|
      ensures IsDigit(base, st[i])
    {
      if i < |s| {
        assert st[i] == s[i];
      } else {
        assert st[i] == t[i - |s|];
      }
    }
  }

  /** The first digit counts `base^(k-1)` times in a numeral of `k` digits. */
  lemma ValueLeading(base: nat, s: string)
    requires |s| > 0
    ensures Value(base, s) == DigitValue(s[0]) * Pow(base, |s| - 1) + Value(base, s[1..])
  {
    assert s == [s[0]] + s[1..];
    ValueConcat(base, [s[0]], s[1..]);
    assert Value(base, [s[0]]) == DigitValue(s[0]) by {
      assert [s[0]][..0] == [];
    }
  }

  /** A string of zeros is worth nothing. */
  lemma {:induction false} ValueZeros(base: nat, n: nat)
    ensures Value(base, Zeros(n)) == 0
    ensures base >= 1 ==> AllDigits(base, Zeros(n))
  {
    if n > 0 {
      assert Zeros(n)[..n - 1] == Zeros(n - 1);
      ValueZeros(base, n - 1);
    }
  }

  /** Left-padding with zeros does not change the value. */
  lemma ValueLeadingZeros(base: nat, n: nat, s: string)
    ensures Value(base, Zeros(n) + s) == Value(base, s)
    ensures base >= 1 && AllDigits(base, s) ==> AllDigits(base, Zeros(n) + s)
  {
    ValueZeros(base, n);
    ValueConcat(base, Zeros(n), s);
    if base >= 1 && AllDigits(base, s) {
      AllDigitsConcat(base, Zeros(n), s);
    }
  }

  /** A quotient and a remainder below the divisor are recovered from their sum. */
  lemma DivModUnique(p: nat, q1: nat, r1: nat, q2: nat, r2: nat)
    requires r1 < p && r2 < p && q1 * p + r1 == q2 * p + r2
    ensures q1 == q2 && r1 == r2
  {
    if q1 < q2 {
      MulStep(q1, q2, p);
    } else if q2 < q1 {
      MulStep(q2, q1, p);
    }
  }

  /** Two digit strings of the same length and value are the same string. */
  lemma {:induction false} ValueInjective(base: nat, s: string, t: string)
    requires AllDigits(base, s) && AllDigits(base, t)
    requires |s| == |t| && Value(base, s) == Value(base, t)
    ensures s == t
  {
    if s != [] {
      var n := |s| - 1;
      DivModUnique(base, Value(base, s[..n]), DigitValue(s[n]), Value(base, t[..n]), DigitValue(t[n]));
      DigitValueInjective(s[n], t[n]);
      ValueInjective(base, s[..n], t[..n]);
      assert s == s[..n] + [s[n]];
      assert t == t[..n] + [t[n]];
    }
  }

  /** A non-empty digit string without a leading zero: the form a number is printed in. */
  predicate Canonical(base: nat, s: string)
  {
    AllDigits(base, s) && |s| > 0 && DigitValue(s[0]) > 0
  }

  /** A canonical numeral of `k` digits lies in `[base^(k-1), base^k)`. */
  lemma CanonicalBounds(base: nat, s: string)
    requires Canonical(base, s)
    ensures Pow(base, |s| - 1) <= Value(base, s) < Pow(base, |s|)
  {
    ValueBound(base, s);
    ValueLeading(base, s);
    MulStep(0, DigitValue(s[0]), Pow(base, |s| - 1));
  }

  /** Every number has at most one canonical numeral. */
  lemma CanonicalUnique(base: nat, s: string, t: string)
    requires base >= 2 && Canonical(base, s) && Canonical(base, t)
    requires Value(base, s) == Value(base, t)
    ensures s == t
  {
    CanonicalBounds(base, s);
    CanonicalBounds(base, t);
    if |s| < |t| {
      PowStrictlyIncreasing(base, |s| - 1, |t| - 1);
      PowStrictlyIncreasing(base, |s| - 1, |s|);
      if |s| < |t| - 1 {
        PowStrictlyIncreasing(base, |s|, |t| - 1);
      }
      assert false;
    } else if |t| < |s| {
      if |t| < |s| - 1 {
        PowStrictlyIncreasing(base, |t|, |s| - 1);
      }
      assert false;
    }
    ValueInjective(base, s, t);
  }
}
