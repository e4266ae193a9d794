/** Strings of decimal digits and the numbers they write. */
module Decimal {
  predicate IsDigit(c: char) { '0' <= c <= '9' }

  function DigitOf(c: char): (d: nat)
    requires IsDigit(c)
    ensures d <= 9
  {
    c as int - '0' as int
  }

  function CharOf(d: nat): (c: char)
    requires d <= 9
    ensures IsDigit(c) && DigitOf(c) == d
  {
    ('0' as int + d) as char
  }

  predicate AllDigits(s: string) {
    forall i :: 0 <= i < |s| ==> IsDigit(s[i])
  }

  function Value(s: string): nat
    requires AllDigits(s)
  {
    if s == "" then 0 else 10 * Value(s[..|s| - 1]) + DigitOf(s[|s| - 1])
  }

  function Pow10(k: nat): (p: nat)
    ensures p > 0
  {
    if k == 0 then 1 else 10 * Pow10(k - 1)
  }

  lemma {:induction false} ValueIsBounded(s: string)
    requires AllDigits(s)
    ensures Value(s) < Pow10(|s|)
  {
    if s != "" {
      ValueIsBounded(s[..|s| - 1]);
    }
  }

  lemma ScaleByTen(x: int, y: int)
    ensures 10 * (x * y) == x * (10 * y)
  {
  }

  lemma OneMoreDigit(s: string, c: char)
    requires AllDigits(s) && IsDigit(c)
    ensures AllDigits(s + [c]) && Value(s + [c]) == 10 * Value(s) + DigitOf(c)
  {
    assert (s + [c])[..|s|] == s;
  }

  lemma {:induction false} ValueOfConcat(a: string, b: string)
    requires AllDigits(a) && AllDigits(b)
    ensures AllDigits(a + b) && Value(a + b) == Value(a) * Pow10(|b|) + Value(b)
  {
    if b == "" {
      assert a + b == a;
    } else {
      var front, last := b[..|b| - 1], b[|b| - 1];
      ValueOfConcat(a, front);
      OneMoreDigit(a + front, last);
      OneMoreDigit(front, last);
      assert a + b == (a + front) + [last] && b == front + [last];
      ScaleByTen(Value(a), Pow10(|front|));
    }
  }

  lemma {:induction false} ValueAfterChange(s: string, i: nat, c: char)
    requires AllDigits(s) && i < |s| && IsDigit(c)
    ensures AllDigits(s[i := c])
    ensures Value(s[i := c]) as int == Value(s) as int + (DigitOf(c) as int - DigitOf(s[i]) as int) * Pow10(|s| - 1 - i)
  {
    var n := |s| - 1;
    if i == n {
      assert s[i := c][..n] == s[..n];
    } else {
      ValueAfterChange(s[..n], i, c);
      assert s[i := c][..n] == s[..n][i := c];
      var delta := DigitOf(c) as int - DigitOf(s[i]) as int;
      ScaleByTen(delta, Pow10(n - 1 - i));
    }
  }

  // The last digits of a number: toString().padStart(width, '0') when it has no more than these.
  function Pad(n: nat, width: nat): (s: string)
    ensures |s| == width && AllDigits(s)
  {
    if width == 0 then "" else Pad(n / 10, width - 1) + [CharOf(n % 10)]
  }

  lemma {:induction false} PadWritesTheNumber(n: nat, width: nat)
    requires n < Pow10(width)
    ensures Value(Pad(n, width)) == n
  {
    if width > 0 {
      PadWritesTheNumber(n / 10, width - 1);
      OneMoreDigit(Pad(n / 10, width - 1), CharOf(n % 10));
    }
  }

  lemma CharOfDigitOf(c: char)
    requires IsDigit(c)
    ensures CharOf(DigitOf(c)) == c
  {
  }

  lemma PadStep(n: nat, v: nat, d: nat, width: nat)
    requires n == 10 * v + d && d <= 9 && width > 0
    ensures Pad(n, width) == Pad(v, width - 1) + [CharOf(d)]
  {
    assert n / 10 == v && n % 10 == d;
  }

  lemma {:induction false} PadInvertsValue(s: string)
    requires AllDigits(s)
    ensures Pad(Value(s), |s|) == s
  {
    if s != "" {
      var front, last := s[..|s| - 1], s[|s| - 1];
      PadInvertsValue(front);
      PadStep(Value(s), Value(front), DigitOf(last), |s|);
      CharOfDigitOf(last);
      assert s == front + [last];
    }
  }
}
