/** Powers of ten modulo 97, which is prime: no digit difference times a power, or times the difference
    of two powers below the twentieth, is a multiple of 97. */
module Modulo97 {
  import opened Decimal

  lemma RemainderIgnoresMultiples(q: int, x: int)
    ensures (97 * q + x) % 97 == x % 97
  {
  }

  // Remainders of the powers of ten, and the power each belongs to.
  function PowerRemainder(k: nat): int {
    match k
    case 0 => 1 case 1 => 10 case 2 => 3 case 3 => 30 case 4 => 9 case 5 => 90 case 6 => 27 case 7 => 76
    case 8 => 81 case 9 => 34 case 10 => 49 case 11 => 5 case 12 => 50 case 13 => 15 case 14 => 53
    case 15 => 45 case 16 => 62 case 17 => 38 case 18 => 89 case _ => 17
  }

  function Logarithm(r: int): nat {
    match r
    case 1 => 0 case 10 => 1 case 3 => 2 case 30 => 3 case 9 => 4 case 90 => 5 case 27 => 6 case 76 => 7
    case 81 => 8 case 34 => 9 case 49 => 10 case 5 => 11 case 50 => 12 case 15 => 13 case 53 => 14
    case 45 => 15 case 62 => 16 case 38 => 17 case 89 => 18 case _ => 19
  }

  lemma RemaindersDiffer(a: nat, b: nat)
    requires a < b < 20
    ensures PowerRemainder(a) != PowerRemainder(b)
  {
    assert Logarithm(PowerRemainder(a)) == a;
    assert Logarithm(PowerRemainder(b)) == b;
  }

  lemma RemainderTable(k: nat)
    requires 0 < k < 20
    ensures (10 * PowerRemainder(k - 1)) % 97 == PowerRemainder(k)
  {
  }

  lemma {:induction false} PowerRemainders(k: nat)
    requires k < 20
    ensures Pow10(k) % 97 == PowerRemainder(k)
    ensures 1 <= PowerRemainder(k) <= 96
  {
    if k > 0 {
      PowerRemainders(k - 1);
      RemainderTable(k);
      TenfoldRemainder(Pow10(k - 1));
    }
  }

  lemma TenfoldRemainder(x: nat)
    ensures (10 * x) % 97 == (10 * (x % 97)) % 97
  {
    assert 10 * x == 97 * (10 * (x / 97)) + 10 * (x % 97);
    RemainderIgnoresMultiples(10 * (x / 97), 10 * (x % 97));
  }

  function Inverse(d: int): int {
    match d
    case 1 => 1 case 2 => 49 case 3 => 65 case 4 => 73 case 5 => 39 case 6 => 81 case 7 => 14 case 8 => 85 case _ => 54
  }

  lemma InverseCancels(d: int, e: int, m: int, s: int, k: int)
    requires d * e == 97 * m + 1 && d * s == 97 * k
    ensures s == 97 * (e * k - s * m)
  {
    assert (d * e) * s == e * (d * s);
    assert (97 * m + 1) * s == 97 * (s * m) + s;
    assert e * (97 * k) == 97 * (e * k);
  }

  lemma SmallProduct(d: int, s: int)
    requires 1 <= d <= 9 && 1 <= s <= 96
    ensures (d * s) % 97 != 0
  {
    var e := Inverse(d);
    assert (d * e) % 97 == 1;
    if (d * s) % 97 == 0 {
      InverseCancels(d, e, (d * e) / 97, s, (d * s) / 97);
    }
  }

  lemma NegatedIsNotMultiple(x: int)
    requires x % 97 != 0
    ensures (-x) % 97 != 0
  {
  }

  lemma SmallProductsAreNotMultiples(delta: int, r: int)
    requires -9 <= delta <= 9 && delta != 0 && -96 <= r <= 96 && r != 0
    ensures (delta * r) % 97 != 0
  {
    var d := if delta < 0 then -delta else delta;
    var s := if r < 0 then -r else r;
    SmallProduct(d, s);
    NegatedIsNotMultiple(d * s);
    Signs(delta, r);
  }

  lemma Signs(delta: int, r: int)
    ensures var p := (if delta < 0 then -delta else delta) * (if r < 0 then -r else r);
            delta * r == p || delta * r == -p
  {
  }

  // A non-zero digit difference times something congruent to r is not a multiple of 97.
  lemma ScaledIsNotMultiple(delta: int, x: int, q: int, r: int)
    requires -9 <= delta <= 9 && delta != 0 && -96 <= r <= 96 && r != 0 && x == 97 * q + r
    ensures (delta * x) % 97 != 0
  {
    assert delta * (97 * q + r) == 97 * (delta * q) + delta * r;
    RemainderIgnoresMultiples(delta * q, delta * r);
    SmallProductsAreNotMultiples(delta, r);
  }

  lemma ScaledPowerIsNotMultiple(delta: int, a: nat)
    requires -9 <= delta <= 9 && delta != 0 && a < 20
    ensures (delta * Pow10(a)) % 97 != 0
  {
    PowerRemainders(a);
    ScaledIsNotMultiple(delta, Pow10(a), Pow10(a) / 97, PowerRemainder(a));
  }

  lemma ScaledDifferenceIsNotMultiple(delta: int, a: nat, b: nat)
    requires -9 <= delta <= 9 && delta != 0 && a < 20 && b < 20 && a != b
    ensures (delta * (Pow10(a) - Pow10(b))) % 97 != 0
  {
    PowersDiffer(a, b);
    DifferenceOfRemainders(delta, Pow10(a), Pow10(b));
  }

  lemma PowersDiffer(a: nat, b: nat)
    requires a < 20 && b < 20 && a != b
    ensures Pow10(a) % 97 != Pow10(b) % 97
  {
    PowerRemainders(a);
    PowerRemainders(b);
    if a < b {
      RemaindersDiffer(a, b);
    } else {
      RemaindersDiffer(b, a);
    }
  }

  lemma DifferenceOfRemainders(delta: int, x: nat, y: nat)
    requires -9 <= delta <= 9 && delta != 0 && x % 97 != y % 97
    ensures (delta * (x - y)) % 97 != 0
  {
    ScaledIsNotMultiple(delta, x - y, x / 97 - y / 97, x % 97 - y % 97);
  }

  lemma DifferenceDecides(x: int, y: int, difference: int)
    requires y == x + difference && difference % 97 != 0
    ensures x % 97 != y % 97
  {
  }

  lemma Factor(delta: int, x: int, y: int)
    ensures delta * x + (-delta) * y == delta * (x - y)
  {
  }
}
