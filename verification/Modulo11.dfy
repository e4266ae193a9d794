/** Digit differences modulo 11, which is prime: each but 0 is invertible. */
module Modulo11 {
  lemma DropMultiples(q: int, x: int)
    ensures (11 * q + x) % 11 == x % 11
  {
  }

  function Inverse(d: int): int {
    match d
    case 1 => 1 case 2 => 6 case 3 => 4 case 4 => 3 case 5 => 9 case 6 => 2 case 7 => 8 case 8 => 7 case _ => 5
  }

  lemma InverseCancels(d: int, e: int, m: int, s: int, k: int)
    requires d * e == 11 * m + 1 && d * s == 11 * k
    ensures s == 11 * (e * k - s * m)
  {
    assert (d * e) * s == e * (d * s);
    assert (11 * m + 1) * s == 11 * (s * m) + s;
    assert e * (11 * k) == 11 * (e * k);
  }

  lemma InverseInverts(d: int) returns (m: int)
    requires 1 <= d <= 9
    ensures d * Inverse(d) == 11 * m + 1
  {
    m := match d
      case 1 => 0 case 2 => 1 case 3 => 1 case 4 => 1 case 5 => 4 case 6 => 1 case 7 => 5 case 8 => 5 case _ => 4;
  }

  lemma Quotient(x: int) returns (k: int)
    requires x % 11 == 0
    ensures x == 11 * k
  {
    k := x / 11;
  }

  lemma PositiveDigit(d: int, s: int)
    requires 1 <= d <= 9 && (d * s) % 11 == 0
    ensures s % 11 == 0
  {
    var m := InverseInverts(d);
    var k := Quotient(d * s);
    InverseCancels(d, Inverse(d), m, s, k);
    DropMultiples(Inverse(d) * k - s * m, 0);
  }

  // A digit difference is invertible modulo 11.
  lemma DigitsAreUnits(delta: int, w: int)
    requires -9 <= delta <= 9 && delta != 0 && (delta * w) % 11 == 0
    ensures w % 11 == 0
  {
    if delta > 0 {
      PositiveDigit(delta, w);
    } else {
      NegateBoth(delta, w);
      PositiveDigit(-delta, -w);
    }
  }

  lemma NegateBoth(x: int, y: int)
    ensures -x * -y == x * y
  {
  }

  lemma ZeroWeight(delta: int, w: nat)
    requires w % 11 == 0
    ensures (delta * w) % 11 == 0
  {
    assert delta * w == 11 * (delta * (w / 11));
    DropMultiples(delta * (w / 11), 0);
  }

  // Both residues can collapse only where the two weights cancel or agree modulo 11.
  lemma BothCollapse(delta: int, v: int, w: int)
    requires -9 <= delta <= 9 && delta != 0
    requires (delta * v) % 11 == 1 || (delta * v) % 11 == 10
    requires (delta * w) % 11 == 1 || (delta * w) % 11 == 10
    ensures (v + w) % 11 == 0 || (v - w) % 11 == 0
  {
    if (delta * v) % 11 == (delta * w) % 11 {
      EqualResidues(delta * v, delta * w);
      assert delta * (v - w) == delta * v - delta * w;
      DigitsAreUnits(delta, v - w);
    } else {
      OppositeResidues(delta * v, delta * w);
      assert delta * (v + w) == delta * v + delta * w;
      DigitsAreUnits(delta, v + w);
    }
  }

  lemma EqualResidues(x: int, y: int)
    requires x % 11 == y % 11
    ensures (x - y) % 11 == 0
  {
  }

  lemma OppositeResidues(x: int, y: int)
    requires (x % 11 == 1 && y % 11 == 10) || (x % 11 == 10 && y % 11 == 1)
    ensures (x + y) % 11 == 0
  {
  }
}
