/** Numbers of ECMAScript: what rounding a real to the nearest one can do. */
module Numbers {
  // 2 to the power -53.
  const ROUNDOFF := 1.0 / 9007199254740992.0

  // A Number nearest to a value that is zero or well within the normal range, as all in use are.
  predicate Rounds(exact: real, computed: real) {
    -ROUNDOFF * exact <= computed - exact <= ROUNDOFF * exact
  }

  // Rounding as a function, for values up to one and well above the smallest: it keeps the order.
  ghost predicate RoundsToNearest(round: real -> real) {
    && (forall x, y :: x <= y ==> round(x) <= round(y))
    && (forall x :: 0.001 <= x <= 1.0 ==> Rounds(x, round(x)))
  }

  // ---------- Fractions of whole numbers ----------

  // x is n over d.
  ghost predicate IsFraction(x: real, n: int, d: nat) {
    d >= 1 && x * d as real == n as real
  }

  lemma CastOfProduct(n: int, m: int)
    ensures (n * m) as real == n as real * m as real
  {
  }

  lemma CrossProducts(x: real, y: real, d: real, e: real)
    ensures (x + y) * (d * e) == (x * d) * e + (y * e) * d
    ensures (x - y) * (d * e) == (x * d) * e - (y * e) * d
  {
  }

  lemma ProductKeepsOrder(x: real, p: real, q: real)
    requires x >= 0.0 && p <= q
    ensures x * p <= x * q
  {
    assert x * (q - p) >= 0.0;
  }

  lemma ProductIsBounded(x: real, y: real, most: real)
    requires 0.0 <= x <= most && 0.0 <= y <= most
    ensures x * y <= most * most
  {
    ProductKeepsOrder(x, y, most);
    ProductKeepsOrder(most, x, most);
  }

  lemma ProductIsPositive(x: real, y: real)
    requires x > 0.0 && y > 0.0
    ensures x * y > 0.0
  {
  }

  lemma SumOfFractions(x: real, y: real, n: int, m: int, d: nat, e: nat)
    requires IsFraction(x, n, d) && IsFraction(y, m, e)
    ensures IsFraction(x + y, n * e + m * d, d * e)
  {
    CrossProducts(x, y, d as real, e as real);
    CastOfProduct(d, e);
    CastOfProduct(n, e);
    CastOfProduct(m, d);
    assert d * e >= 1;
  }

  lemma WholeAndPositive(x: real, k: int)
    requires x > 0.0 && x == k as real
    ensures x >= 1.0
  {
  }

  // Of two unequal fractions the greater is so by one over both denominators at least.
  lemma FractionsAreApart(x: real, y: real, n: int, m: int, d: nat, e: nat)
    requires IsFraction(x, n, d) && IsFraction(y, m, e) && x > y
    ensures (x - y) * (d as real * e as real) >= 1.0
  {
    var gap := (x - y) * (d as real * e as real);
    assert gap == (n * e - m * d) as real by {
      CrossProducts(x, y, d as real, e as real);
      CastOfProduct(n, e);
      CastOfProduct(m, d);
    }
    ProductIsPositive(d as real, e as real);
    ProductIsPositive(x - y, d as real * e as real);
    WholeAndPositive(gap, n * e - m * d);
  }

  lemma GapOfFractions(x: real, y: real, n: int, m: int, d: nat, e: nat, most: real)
    requires IsFraction(x, n, d) && IsFraction(y, m, e) && x > y
    requires d as real <= most && e as real <= most
    ensures (x - y) * (most * most) >= 1.0
  {
    FractionsAreApart(x, y, n, m, d, e);
    ProductIsBounded(d as real, e as real, most);
    ProductKeepsOrder(x - y, d as real * e as real, most * most);
  }
}
