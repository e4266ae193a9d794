/**
 32-bit words and their bits. A left shift keeps the low 32 bits, an unsigned right shift drops
 low bits; a word is a natural below 2^32, the bits of the 32-bit integer.
 */
module Words {
  function Pow2(k: nat): (p: nat)
    ensures p > 0
  {
    if k == 0 then 1 else 2 * Pow2(k - 1)
  }

  const WORD := 0x1_0000_0000

  lemma SmallPowers()
    ensures Pow2(5) == 32 && Pow2(8) == 256
  {
  }

  lemma WordIsPow2()
    ensures Pow2(32) == WORD
  {
    assert Pow2(8) == 0x100;
    assert Pow2(16) == 0x1_0000;
    assert Pow2(24) == 0x100_0000;
  }

  // (word << k) | low, where low < 2^k
  function ShiftIn(word: nat, k: nat, low: nat): (w: nat)
    ensures w < WORD
  {
    (word * Pow2(k) + low) % WORD
  }

  // word >>> k
  function ShiftRight(word: nat, k: nat): nat {
    if k == 0 then word else ShiftRight(word / 2, k - 1)
  }

  // ---------- Bits ----------

  // The low n bits of a word, most significant first.
  function Bits(word: nat, n: nat): (b: seq<bool>)
    ensures |b| == n
  {
    if n == 0 then [] else Bits(word / 2, n - 1) + [word % 2 == 1]
  }

  function Zeros(n: nat): seq<bool> {
    seq(n, _ => false)
  }

  lemma {:induction false} BitsSplit(word: nat, n: nat, k: nat)
    ensures Bits(word, n + k) == Bits(ShiftRight(word, k), n) + Bits(word, k)
  {
    if k > 0 {
      BitsSplit(word / 2, n, k - 1);
      assert Bits(word, n + k) == Bits(word / 2, n + k - 1) + [word % 2 == 1];
    }
  }

  lemma HalfOfSum(word: nat, t: nat, r: nat)
    requires word == 2 * t + r
    ensures word / 2 == t + r / 2 && word % 2 == r % 2
  {
  }

  lemma DoubleProduct(d: nat, p: nat, q: nat)
    requires d == 2 * p
    ensures d * q == 2 * (p * q)
  {
  }

  lemma NegativeProduct(d: nat, q: int)
    requires q < 0
    ensures d * q + d <= 0
  {
    ProductIsNatural(d, -1 - q);
    assert d * (-1 - q) + d + d * q == 0;
  }

  lemma Division(x: nat, d: nat) returns (q: nat, r: nat)
    requires d > 0
    ensures x == d * q + r && r < d && r == x % d
  {
    r := x % d;
    var quotient := x / d;
    assert x == d * quotient + r;
    if quotient < 0 {
      NegativeProduct(d, quotient);
    }
    q := quotient;
  }

  lemma HalfOfParts(word: nat, p: nat, d: nat, q: nat, r: nat)
    requires r < d && d == 2 * p && word == d * q + r
    ensures (word / 2) % p == r / 2 && word % 2 == r % 2
  {
    DoubleProduct(d, p, q);
    HalfOfSum(word, p * q, r);
    RemainderOf(q, p, r / 2);
  }

  lemma HalfOfRemainder(word: nat, p: nat, d: nat)
    requires p > 0 && d == 2 * p
    ensures (word % d) / 2 == (word / 2) % p
    ensures (word % d) % 2 == word % 2
  {
    var q, r := Division(word, d);
    HalfOfParts(word, p, d, q, r);
  }

  lemma ProductIsNatural(p: nat, g: nat)
    ensures p * g >= 0
  {
  }

  lemma ScalingGap(p: nat, a: nat, b: nat)
    requires a < b
    ensures p * a + p <= p * b
  {
    var g := b - a - 1;
    ProductIsNatural(p, g);
    SpreadProduct(p, a, g);
  }

  lemma SpreadProduct(p: nat, a: nat, g: nat)
    ensures p * (a + 1 + g) == p * a + p + p * g
  {
  }

  lemma RemainderOf(q: nat, p: nat, r: nat)
    requires r < p
    ensures (p * q + r) % p == r && (p * q + r) / p == q
  {
    var x := p * q + r;
    var d, m := x / p, x % p;
    assert x == p * d + m && 0 <= m < p;
    if q > d {
      ScalingGap(p, d, q);
    } else if q < d {
      ScalingGap(p, q, d);
    }
  }

  lemma {:induction false} WrappingKeepsLowBits(word: nat, m: nat, n: nat)
    requires n <= m
    ensures Bits(word % Pow2(m), n) == Bits(word, n)
  {
    if n > 0 {
      HalfOfRemainder(word, Pow2(m - 1), Pow2(m));
      WrappingKeepsLowBits(word / 2, m - 1, n - 1);
    }
  }

  lemma HalfOfShifted(word: nat, p: nat, d: nat, low: nat)
    requires d == 2 * p
    ensures (word * d + low) / 2 == word * p + low / 2 && (word * d + low) % 2 == low % 2
  {
    DoubleProduct(d, p, word);
    HalfOfSum(word * d + low, word * p, low);
  }

  lemma {:induction false} ShiftRightOfShifted(word: nat, k: nat, low: nat)
    requires low < Pow2(k)
    ensures ShiftRight(word * Pow2(k) + low, k) == word
    ensures Bits(word * Pow2(k) + low, k) == Bits(low, k)
  {
    if k > 0 {
      var p := Pow2(k - 1);
      HalfOfShifted(word, p, Pow2(k), low);
      ShiftRightOfShifted(word, k - 1, low / 2);
    }
  }

  // Shifting k bits in appends them to the live bits, as long as no more than 32 are live.
  lemma ShiftInAppends(word: nat, live: nat, k: nat, low: nat)
    requires low < Pow2(k) && live + k <= 32
    ensures Bits(ShiftIn(word, k, low), live + k) == Bits(word, live) + Bits(low, k)
  {
    var shifted := word * Pow2(k) + low;
    WordIsPow2();
    WrappingKeepsLowBits(shifted, 32, live + k);
    BitsSplit(shifted, live, k);
    ShiftRightOfShifted(word, k, low);
  }

  // Taking the top n of n + k live bits.
  lemma TakeTop(word: nat, n: nat, k: nat)
    ensures Bits(ShiftRight(word, k) % Pow2(n), n) + Bits(word, k) == Bits(word, n + k)
  {
    BitsSplit(word, n, k);
    WrappingKeepsLowBits(ShiftRight(word, k), n, n);
  }

  lemma {:induction false} BitsOfZero(n: nat)
    ensures Bits(0, n) == Zeros(n)
  {
    if n > 0 {
      BitsOfZero(n - 1);
    }
  }

  lemma {:induction false} BitsAreInjective(a: nat, b: nat, n: nat)
    requires a < Pow2(n) && b < Pow2(n) && Bits(a, n) == Bits(b, n)
    ensures a == b
  {
    if n > 0 {
      var x, y := Bits(a / 2, n - 1), Bits(b / 2, n - 1);
      assert x == Bits(a, n)[..n - 1] && y == Bits(b, n)[..n - 1];
      assert Bits(a, n)[n - 1] == (a % 2 == 1) && Bits(b, n)[n - 1] == (b % 2 == 1);
      BitsAreInjective(a / 2, b / 2, n - 1);
    }
  }
}
