/** The check digits of the Brazilian taxpayer numbers, and which single errors they detect. */
module CpfCnpj {
  import opened Decimal
  import opened Modulo11

  type Weights = seq<nat>

  // /^(\d)\1+$/
  predicate HasRepeatedDigits(s: string) {
    |s| >= 2 && IsDigit(s[0]) && forall i :: 0 <= i < |s| ==> s[i] == s[0]
  }

  function WeightedSum(d: string, weights: Weights): nat
    requires AllDigits(d) && |weights| <= |d|
  {
    if weights == [] then 0
    else
      var n := |weights| - 1;
      WeightedSum(d, weights[..n]) + DigitOf(d[n]) * weights[n]
  }

  function CpfWeights(position: nat): (w: Weights)
    ensures |w| == position
  {
    seq(position, i requires 0 <= i < position => position + 1 - i)
  }

  const CNPJ_FIRST: Weights := [5, 4, 3, 2, 9, 8, 7, 6, 5, 4, 3, 2]
  const CNPJ_SECOND: Weights := [6, 5, 4, 3, 2, 9, 8, 7, 6, 5, 4, 3, 2]

  function CpfDigitOf(sum: nat): nat {
    var rest := (sum * 10) % 11;
    if rest == 10 then 0 else rest
  }

  function CnpjDigitOf(sum: nat): nat {
    var rest := sum % 11;
    if rest < 2 then 0 else 11 - rest
  }

  method CpfDigit(digits: string, position: nat) returns (digit: nat)
    requires AllDigits(digits) && position <= |digits|
    ensures digit == CpfDigitOf(WeightedSum(digits, CpfWeights(position)))
  {
    var sum := 0;
    var index := 0;
    ghost var weights := CpfWeights(position);
    while index < position
      invariant index <= position && sum == WeightedSum(digits, weights[..index])
    {
      assert weights[..index + 1][..index] == weights[..index];
      sum := sum + DigitOf(digits[index]) * (position + 1 - index);
      index := index + 1;
    }
    assert weights[..position] == weights;
    var rest := (sum * 10) % 11;
    digit := if rest == 10 then 0 else rest;
  }

  predicate IsValidCpf(value: string) {
    && |value| == 11 && AllDigits(value) && !HasRepeatedDigits(value)
    && CpfDigitOf(WeightedSum(value, CpfWeights(9))) == DigitOf(value[9])
    && CpfDigitOf(WeightedSum(value, CpfWeights(10))) == DigitOf(value[10])
  }

  method CheckCpf(value: string) returns (valid: bool)
    ensures valid == IsValidCpf(value)
  {
    if |value| != 11 || !AllDigits(value) || HasRepeatedDigits(value) {
      return false;
    }
    var first := CpfDigit(value, 9);
    var second := CpfDigit(value, 10);
    valid := first == DigitOf(value[9]) && second == DigitOf(value[10]);
  }

  predicate IsValidCnpj(value: string) {
    && |value| == 14 && AllDigits(value) && !HasRepeatedDigits(value)
    && CnpjDigitOf(WeightedSum(value, CNPJ_FIRST)) == DigitOf(value[12])
    && CnpjDigitOf(WeightedSum(value, CNPJ_SECOND)) == DigitOf(value[13])
  }

  // ---------- One rule behind both ----------

  function Residue(sum: nat): (r: nat)
    ensures r < 11
  {
    sum % 11
  }

  // Residues 0 and 1 share the check digit 0; every other residue has its own.
  function DigitOfResidue(r: nat): nat
    requires r < 11
  {
    if r < 2 then 0 else 11 - r
  }

  lemma CpfUsesTheSameRule(sum: nat)
    ensures CpfDigitOf(sum) == DigitOfResidue(Residue(sum)) == CnpjDigitOf(sum)
  {
    var q, r := sum / 11, sum % 11;
    assert sum * 10 == 11 * (10 * q) + 10 * r;
    DropMultiples(10 * q, 10 * r);
  }

  // Two different residues give one digit exactly when they are 0 and 1.
  predicate Collapse(a: nat, b: nat) {
    (a == 0 && b == 1) || (a == 1 && b == 0)
  }

  lemma SameDigit(a: nat, b: nat)
    requires a < 11 && b < 11
    ensures DigitOfResidue(a) == DigitOfResidue(b) <==> a == b || Collapse(a, b)
  {
  }

  // ---------- The two numbers in plain sums ----------

  function FirstCpfSum(d: string): nat
    requires AllDigits(d) && |d| == 11
  {
    10 * DigitOf(d[0]) + 9 * DigitOf(d[1]) + 8 * DigitOf(d[2]) + 7 * DigitOf(d[3]) + 6 * DigitOf(d[4])
    + 5 * DigitOf(d[5]) + 4 * DigitOf(d[6]) + 3 * DigitOf(d[7]) + 2 * DigitOf(d[8])
  }

  function SecondCpfSum(d: string): nat
    requires AllDigits(d) && |d| == 11
  {
    11 * DigitOf(d[0]) + 10 * DigitOf(d[1]) + 9 * DigitOf(d[2]) + 8 * DigitOf(d[3]) + 7 * DigitOf(d[4])
    + 6 * DigitOf(d[5]) + 5 * DigitOf(d[6]) + 4 * DigitOf(d[7]) + 3 * DigitOf(d[8]) + 2 * DigitOf(d[9])
  }

  function FirstCnpjSum(d: string): nat
    requires AllDigits(d) && |d| == 14
  {
    5 * DigitOf(d[0]) + 4 * DigitOf(d[1]) + 3 * DigitOf(d[2]) + 2 * DigitOf(d[3]) + 9 * DigitOf(d[4])
    + 8 * DigitOf(d[5]) + 7 * DigitOf(d[6]) + 6 * DigitOf(d[7]) + 5 * DigitOf(d[8]) + 4 * DigitOf(d[9])
    + 3 * DigitOf(d[10]) + 2 * DigitOf(d[11])
  }

  function SecondCnpjSum(d: string): nat
    requires AllDigits(d) && |d| == 14
  {
    6 * DigitOf(d[0]) + 5 * DigitOf(d[1]) + 4 * DigitOf(d[2]) + 3 * DigitOf(d[3]) + 2 * DigitOf(d[4])
    + 9 * DigitOf(d[5]) + 8 * DigitOf(d[6]) + 7 * DigitOf(d[7]) + 6 * DigitOf(d[8]) + 5 * DigitOf(d[9])
    + 4 * DigitOf(d[10]) + 3 * DigitOf(d[11]) + 2 * DigitOf(d[12])
  }

  lemma OneMoreTerm(d: string, weights: Weights, n: nat)
    requires AllDigits(d) && n < |weights| <= |d|
    ensures WeightedSum(d, weights[..n + 1]) == WeightedSum(d, weights[..n]) + DigitOf(d[n]) * weights[n]
  {
    assert weights[..n + 1][..n] == weights[..n];
  }

  lemma TermIs(d: string, weights: Weights, n: nat, w: nat)
    requires AllDigits(d) && n < |weights| <= |d| && weights[n] == w
    ensures WeightedSum(d, weights[..n + 1]) == WeightedSum(d, weights[..n]) + w * DigitOf(d[n])
  {
    OneMoreTerm(d, weights, n);
  }

  // The terms of a weighted sum, four at a time.
  lemma FourMoreTerms(d: string, weights: Weights, n: nat, a: nat, b: nat, c: nat, e: nat)
    requires AllDigits(d) && n + 4 <= |weights| <= |d|
    requires weights[n] == a && weights[n + 1] == b && weights[n + 2] == c && weights[n + 3] == e
    ensures WeightedSum(d, weights[..n + 4])
            == WeightedSum(d, weights[..n]) + a * DigitOf(d[n]) + b * DigitOf(d[n + 1])
               + c * DigitOf(d[n + 2]) + e * DigitOf(d[n + 3])
  {
    TermIs(d, weights, n, a);
    TermIs(d, weights, n + 1, b);
    TermIs(d, weights, n + 2, c);
    TermIs(d, weights, n + 3, e);
  }

  lemma FirstCpfSumIsWeighted(d: string, weights: Weights)
    requires AllDigits(d) && |d| == 11 && weights == CpfWeights(9)
    ensures WeightedSum(d, weights) == FirstCpfSum(d)
  {
    FourMoreTerms(d, weights, 0, 10, 9, 8, 7);
    FourMoreTerms(d, weights, 4, 6, 5, 4, 3);
    TermIs(d, weights, 8, 2);
    assert weights[..9] == weights;
  }

  lemma SecondCpfSumIsWeighted(d: string, weights: Weights)
    requires AllDigits(d) && |d| == 11 && weights == CpfWeights(10)
    ensures WeightedSum(d, weights) == SecondCpfSum(d)
  {
    FourMoreTerms(d, weights, 0, 11, 10, 9, 8);
    FourMoreTerms(d, weights, 4, 7, 6, 5, 4);
    TermIs(d, weights, 8, 3);
    TermIs(d, weights, 9, 2);
    assert weights[..10] == weights;
  }

  lemma FirstCnpjSumIsWeighted(d: string, weights: Weights)
    requires AllDigits(d) && |d| == 14 && weights == CNPJ_FIRST
    ensures WeightedSum(d, weights) == FirstCnpjSum(d)
  {
    FourMoreTerms(d, weights, 0, 5, 4, 3, 2);
    FourMoreTerms(d, weights, 4, 9, 8, 7, 6);
    FourMoreTerms(d, weights, 8, 5, 4, 3, 2);
    assert weights[..12] == weights;
  }

  lemma SecondCnpjSumIsWeighted(d: string, weights: Weights)
    requires AllDigits(d) && |d| == 14 && weights == CNPJ_SECOND
    ensures WeightedSum(d, weights) == SecondCnpjSum(d)
  {
    FourMoreTerms(d, weights, 0, 6, 5, 4, 3);
    FourMoreTerms(d, weights, 4, 2, 9, 8, 7);
    FourMoreTerms(d, weights, 8, 6, 5, 4, 3);
    TermIs(d, weights, 12, 2);
    assert weights[..13] == weights;
  }

  // A check digit completes its sum to a multiple of 11, or stands at 0 for want of a digit ten.
  predicate Completes(sum: nat, digit: nat) {
    (sum + digit) % 11 == 0 || (sum % 11 == 1 && digit == 0)
  }

  lemma DigitCompletes(sum: nat, digit: nat)
    requires digit <= 9
    ensures digit == CpfDigitOf(sum) <==> Completes(sum, digit)
    ensures digit == CnpjDigitOf(sum) <==> Completes(sum, digit)
  {
    CpfUsesTheSameRule(sum);
    var q, r := sum / 11, sum % 11;
    assert sum + digit == 11 * q + (r + digit);
    DropMultiples(q, r + digit);
  }

  ghost predicate NotAllEqual(d: string) {
    exists i, j :: 0 <= i < j < |d| && d[i] != d[j]
  }

  /** A CPF is eleven digits, not all equal, of which the last two complete their sums. */
  lemma CpfIsExact(value: string)
    ensures IsValidCpf(value) <==>
            && |value| == 11 && AllDigits(value) && NotAllEqual(value)
            && Completes(FirstCpfSum(value), DigitOf(value[9]))
            && Completes(SecondCpfSum(value), DigitOf(value[10]))
  {
    if |value| == 11 && AllDigits(value) {
      FirstCpfSumIsWeighted(value, CpfWeights(9));
      SecondCpfSumIsWeighted(value, CpfWeights(10));
      DigitCompletes(FirstCpfSum(value), DigitOf(value[9]));
      DigitCompletes(SecondCpfSum(value), DigitOf(value[10]));
      EqualDigits(value);
    }
  }

  /** A CNPJ is fourteen digits, not all equal, of which the last two complete their sums. */
  lemma CnpjIsExact(value: string)
    ensures IsValidCnpj(value) <==>
            && |value| == 14 && AllDigits(value) && NotAllEqual(value)
            && Completes(FirstCnpjSum(value), DigitOf(value[12]))
            && Completes(SecondCnpjSum(value), DigitOf(value[13]))
  {
    if |value| == 14 && AllDigits(value) {
      FirstCnpjSumIsWeighted(value, CNPJ_FIRST);
      SecondCnpjSumIsWeighted(value, CNPJ_SECOND);
      DigitCompletes(FirstCnpjSum(value), DigitOf(value[12]));
      DigitCompletes(SecondCnpjSum(value), DigitOf(value[13]));
      EqualDigits(value);
    }
  }

  lemma EqualDigits(value: string)
    requires |value| >= 2 && AllDigits(value)
    ensures NotAllEqual(value) <==> !HasRepeatedDigits(value)
  {
    assert IsDigit(value[0]);
    if !HasRepeatedDigits(value) {
      var i :| 0 <= i < |value| && value[i] != value[0];
      assert 0 < i;
    }
  }

  // ---------- A single changed digit ----------

  // What one changed digit adds to a weighted sum.
  function Change(d: string, weights: Weights, i: nat, c: char): int
    requires AllDigits(d) && i < |d| && IsDigit(c)
  {
    if i < |weights| then (DigitOf(c) as int - DigitOf(d[i]) as int) * weights[i] else 0
  }

  lemma {:induction false} SumAfterChange(d: string, weights: Weights, i: nat, c: char)
    requires AllDigits(d) && |weights| <= |d| && i < |d| && IsDigit(c)
    ensures AllDigits(d[i := c])
    ensures WeightedSum(d[i := c], weights) as int == WeightedSum(d, weights) as int + Change(d, weights, i, c)
  {
    if weights != [] {
      var n := |weights| - 1;
      SumAfterChange(d, weights[..n], i, c);
      if i == n {
        LastTerm(DigitOf(c), DigitOf(d[i]), weights[i]);
      }
    }
  }

  lemma LastTerm(c: nat, e: nat, w: nat)
    ensures c * w == e * w + (c as int - e as int) * w
  {
  }

  lemma ShiftedResidue(sum: nat, change: int)
    requires sum + change >= 0
    ensures Residue(sum + change) == Residue(sum) <==> change % 11 == 0
    ensures Collapse(Residue(sum), Residue(sum + change)) ==> change % 11 == 1 || change % 11 == 10
  {
  }

  // One check digit is blind to a change exactly when the residue stays or collapses.
  ghost predicate Blind(d: string, weights: Weights, i: nat, c: char)
    requires AllDigits(d) && |weights| <= |d| && i < |d| && IsDigit(c)
  {
    SumAfterChange(d, weights, i, c);
    var a, b := Residue(WeightedSum(d, weights)), Residue(WeightedSum(d[i := c], weights));
    a == b || Collapse(a, b)
  }

  ghost predicate Collapses(d: string, weights: Weights, i: nat, c: char)
    requires AllDigits(d) && |weights| <= |d| && i < |d| && IsDigit(c)
  {
    SumAfterChange(d, weights, i, c);
    Collapse(Residue(WeightedSum(d, weights)), Residue(WeightedSum(d[i := c], weights)))
  }

  // With a weight that is not a multiple of 11 only a collapse can hide the change; with one
  // that is, everything is hidden.
  lemma BlindOnlyByCollapse(d: string, weights: Weights, i: nat, c: char)
    requires AllDigits(d) && |weights| <= |d| && i < |weights| && IsDigit(c) && c != d[i]
    ensures weights[i] % 11 != 0 ==> (Blind(d, weights, i, c) <==> Collapses(d, weights, i, c))
    ensures weights[i] % 11 == 0 ==> Blind(d, weights, i, c) && !Collapses(d, weights, i, c)
    ensures var delta := DigitOf(c) as int - DigitOf(d[i]) as int;
            Collapses(d, weights, i, c) ==> (delta * weights[i]) % 11 == 1 || (delta * weights[i]) % 11 == 10
  {
    SumAfterChange(d, weights, i, c);
    var delta := DigitOf(c) as int - DigitOf(d[i]) as int;
    ShiftedResidue(WeightedSum(d, weights), delta * weights[i]);
    if weights[i] % 11 == 0 {
      ZeroWeight(delta, weights[i]);
    } else if (delta * weights[i]) % 11 == 0 {
      DigitsAreUnits(delta, weights[i]);
    }
  }

  // Where two weights are not multiples of 11 and neither cancel nor agree, some digit notices.
  lemma OneOfTwoNotices(d: string, first: Weights, second: Weights, i: nat, c: char)
    requires AllDigits(d) && |first| <= |d| && |second| <= |d| && i < |first| && i < |second| && IsDigit(c) && c != d[i]
    requires first[i] % 11 != 0 && second[i] % 11 != 0
    requires (first[i] + second[i]) % 11 != 0 && (first[i] as int - second[i] as int) % 11 != 0
    ensures !(Blind(d, first, i, c) && Blind(d, second, i, c))
  {
    BlindOnlyByCollapse(d, first, i, c);
    BlindOnlyByCollapse(d, second, i, c);
    if Collapses(d, first, i, c) && Collapses(d, second, i, c) {
      BothCollapse(DigitOf(c) as int - DigitOf(d[i]) as int, first[i], second[i]);
    }
  }

  // ---------- Which changed digits a number survives ----------

  // Whether one check digit still agrees when a digit it covers changes.
  lemma DigitStillAgrees(d: string, weights: Weights, i: nat, c: char)
    requires AllDigits(d) && |weights| <= |d| && i < |weights| && IsDigit(c) && c != d[i]
    ensures AllDigits(d[i := c])
    ensures CpfDigitOf(WeightedSum(d[i := c], weights)) == CpfDigitOf(WeightedSum(d, weights)) <==>
              Blind(d, weights, i, c)
    ensures CnpjDigitOf(WeightedSum(d[i := c], weights)) == CnpjDigitOf(WeightedSum(d, weights)) <==>
              Blind(d, weights, i, c)
  {
    SumAfterChange(d, weights, i, c);
    var before, after := WeightedSum(d, weights), WeightedSum(d[i := c], weights);
    CpfUsesTheSameRule(before);
    CpfUsesTheSameRule(after);
    SameDigit(Residue(before), Residue(after));
  }

  // Where a digit is covered by both sums, it is blind to both exactly under these conditions.
  lemma BlindToBoth(d: string, first: Weights, second: Weights, i: nat, c: char)
    requires AllDigits(d) && |first| <= |d| && |second| <= |d| && i < |first| && i < |second| && IsDigit(c) && c != d[i]
    requires first[i] % 11 != 0
    ensures Blind(d, first, i, c) && Blind(d, second, i, c) <==>
            && (second[i] % 11 == 0 || (first[i] + second[i]) % 11 == 0
                || (first[i] as int - second[i] as int) % 11 == 0)
            && Collapses(d, first, i, c)
            && (second[i] % 11 != 0 ==> Collapses(d, second, i, c))
  {
    BlindOnlyByCollapse(d, first, i, c);
    BlindOnlyByCollapse(d, second, i, c);
    if second[i] % 11 != 0 && (first[i] + second[i]) % 11 != 0 && (first[i] as int - second[i] as int) % 11 != 0 {
      OneOfTwoNotices(d, first, second, i, c);
    }
  }

  lemma CpfPlaces(i: nat)
    requires i < 9
    ensures CpfWeights(9)[i] % 11 != 0
    ensures CpfWeights(10)[i] % 11 == 0 <==> i == 0
    ensures (CpfWeights(9)[i] + CpfWeights(10)[i]) % 11 == 0 <==> i == 5
    ensures (CpfWeights(9)[i] as int - CpfWeights(10)[i] as int) % 11 != 0
  {
    assert CpfWeights(9)[i] == 10 - i && CpfWeights(10)[i] == 11 - i;
  }

  lemma CnpjPlaces(i: nat)
    requires i < 12
    ensures CNPJ_FIRST[i] % 11 != 0 && CNPJ_SECOND[i] % 11 != 0
    ensures (CNPJ_FIRST[i] + CNPJ_SECOND[i]) % 11 == 0 <==> i == 0 || i == 4 || i == 8
    ensures (CNPJ_FIRST[i] as int - CNPJ_SECOND[i] as int) % 11 != 0
  {
  }

  /** A changed digit survives the CPF check exactly at position 0 or 5 and when every residue it
      moves only swaps 0 and 1; position 0 has weight 11 in the second sum, which never moves. */
  lemma CpfSurvivesExactly(value: string, i: nat, c: char)
    requires IsValidCpf(value) && i < 11 && IsDigit(c) && c != value[i]
    ensures IsValidCpf(value[i := c]) <==>
            && !HasRepeatedDigits(value[i := c])
            && (i == 0 || i == 5)
            && Collapses(value, CpfWeights(9), i, c)
            && (i == 5 ==> Collapses(value, CpfWeights(10), i, c))
  {
    var first, second := CpfWeights(9), CpfWeights(10);
    SumAfterChange(value, first, i, c);
    SumAfterChange(value, second, i, c);
    if i < 9 {
      DigitStillAgrees(value, first, i, c);
      DigitStillAgrees(value, second, i, c);
      CpfPlaces(i);
      BlindToBoth(value, first, second, i, c);
    }
  }

  /** A changed digit survives the CNPJ check exactly at position 0, 4 or 8 and when both residues
      only swap 0 and 1. */
  lemma CnpjSurvivesExactly(value: string, i: nat, c: char)
    requires IsValidCnpj(value) && i < 14 && IsDigit(c) && c != value[i]
    ensures IsValidCnpj(value[i := c]) <==>
            && !HasRepeatedDigits(value[i := c])
            && (i == 0 || i == 4 || i == 8)
            && Collapses(value, CNPJ_FIRST, i, c)
            && Collapses(value, CNPJ_SECOND, i, c)
  {
    SumAfterChange(value, CNPJ_FIRST, i, c);
    SumAfterChange(value, CNPJ_SECOND, i, c);
    if i < 12 {
      DigitStillAgrees(value, CNPJ_FIRST, i, c);
      DigitStillAgrees(value, CNPJ_SECOND, i, c);
      CnpjPlaces(i);
      BlindToBoth(value, CNPJ_FIRST, CNPJ_SECOND, i, c);
    }
  }

  /** A single changed digit is caught at every other position. */
  lemma SingleErrorIsDetected(value: string, i: nat, c: char)
    requires IsDigit(c) && i < |value| && c != value[i]
    ensures IsValidCpf(value) && i != 0 && i != 5 ==> !IsValidCpf(value[i := c])
    ensures IsValidCnpj(value) && i != 0 && i != 4 && i != 8 ==> !IsValidCnpj(value[i := c])
  {
    if IsValidCpf(value) {
      CpfSurvivesExactly(value, i, c);
    }
    if IsValidCnpj(value) {
      CnpjSurvivesExactly(value, i, c);
    }
  }

  // ---------- The exceptions do occur ----------

  function Zeros(n: nat): (s: string)
    ensures |s| == n && AllDigits(s) && forall i :: 0 <= i < n ==> s[i] == '0'
  {
    seq(n, _ => '0')
  }

  lemma {:induction false} ZerosWeighNothing(n: nat, weights: Weights)
    requires |weights| <= n
    ensures WeightedSum(Zeros(n), weights) == 0
  {
    if weights != [] {
      ZerosWeighNothing(n, weights[..|weights| - 1]);
    }
  }

  function Term(weights: Weights, i: nat, c: char): nat
    requires IsDigit(c)
  {
    if i < |weights| then DigitOf(c) * weights[i] else 0
  }

  // The weighted sum of a number with three digits that are not 0.
  lemma ThreeDigits(n: nat, weights: Weights, i: nat, a: char, j: nat, b: char, k: nat, c: char)
    requires |weights| <= n && i < j < k < n && IsDigit(a) && IsDigit(b) && IsDigit(c)
    ensures AllDigits(Zeros(n)[i := a][j := b][k := c])
    ensures WeightedSum(Zeros(n)[i := a][j := b][k := c], weights)
            == Term(weights, i, a) + Term(weights, j, b) + Term(weights, k, c)
  {
    var s := Zeros(n);
    ZerosWeighNothing(n, weights);
    SumAfterChange(s, weights, i, a);
    SumAfterChange(s[i := a], weights, j, b);
    SumAfterChange(s[i := a][j := b], weights, k, c);
  }

  lemma CpfWithFirstDigit(c: char)
    requires c == '0' || c == '1'
    ensures IsValidCpf("00000000604"[0 := c])
  {
    var s := Zeros(11)[0 := c][8 := '6'][10 := '4'];
    assert s == "00000000604"[0 := c];
    assert s[8] != s[0];
    ThreeDigits(11, CpfWeights(9), 0, c, 8, '6', 10, '4');
    ThreeDigits(11, CpfWeights(10), 0, c, 8, '6', 10, '4');
  }

  lemma CpfWithSixthDigit(c: char)
    requires c == '0' || c == '2'
    ensures IsValidCpf("00000003700"[5 := c])
  {
    var s := Zeros(11)[5 := c][7 := '3'][8 := '7'];
    assert s == "00000003700"[5 := c];
    assert s[7] != s[0];
    ThreeDigits(11, CpfWeights(9), 5, c, 7, '3', 8, '7');
    ThreeDigits(11, CpfWeights(10), 5, c, 7, '3', 8, '7');
  }

  /** 000.000.006-04 with its first digit mistyped as 1, and 000.000.037-00 with its sixth digit
      mistyped as 2, pass as valid numbers. */
  lemma CpfExceptionsOccur()
    ensures IsValidCpf("00000000604") && IsValidCpf("00000000604"[0 := '1'])
    ensures IsValidCpf("00000003700") && IsValidCpf("00000003700"[5 := '2'])
  {
    CpfWithFirstDigit('0');
    CpfWithFirstDigit('1');
    CpfWithSixthDigit('0');
    CpfWithSixthDigit('2');
    assert "00000000604"[0 := '0'] == "00000000604";
    assert "00000003700"[5 := '0'] == "00000003700";
  }

  // 00.000.000/0037-00, with one more digit that is not 0 at position i.
  lemma CnpjWithDigit(i: nat, c: char)
    requires (i == 0 && (c == '0' || c == '2')) || (i == 4 && c == '6') || (i == 8 && c == '2')
    ensures IsValidCnpj("00000000003700"[i := c])
  {
    var s := Zeros(14)[i := c][10 := '3'][11 := '7'];
    assert s == "00000000003700"[i := c];
    assert s[10] != s[1];
    ThreeDigits(14, CNPJ_FIRST, i, c, 10, '3', 11, '7');
    ThreeDigits(14, CNPJ_SECOND, i, c, 10, '3', 11, '7');
  }

  /** 00.000.000/0037-00 stays valid with its first, fifth or ninth digit mistyped. */
  lemma CnpjExceptionsOccur()
    ensures IsValidCnpj("00000000003700")
    ensures IsValidCnpj("00000000003700"[0 := '2'])
    ensures IsValidCnpj("00000000003700"[4 := '6'])
    ensures IsValidCnpj("00000000003700"[8 := '2'])
  {
    CnpjWithDigit(0, '0');
    assert "00000000003700"[0 := '0'] == "00000000003700";
    CnpjWithDigit(0, '2');
    CnpjWithDigit(4, '6');
    CnpjWithDigit(8, '2');
  }
}
