/** The unified case number of the Brazilian courts and its check digits (ISO 7064 MOD 97-10). */
module Cnj {
  import opened Wrappers
  import opened Decimal
  import opened Modulo97

  type IsSpace = char -> bool

  function Digits(value: string): (d: string)
    ensures AllDigits(d)
  {
    if value == "" then ""
    else Digits(value[..|value| - 1]) + (if IsDigit(value[|value| - 1]) then [value[|value| - 1]] else "")
  }

  function TrimEnd(isSpace: IsSpace, value: string): string {
    if value != "" && isSpace(value[|value| - 1]) then TrimEnd(isSpace, value[..|value| - 1]) else value
  }

  function TrimStart(isSpace: IsSpace, value: string): string {
    if value != "" && isSpace(value[0]) then TrimStart(isSpace, value[1..]) else value
  }

  function Trim(isSpace: IsSpace, value: string): string {
    TrimEnd(isSpace, TrimStart(isSpace, value))
  }

  function Punctuate(d: string): string
    requires |d| == 20
  {
    d[0..7] + "-" + d[7..9] + "." + d[9..13] + "." + d[13..14] + "." + d[14..16] + "." + d[16..20]
  }

  function NormalizeCnj(isSpace: IsSpace, value: string): string {
    var digits := Digits(value);
    if |digits| != 20 then Trim(isSpace, value) else Punctuate(digits)
  }

  datatype CnjParts = CnjParts(sequential: string, checkDigit: string, year: string, segment: string,
                               court: string, origin: string)
  {
    function WithoutCheck(): string { sequential + year + segment + court + origin }
  }

  // NNNNNNN-DD.AAAA.J.TR.OOOO
  predicate MatchesPattern(s: string) {
    && |s| == 25
    && AllDigits(s[0..7]) && s[7] == '-' && AllDigits(s[8..10]) && s[10] == '.' && AllDigits(s[11..15]) && s[15] == '.'
    && IsDigit(s[16]) && s[17] == '.' && AllDigits(s[18..20]) && s[20] == '.' && AllDigits(s[21..25])
  }

  function ParseCnj(isSpace: IsSpace, value: string): (r: Option<CnjParts>)
    ensures r.Some? ==> AllDigits(r.value.checkDigit) && |r.value.checkDigit| == 2 && AllDigits(r.value.WithoutCheck())
  {
    var s := NormalizeCnj(isSpace, value);
    if MatchesPattern(s) then Some(CnjParts(s[0..7], s[8..10], s[11..15], s[16..17], s[18..20], s[21..25])) else None
  }

  function TwoDigits(n: nat): string
    requires n <= 99
  {
    [CharOf(n / 10), CharOf(n % 10)]
  }

  function ExpectedCheck(withoutCheck: nat): (expected: nat)
    ensures 2 <= expected <= 98
  {
    98 - (withoutCheck * 100) % 97
  }

  predicate IsValidCnj(isSpace: IsSpace, value: string) {
    match ParseCnj(isSpace, value)
    case None => false
    case Some(p) =>
      TwoDigits(ExpectedCheck(Value(p.WithoutCheck()))) == p.checkDigit
  }

  // ---------- Normalising ----------

  ghost predicate NoDigitIsSpace(isSpace: IsSpace) {
    forall c: char :: IsDigit(c) ==> !isSpace(c)
  }

  lemma {:induction false} DigitsOfConcat(a: string, b: string)
    ensures Digits(a + b) == Digits(a) + Digits(b)
  {
    if b == "" {
      assert a + b == a;
    } else {
      assert (a + b)[..|a + b| - 1] == a + b[..|b| - 1];
      DigitsOfConcat(a, b[..|b| - 1]);
    }
  }

  lemma {:induction false} DigitsOfDigits(d: string)
    requires AllDigits(d)
    ensures Digits(d) == d
  {
    if d != "" {
      var n := |d| - 1;
      DigitsOfDigits(d[..n]);
      assert IsDigit(d[n]) && d == d[..n] + [d[n]];
    }
  }

  lemma {:induction false} DigitsOfTrimEnd(isSpace: IsSpace, value: string)
    requires NoDigitIsSpace(isSpace)
    ensures Digits(TrimEnd(isSpace, value)) == Digits(value)
    ensures var r := TrimEnd(isSpace, value); r != "" ==> !isSpace(r[|r| - 1]) && r[0] == value[0]
    ensures |TrimEnd(isSpace, value)| <= |value|
  {
    if value != "" && isSpace(value[|value| - 1]) {
      DigitsOfTrimEnd(isSpace, value[..|value| - 1]);
    }
  }

  lemma {:induction false} DigitsOfTrimStart(isSpace: IsSpace, value: string)
    requires NoDigitIsSpace(isSpace)
    ensures Digits(TrimStart(isSpace, value)) == Digits(value)
    ensures var r := TrimStart(isSpace, value); r != "" ==> !isSpace(r[0])
  {
    if value != "" && isSpace(value[0]) {
      DigitsOfTrimStart(isSpace, value[1..]);
      assert value == value[..1] + value[1..];
      DigitsOfConcat(value[..1], value[1..]);
      assert value[..1][..0] == "";
    }
  }

  lemma TrimIsStable(isSpace: IsSpace, value: string)
    requires NoDigitIsSpace(isSpace)
    ensures Digits(Trim(isSpace, value)) == Digits(value)
    ensures Trim(isSpace, Trim(isSpace, value)) == Trim(isSpace, value)
  {
    DigitsOfTrimStart(isSpace, value);
    DigitsOfTrimEnd(isSpace, TrimStart(isSpace, value));
  }

  ghost predicate AllSpace(isSpace: IsSpace, s: string) {
    forall i :: 0 <= i < |s| ==> isSpace(s[i])
  }

  lemma {:induction false} TrimStartIsExact(isSpace: IsSpace, value: string) returns (left: string)
    ensures AllSpace(isSpace, left) && value == left + TrimStart(isSpace, value)
    ensures var rest := TrimStart(isSpace, value); rest != "" ==> !isSpace(rest[0])
  {
    left := "";
    if value != "" && isSpace(value[0]) {
      left := TrimStartIsExact(isSpace, value[1..]);
      left := [value[0]] + left;
      assert value == [value[0]] + value[1..];
    }
  }

  lemma {:induction false} TrimEndIsExact(isSpace: IsSpace, value: string) returns (right: string)
    ensures AllSpace(isSpace, right) && value == TrimEnd(isSpace, value) + right
    ensures var rest := TrimEnd(isSpace, value); rest != "" ==> !isSpace(rest[|rest| - 1])
  {
    right := "";
    if value != "" && isSpace(value[|value| - 1]) {
      var n := |value| - 1;
      right := TrimEndIsExact(isSpace, value[..n]);
      right := right + [value[n]];
      assert value == value[..n] + [value[n]];
    }
  }

  lemma TrimIsExact(isSpace: IsSpace, value: string) returns (left: string, right: string)
    ensures value == left + Trim(isSpace, value) + right && AllSpace(isSpace, left) && AllSpace(isSpace, right)
    ensures var rest := Trim(isSpace, value); rest != "" ==> !isSpace(rest[0]) && !isSpace(rest[|rest| - 1])
  {
    left := TrimStartIsExact(isSpace, value);
    var rest := TrimStart(isSpace, value);
    right := TrimEndIsExact(isSpace, rest);
    var trimmed := Trim(isSpace, value);
    assert rest == trimmed + right;
    assert left + (trimmed + right) == left + trimmed + right;
    assert trimmed != "" ==> rest[0] == trimmed[0];
  }

  lemma TwentyArePunctuated(isSpace: IsSpace, value: string, d: string)
    requires d == Digits(value) && |d| == 20
    ensures NormalizeCnj(isSpace, value) ==
            d[0..7] + "-" + d[7..9] + "." + d[9..13] + "." + d[13..14] + "." + d[14..16] + "." + d[16..20]
  {
  }

  // With twenty digits the normal form writes them with the punctuation of a case number; otherwise
  // it is the text without the white space at its two ends, which begins and ends with none.
  lemma NormalFormIsExact(isSpace: IsSpace, value: string) returns (left: string, right: string)
    ensures var d, normal := Digits(value), NormalizeCnj(isSpace, value);
            if |d| == 20 then
              normal == d[0..7] + "-" + d[7..9] + "." + d[9..13] + "." + d[13..14] + "." + d[14..16] + "." + d[16..20]
            else
              && value == left + normal + right && AllSpace(isSpace, left) && AllSpace(isSpace, right)
              && (normal != "" ==> !isSpace(normal[0]) && !isSpace(normal[|normal| - 1]))
  {
    left, right := TrimIsExact(isSpace, value);
    if |Digits(value)| == 20 {
      TwentyArePunctuated(isSpace, value, Digits(value));
    }
  }

  lemma DigitsAcross(left: string, digits: string, separator: char, right: string)
    requires Digits(left) == digits && AllDigits(right) && !IsDigit(separator)
    ensures Digits(left + [separator] + right) == digits + right
  {
    DigitsOfConcat(left + [separator], right);
    DigitsOfConcat(left, [separator]);
    assert [separator][..0] == "";
    DigitsOfDigits(right);
  }

  lemma PunctuationKeepsDigits(d: string)
    requires |d| == 20 && AllDigits(d)
    ensures Digits(Punctuate(d)) == d
  {
    var s1 := d[0..7];
    DigitsOfDigits(s1);
    var s2 := s1 + "-" + d[7..9];
    DigitsAcross(s1, d[0..7], '-', d[7..9]);
    var s3 := s2 + "." + d[9..13];
    DigitsAcross(s2, d[0..7] + d[7..9], '.', d[9..13]);
    var s4 := s3 + "." + d[13..14];
    DigitsAcross(s3, d[0..7] + d[7..9] + d[9..13], '.', d[13..14]);
    var s5 := s4 + "." + d[14..16];
    DigitsAcross(s4, d[0..7] + d[7..9] + d[9..13] + d[13..14], '.', d[14..16]);
    DigitsAcross(s5, d[0..7] + d[7..9] + d[9..13] + d[13..14] + d[14..16], '.', d[16..20]);
    assert d == d[0..7] + d[7..9] + d[9..13] + d[13..14] + d[14..16] + d[16..20];
  }

  lemma PartsOfConcat(left: string, separator: char, right: string)
    ensures var s := left + [separator] + right;
            s[..|left|] == left && s[|left|] == separator && s[|left| + 1..] == right
  {
  }

  lemma PunctuationMatches(d: string)
    requires |d| == 20 && AllDigits(d)
    ensures var s := Punctuate(d);
            && |s| == 25 && MatchesPattern(s)
            && s[0..7] == d[0..7] && s[8..10] == d[7..9] && s[11..15] == d[9..13] && s[16..17] == d[13..14]
            && s[18..20] == d[14..16] && s[21..25] == d[16..20]
  {
    var s1 := d[0..7];
    var s2 := s1 + "-" + d[7..9];
    var s3 := s2 + "." + d[9..13];
    var s4 := s3 + "." + d[13..14];
    var s5 := s4 + "." + d[14..16];
    var s := s5 + "." + d[16..20];
    assert s == Punctuate(d);
    PartsOfConcat(s1, '-', d[7..9]);
    PartsOfConcat(s2, '.', d[9..13]);
    PartsOfConcat(s3, '.', d[13..14]);
    PartsOfConcat(s4, '.', d[14..16]);
    PartsOfConcat(s5, '.', d[16..20]);
    assert s[..17] == s5[..17] && s[..15] == s4[..15] && s[..10] == s3[..10] && s[..7] == s2[..7];
    assert s[18..20] == s[..20][18..20] == s5[18..];
    assert s[16..17] == s[..17][16..17] == s4[16..];
    assert s[11..15] == s[..15][11..15] == s3[11..];
    assert s[8..10] == s[..10][8..10] == s2[8..];
    assert s[21..25] == s[21..];
    assert s[16] == s[16..17][0] && s[17] == s5[17] && s[15] == s4[15] && s[10] == s3[10] && s[7] == s2[7];
  }

  // Normalising twice changes nothing.
  lemma NormalizeIsIdempotent(isSpace: IsSpace, value: string)
    requires NoDigitIsSpace(isSpace)
    ensures NormalizeCnj(isSpace, NormalizeCnj(isSpace, value)) == NormalizeCnj(isSpace, value)
    ensures Digits(NormalizeCnj(isSpace, value)) == Digits(value)
  {
    if |Digits(value)| == 20 {
      PunctuationKeepsDigits(Digits(value));
    } else {
      TrimIsStable(isSpace, value);
    }
  }

  lemma PatternHasTwentyDigits(s: string)
    requires MatchesPattern(s)
    ensures |Digits(s)| == 20
  {
    DigitsOfDigits(s[..7]);
    PatternGroup(s, 7, 10);
    PatternGroup(s, 10, 15);
    PatternGroup(s, 15, 17);
    PatternGroup(s, 17, 20);
    PatternGroup(s, 20, 25);
    assert s[..25] == s;
  }

  lemma PatternGroup(s: string, at: nat, next: nat)
    requires at < next <= |s| && !IsDigit(s[at]) && AllDigits(s[at + 1..next])
    ensures |Digits(s[..next])| == |Digits(s[..at])| + (next - at - 1)
  {
    assert s[..next] == s[..at] + [s[at]] + s[at + 1..next];
    DigitsAcross(s[..at], Digits(s[..at]), s[at], s[at + 1..next]);
  }

  // ---------- Validity as one congruence ----------

  // The digits with the check pair moved to the end.
  function Rearranged(d: string): (r: string)
    requires |d| == 20 && AllDigits(d)
    ensures |r| == 20 && AllDigits(r)
  {
    d[0..7] + d[9..20] + d[7..9]
  }

  function CheckPair(d: string): nat
    requires |d| == 20 && AllDigits(d)
  {
    Value(d[7..9])
  }

  lemma TwoDigitValue(s: string)
    requires |s| == 2 && AllDigits(s)
    ensures Value(s) == 10 * DigitOf(s[0]) + DigitOf(s[1]) <= 99
    ensures TwoDigits(Value(s)) == s
  {
    assert s[..1][..0] == "" && s[..1][0] == s[0];
    assert Value(s[..1]) == DigitOf(s[0]);
  }

  // A number is valid exactly when it has twenty digits, its check pair lies in 02..98 and the
  // number with the pair at its end leaves remainder 1 on division by 97.
  lemma ValidIsCongruent(isSpace: IsSpace, value: string)
    requires NoDigitIsSpace(isSpace)
    ensures IsValidCnj(isSpace, value) <==>
            |Digits(value)| == 20 && 2 <= CheckPair(Digits(value)) <= 98 && Value(Rearranged(Digits(value))) % 97 == 1
  {
    if |Digits(value)| == 20 {
      CongruenceOfTwenty(isSpace, value);
    } else {
      TrimIsStable(isSpace, value);
      var s := NormalizeCnj(isSpace, value);
      assert MatchesPattern(s) ==> |Digits(s)| == 20 by {
        if MatchesPattern(s) {
          PatternHasTwentyDigits(s);
        }
      }
    }
  }

  lemma ParseOfTwenty(isSpace: IsSpace, value: string)
    requires |Digits(value)| == 20
    ensures var d := Digits(value);
            && ParseCnj(isSpace, value) == Some(CnjParts(d[0..7], d[7..9], d[9..13], d[13..14], d[14..16], d[16..20]))
            && ParseCnj(isSpace, value).value.WithoutCheck() == d[0..7] + d[9..20]
  {
    var d := Digits(value);
    PunctuationMatches(d);
    assert d[0..7] + d[9..13] + d[13..14] + d[14..16] + d[16..20] == d[0..7] + d[9..20];
  }

  // A number parses exactly when it has twenty digits, whatever stands between them; its parts are
  // the digits 0 to 6, 7 and 8, 9 to 12, 13, 14 and 15, and 16 to 19.
  lemma ParsesExactly(isSpace: IsSpace, value: string)
    requires NoDigitIsSpace(isSpace)
    ensures ParseCnj(isSpace, value).Some? <==> |Digits(value)| == 20
    ensures ParseCnj(isSpace, value).Some? ==>
              var d, p := Digits(value), ParseCnj(isSpace, value).value;
              && p.sequential == d[0..7] && p.checkDigit == d[7..9] && p.year == d[9..13]
              && p.segment == d[13..14] && p.court == d[14..16] && p.origin == d[16..20]
  {
    if |Digits(value)| == 20 {
      ParseOfTwenty(isSpace, value);
    } else {
      TrimIsStable(isSpace, value);
      if MatchesPattern(NormalizeCnj(isSpace, value)) {
        PatternHasTwentyDigits(NormalizeCnj(isSpace, value));
      }
    }
  }

  // Validity, once the parts are known: the pair is the expected number.
  lemma ValidOfParts(isSpace: IsSpace, value: string, body: string, pair: string)
    requires ParseCnj(isSpace, value).Some? && AllDigits(body) && AllDigits(pair) && |pair| == 2
    requires ParseCnj(isSpace, value).value.WithoutCheck() == body && ParseCnj(isSpace, value).value.checkDigit == pair
    ensures IsValidCnj(isSpace, value) <==> TwoDigits(ExpectedCheck(Value(body))) == pair
  {
  }

  lemma CongruenceOfTwenty(isSpace: IsSpace, value: string)
    requires |Digits(value)| == 20
    ensures IsValidCnj(isSpace, value) <==>
            2 <= CheckPair(Digits(value)) <= 98 && Value(Rearranged(Digits(value))) % 97 == 1
  {
    var d := Digits(value);
    ParseOfTwenty(isSpace, value);
    CongruenceOfParts(isSpace, value, d[0..7] + d[9..20], d[7..9]);
  }

  lemma CongruenceOfParts(isSpace: IsSpace, value: string, body: string, pair: string)
    requires ParseCnj(isSpace, value).Some? && AllDigits(body) && AllDigits(pair) && |pair| == 2
    requires ParseCnj(isSpace, value).value.WithoutCheck() == body && ParseCnj(isSpace, value).value.checkDigit == pair
    ensures IsValidCnj(isSpace, value) <==> 2 <= Value(pair) <= 98 && Value(body + pair) % 97 == 1
  {
    ValidOfParts(isSpace, value, body, pair);
    ValueWithPair(body, pair);
    CheckOfNumbers(Value(body), pair, Value(body + pair));
  }

  lemma CheckOfNumbers(body: nat, pair: string, whole: nat)
    requires AllDigits(pair) && |pair| == 2 && whole == body * 100 + Value(pair)
    ensures TwoDigits(ExpectedCheck(body)) == pair <==> 2 <= Value(pair) <= 98 && whole % 97 == 1
  {
    PairBounds(pair);
    CheckEquation(body, Value(pair));
    TwoDigitsAreInjective(ExpectedCheck(body), pair);
  }

  lemma PairBounds(pair: string)
    requires AllDigits(pair) && |pair| == 2
    ensures Value(pair) <= 99
  {
    TwoDigitValue(pair);
  }

  lemma ValueWithPair(body: string, pair: string)
    requires AllDigits(body) && AllDigits(pair) && |pair| == 2
    ensures Value(body + pair) == Value(body) * 100 + Value(pair)
  {
    ValueOfConcat(body, pair);
    assert Pow10(1) == 10 && Pow10(2) == 100;
  }

  lemma TwoDigitsAreInjective(n: nat, s: string)
    requires n <= 99 && |s| == 2 && AllDigits(s)
    ensures TwoDigits(n) == s <==> n == Value(s)
  {
    TwoDigitValue(s);
    assert DigitOf(TwoDigits(n)[0]) == n / 10 && DigitOf(TwoDigits(n)[1]) == n % 10;
  }

  lemma CheckEquation(body: nat, check: nat)
    requires check <= 99
    ensures check == ExpectedCheck(body) <==> 2 <= check <= 98 && (body * 100 + check) % 97 == 1
  {
    var q, r := (body * 100) / 97, (body * 100) % 97;
    assert body * 100 + check == 97 * q + (r + check);
    RemainderIgnoresMultiples(q, r + check);
  }

  // ---------- What the check pair detects ----------

  // Where a digit of the number stands once the check pair is at the end.
  function Place(i: nat): (p: nat)
    requires i < 20
    ensures p < 20
  {
    if i < 7 then i else if i < 9 then i + 11 else i - 2
  }

  lemma RearrangedAfterChange(d: string, i: nat, c: char)
    requires |d| == 20 && AllDigits(d) && i < 20 && IsDigit(c)
    ensures Rearranged(d)[Place(i)] == d[i]
    ensures Rearranged(d[i := c]) == Rearranged(d)[Place(i) := c]
  {
  }

  // How the number with its check pair at the end moves when one digit changes.
  lemma NumberAfterChange(d: string, i: nat, c: char)
    requires |d| == 20 && AllDigits(d) && i < 20 && IsDigit(c)
    ensures AllDigits(d[i := c])
    ensures Value(Rearranged(d[i := c])) as int
            == Value(Rearranged(d)) as int + (DigitOf(c) as int - DigitOf(d[i]) as int) * Pow10(19 - Place(i))
  {
    RearrangedAfterChange(d, i, c);
    ValueAfterChange(Rearranged(d), Place(i), c);
  }

  lemma ChangeMovesRemainder(d: string, i: nat, c: char)
    requires |d| == 20 && AllDigits(d) && i < 20 && IsDigit(c) && c != d[i]
    ensures AllDigits(d[i := c])
    ensures Value(Rearranged(d)) % 97 != Value(Rearranged(d[i := c])) % 97
  {
    var delta := DigitOf(c) as int - DigitOf(d[i]) as int;
    NumberAfterChange(d, i, c);
    ScaledPowerIsNotMultiple(delta, 19 - Place(i));
    DifferenceDecides(Value(Rearranged(d)), Value(Rearranged(d[i := c])), delta * Pow10(19 - Place(i)));
  }

  // Changing any one digit of a valid number, check pair included, makes it invalid.
  lemma SingleErrorIsDetected(isSpace: IsSpace, value: string, other: string, i: nat, c: char)
    requires NoDigitIsSpace(isSpace) && IsValidCnj(isSpace, value)
    requires i < |Digits(value)| && IsDigit(c) && c != Digits(value)[i]
    requires Digits(other) == Digits(value)[i := c]
    ensures !IsValidCnj(isSpace, other)
  {
    ValidIsCongruent(isSpace, value);
    ValidIsCongruent(isSpace, other);
    ChangeMovesRemainder(Digits(value), i, c);
  }

  lemma NumberAfterExchange(d: string, i: nat, j: nat)
    requires |d| == 20 && AllDigits(d) && i < j < 20 && d[i] != d[j]
    ensures AllDigits(d[i := d[j]][j := d[i]])
    ensures Value(Rearranged(d)) % 97 != Value(Rearranged(d[i := d[j]][j := d[i]])) % 97
  {
    var e := d[i := d[j]];
    var a, b := 19 - Place(i), 19 - Place(j);
    var delta := DigitOf(d[j]) as int - DigitOf(d[i]) as int;
    NumberAfterChange(d, i, d[j]);
    NumberAfterChange(e, j, d[i]);
    ScaledDifferenceIsNotMultiple(delta, a, b);
    Factor(delta, Pow10(a), Pow10(b));
    DifferenceDecides(Value(Rearranged(d)), Value(Rearranged(e[j := d[i]])), delta * (Pow10(a) - Pow10(b)));
  }

  // Exchanging any two unequal digits of a valid number, neighbours or not, makes it invalid.
  lemma TranspositionIsDetected(isSpace: IsSpace, value: string, other: string, i: nat, j: nat)
    requires NoDigitIsSpace(isSpace) && IsValidCnj(isSpace, value)
    requires i < j < |Digits(value)| && Digits(value)[i] != Digits(value)[j]
    requires Digits(other) == Digits(value)[i := Digits(value)[j]][j := Digits(value)[i]]
    ensures !IsValidCnj(isSpace, other)
  {
    ValidIsCongruent(isSpace, value);
    ValidIsCongruent(isSpace, other);
    NumberAfterExchange(Digits(value), i, j);
  }

  // The one pair a body accepts.
  function PairFor(sequential: string, rest: string): (pair: string)
    requires AllDigits(sequential + rest)
    ensures |pair| == 2 && AllDigits(pair) && 2 <= Value(pair) <= 98
  {
    var n := ExpectedCheck(Value(sequential + rest));
    TwoDigitsAreInjective(n, TwoDigits(n));
    TwoDigits(n)
  }

  lemma PartsOfNumber(isSpace: IsSpace, sequential: string, pair: string, rest: string, value: string)
    requires |sequential| == 7 && |pair| == 2 && |rest| == 11 && Digits(value) == sequential + pair + rest
    ensures ParseCnj(isSpace, value).Some?
    ensures ParseCnj(isSpace, value).value.WithoutCheck() == sequential + rest
    ensures ParseCnj(isSpace, value).value.checkDigit == pair
  {
    var d := Digits(value);
    ParseOfTwenty(isSpace, value);
    assert d[0..7] == sequential && d[7..9] == pair && d[9..20] == rest;
  }

  // Each body of eighteen digits has exactly one accepted check pair.
  lemma ExactlyOneCheckPair(isSpace: IsSpace, sequential: string, pair: string, rest: string, value: string)
    requires |sequential| == 7 && |pair| == 2 && |rest| == 11 && Digits(value) == sequential + pair + rest
    requires AllDigits(sequential + rest) && AllDigits(pair)
    ensures IsValidCnj(isSpace, value) <==> pair == PairFor(sequential, rest)
  {
    PartsOfNumber(isSpace, sequential, pair, rest, value);
    ValidOfParts(isSpace, value, sequential + rest, pair);
  }
}
