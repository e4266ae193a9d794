/** Amounts of money as decimal text, and what one answer of the assistant can cost. */
module CostAmounts {
  import opened Decimal
  import opened Numbers

  // Currency amounts are integers here, in millionths.
  const MICROS_PER_UNIT := 1_000_000
  const TOKENS_PER_PRICE := 1_000_000

  const INPUT_QUOTA := 32_000
  const OUTPUT_CEILING := 8_192

  // ---------- Decimal text ----------

  function Dot(s: string): (i: nat)
    ensures i <= |s| && (i < |s| ==> s[i] == '.') && forall k :: 0 <= k < i ==> s[k] != '.'
  {
    if s == "" || s[0] == '.' then 0 else Dot(s[1..]) + 1
  }

  // value.split('.'): the first two pieces.
  function Whole(s: string): string { s[..Dot(s)] }

  function Fraction(s: string): string {
    if Dot(s) == |s| then "" else Whole(s[Dot(s) + 1..])
  }

  function PadEnd(s: string, width: nat): (r: string)
    ensures |r| == if |s| < width then width else |s|
    decreases width - |s|
  {
    if |s| < width then PadEnd(s + "0", width) else s
  }

  predicate HasFraction(s: string) {
    s == "" || (2 <= |s| <= 7 && s[0] == '.' && AllDigits(s[1..]))
  }

  // /^\d{1,9}(\.\d{1,6})?$/, the prices of the configuration.
  predicate IsPrice(s: string) {
    1 <= |Whole(s)| <= 9 && AllDigits(Whole(s)) && HasFraction(s[Dot(s)..])
  }

  // /^(0|[1-9]\d{0,11})(\.\d{1,6})?$/, the cost a provider reports.
  predicate IsAmount(s: string) {
    && 1 <= |Whole(s)| <= 12 && AllDigits(Whole(s)) && (Whole(s)[0] == '0' ==> |Whole(s)| == 1)
    && HasFraction(s[Dot(s)..])
  }

  predicate IsDecimal(s: string) {
    AllDigits(Whole(s)) && AllDigits(Fraction(s)) && |Fraction(s)| <= 6
  }

  lemma {:induction false} PadEndAddsZeros(s: string, width: nat)
    requires AllDigits(s) && |s| <= width
    ensures AllDigits(PadEnd(s, width)) && Value(PadEnd(s, width)) == Value(s) * Pow10(width - |s|)
    decreases width - |s|
  {
    if |s| < width {
      assert (s + "0")[..|s|] == s;
      PadEndAddsZeros(s + "0", width);
      TenTimesPower(Value(s), width - |s| - 1);
    }
  }

  lemma TenTimesPower(x: nat, k: nat)
    ensures (10 * x) * Pow10(k) == x * Pow10(k + 1)
  {
  }

  lemma WholeOfDigits(s: string)
    requires AllDigits(s)
    ensures Whole(s) == s
  {
    assert Dot(s) < |s| ==> !IsDigit(s[Dot(s)]);
  }

  lemma ShapesAreDecimal(s: string)
    ensures IsPrice(s) || IsAmount(s) ==> IsDecimal(s)
  {
    if (IsPrice(s) || IsAmount(s)) && Dot(s) < |s| {
      assert s[Dot(s)..][1..] == s[Dot(s) + 1..];
      WholeOfDigits(s[Dot(s) + 1..]);
    }
  }

  function MicrosText(s: string): (r: string)
    requires IsDecimal(s)
    ensures AllDigits(r)
  {
    PadEndAddsZeros(Fraction(s), 6);
    Whole(s) + PadEnd(Fraction(s), 6)
  }

  // The number a decimal text writes, in millionths.
  function Micros(s: string): nat
    requires IsDecimal(s)
  {
    Value(MicrosText(s))
  }

  lemma SixPlaces()
    ensures Pow10(6) == 1_000_000
  {
    assert Pow10(1) == 10 && Pow10(2) == 100 && Pow10(4) == 10_000;
  }

  /** Gluing the digits together and padding to six places reads whole units and decimal places. */
  lemma MicrosMeaning(s: string)
    requires IsDecimal(s)
    ensures Micros(s) == Value(Whole(s)) * MICROS_PER_UNIT + Value(Fraction(s)) * Pow10(6 - |Fraction(s)|)
  {
    PadEndAddsZeros(Fraction(s), 6);
    ValueOfConcat(Whole(s), PadEnd(Fraction(s), 6));
    SixPlaces();
  }

  // A configured price, in millionths for a million tokens.
  function PriceOf(s: string): (price: nat)
    requires IsPrice(s)
    ensures IsDecimal(s) && price == Value(Whole(s)) * 1_000_000 + Value(Fraction(s)) * Pow10(6 - |Fraction(s)|)
  {
    ShapesAreDecimal(s);
    MicrosMeaning(s);
    Micros(s)
  }

  function FixedCostAmount(s: string): string {
    Whole(s) + "." + PadEnd(Fraction(s), 6)
  }

  lemma DotIsFirst(s: string, i: nat)
    requires i < |s| && s[i] == '.' && forall k :: 0 <= k < i ==> s[k] != '.'
    ensures Dot(s) == i
  {
  }

  lemma SplitAtDot(whole: string, fraction: string)
    requires AllDigits(whole) && AllDigits(fraction)
    ensures Whole(whole + "." + fraction) == whole && Fraction(whole + "." + fraction) == fraction
    ensures Dot(whole + "." + fraction) == |whole|
  {
    var s := whole + "." + fraction;
    forall k | 0 <= k < |whole| ensures s[k] != '.' {
      assert s[k] == whole[k] && IsDigit(whole[k]);
    }
    DotIsFirst(s, |whole|);
    assert s[..|whole|] == whole && s[|whole| + 1..] == fraction;
    WholeOfDigits(fraction);
  }

  /** A price has one to nine digits, and after a dot, if there is one, one to six more. */
  lemma PriceShape(whole: string, fraction: string)
    requires AllDigits(whole) && AllDigits(fraction)
    ensures IsPrice(whole) <==> 1 <= |whole| <= 9
    ensures IsPrice(whole + "." + fraction) <==> 1 <= |whole| <= 9 && 1 <= |fraction| <= 6
  {
    WholeOfDigits(whole);
    assert whole[|whole|..] == "";
    SplitAtDot(whole, fraction);
    assert (whole + "." + fraction)[|whole|..] == "." + fraction;
    assert ("." + fraction)[1..] == fraction;
  }

  /** Writing an amount with six places does not change it. */
  lemma FixedAmountIsTheSame(s: string)
    requires IsDecimal(s)
    ensures IsDecimal(FixedCostAmount(s)) && Micros(FixedCostAmount(s)) == Micros(s)
  {
    PadEndAddsZeros(Fraction(s), 6);
    SplitAtDot(Whole(s), PadEnd(Fraction(s), 6));
  }

  // ---------- The cost of one call ----------

  // Digits of a natural number without leading zeros.
  function NatText(n: nat): (s: string)
    ensures |s| >= 1 && AllDigits(s)
  {
    if n < 10 then [CharOf(n)] else NatText(n / 10) + [CharOf(n % 10)]
  }

  function PartCost(tokens: nat, price: nat): nat {
    tokens * price / TOKENS_PER_PRICE
  }

  function CostOfTokens(input: nat, output: nat, inputPrice: nat, outputPrice: nat): nat {
    PartCost(input, inputPrice) + PartCost(output, outputPrice)
  }

  function AmountText(whole: nat, rest: nat): string {
    NatText(whole) + "." + Pad(rest, 6)
  }

  function CostText(total: nat): string {
    AmountText(total / MICROS_PER_UNIT, total % MICROS_PER_UNIT)
  }

  // costOf of the provider adapter.
  function CostOf(input: nat, output: nat, inputPrice: string, outputPrice: string): string
    requires IsPrice(inputPrice) && IsPrice(outputPrice)
  {
    ShapesAreDecimal(inputPrice);
    ShapesAreDecimal(outputPrice);
    CostText(CostOfTokens(input, output, Micros(inputPrice), Micros(outputPrice)))
  }

  lemma {:induction false} NatTextIsRead(n: nat)
    ensures Value(NatText(n)) == n
    ensures NatText(n)[0] == '0' <==> n == 0
    ensures n > 0 ==> Pow10(|NatText(n)| - 1) <= n
  {
    if n < 10 {
      assert NatText(n)[..0] == "";
    } else {
      NatTextIsRead(n / 10);
      assert NatText(n)[..|NatText(n)| - 1] == NatText(n / 10);
    }
  }

  lemma {:induction false} PowersAscend(a: nat, b: nat)
    requires a <= b
    ensures Pow10(a) <= Pow10(b)
  {
    if a < b {
      PowersAscend(a, b - 1);
    }
  }

  lemma NatTextLength(n: nat, width: nat)
    requires width >= 1
    ensures |NatText(n)| <= width <==> n < Pow10(width)
  {
    NatTextIsRead(n);
    if |NatText(n)| <= width {
      ValueIsBounded(NatText(n));
      PowersAscend(|NatText(n)|, width);
    } else if n > 0 {
      PowersAscend(width, |NatText(n)| - 1);
    }
  }

  lemma TwelvePlaces()
    ensures Pow10(12) == 1_000_000_000_000
  {
    SixPlaces();
    assert Pow10(8) == 100_000_000 && Pow10(10) == 10_000_000_000;
  }

  lemma PartsOfAmount(whole: nat, rest: nat)
    ensures var text := AmountText(whole, rest);
            && Whole(text) == NatText(whole) && Fraction(text) == Pad(rest, 6)
            && IsDecimal(text) && HasFraction(text[Dot(text)..])
  {
    var fraction := Pad(rest, 6);
    SplitAtDot(NatText(whole), fraction);
    assert (NatText(whole) + "." + fraction)[|NatText(whole)|..] == "." + fraction;
    assert ("." + fraction)[1..] == fraction;
  }

  lemma SixDigitsStandForThemselves(fraction: string)
    requires AllDigits(fraction) && |fraction| == 6
    ensures PadEnd(fraction, 6) == fraction && Value(fraction) * Pow10(6 - |fraction|) == Value(fraction)
  {
    assert Pow10(0) == 1;
  }

  lemma GluedParts(whole: string, fraction: string)
    requires AllDigits(whole) && AllDigits(fraction) && |fraction| == 6
    ensures var text := whole + "." + fraction;
            && IsDecimal(text) && Micros(text) == Value(whole) * MICROS_PER_UNIT + Value(fraction)
            && FixedCostAmount(text) == text
  {
    SplitAtDot(whole, fraction);
    MicrosMeaning(whole + "." + fraction);
    SixDigitsStandForThemselves(fraction);
  }

  lemma AmountTextIsRead(whole: nat, rest: nat)
    requires rest < MICROS_PER_UNIT
    ensures var text := AmountText(whole, rest);
            IsDecimal(text) && Micros(text) == whole * MICROS_PER_UNIT + rest && FixedCostAmount(text) == text
  {
    GluedParts(NatText(whole), Pad(rest, 6));
    NatTextIsRead(whole);
    SixPlaces();
    PadWritesTheNumber(rest, 6);
  }

  lemma WholeIsAmount(whole: nat)
    ensures 1 <= |NatText(whole)| && AllDigits(NatText(whole))
    ensures NatText(whole)[0] == '0' ==> |NatText(whole)| == 1
    ensures |NatText(whole)| <= 12 <==> whole < 1_000_000_000_000
  {
    NatTextIsRead(whole);
    TwelvePlaces();
    NatTextLength(whole, 12);
  }

  /** The text of a cost stands for that cost, keeps its meaning and its form when it is written with
      six places, and is accepted exactly below a million million. */
  lemma CostTextRoundTrip(total: nat)
    ensures IsDecimal(CostText(total)) && Micros(CostText(total)) == total
    ensures FixedCostAmount(CostText(total)) == CostText(total)
    ensures IsAmount(CostText(total)) <==> total < 1_000_000_000_000 * MICROS_PER_UNIT
  {
    AmountTextIsRead(total / MICROS_PER_UNIT, total % MICROS_PER_UNIT);
    PartsOfAmount(total / MICROS_PER_UNIT, total % MICROS_PER_UNIT);
    WholeIsAmount(total / MICROS_PER_UNIT);
  }

  // ---------- The room one answer needs ----------

  // Above every price of nine digits and six places, in millionths.
  const PRICE_BOUND := 1_000_000_000 * MICROS_PER_UNIT

  // The Numbers on the way to the room: a price read, times its quota, per million; then the sum.
  datatype Part = Part(price: real, product: real, value: real)

  predicate ComputesPart(quota: nat, price: nat, part: Part) {
    && Rounds(price as real / 1000000.0, part.price)
    && Rounds(quota as real * part.price, part.product)
    && Rounds(part.product / 1000000.0, part.value)
  }

  predicate Computes(inputPrice: nat, outputPrice: nat, input: Part, output: Part, sum: real) {
    && ComputesPart(INPUT_QUOTA, inputPrice, input)
    && ComputesPart(OUTPUT_CEILING, outputPrice, output)
    && Rounds(input.value + output.value, sum)
  }

  // toFixed(6) in millionths: the nearest, of two the greater.
  function ToFixed6(x: real): int {
    (x * 1000000.0 + 0.5).Floor
  }

  // custoMaximoDeUmaResposta, whichever way its seven Numbers were rounded.
  ghost predicate IsRoom(inputPrice: nat, outputPrice: nat, room: nat) {
    exists input, output, sum :: Computes(inputPrice, outputPrice, input, output, sum) && ToFixed6(sum) == room
  }

  predicate WithinQuotas(input: nat, output: nat) {
    input <= INPUT_QUOTA && output <= OUTPUT_CEILING
  }

  // Within a few units of roundoff of an exact value in the range of the parts.
  predicate NearPart(exact: real, value: real) {
    && 0.0 <= exact <= 40000000.0
    && (1.0 - 3.0 * ROUNDOFF) * exact <= value <= (1.0 + 4.0 * ROUNDOFF) * exact
  }

  lemma PartRounds(quota: nat, price: nat, part: Part, exact: real)
    requires (quota == INPUT_QUOTA || quota == OUTPUT_CEILING) && price < PRICE_BOUND
    requires ComputesPart(quota, price, part) && exact == (quota * price) as real / 1000000000000.0
    ensures NearPart(exact, part.value)
  {
    assert quota * price <= INPUT_QUOTA * price;
  }

  lemma SumRounds(a: real, b: real, x: real, y: real, sum: real)
    requires NearPart(a, x) && NearPart(b, y) && Rounds(x + y, sum)
    ensures a + b - 0.0000001 <= sum <= a + b + 0.0000001
  {
  }

  lemma MillionthsOfSum(x: nat, y: nat, a: real, b: real, sum: real)
    requires a == x as real / 1000000000000.0 && b == y as real / 1000000000000.0
    requires a + b - 0.0000001 <= sum <= a + b + 0.0000001
    ensures (x + y) as real / 1000000.0 - 0.1 <= sum * 1000000.0 <= (x + y) as real / 1000000.0 + 0.1
  {
  }

  // Seven roundings move the sum by at most a tenth of a millionth.
  lemma RoundingsAreSmall(inputPrice: nat, outputPrice: nat, input: Part, output: Part, sum: real, x: nat, y: nat)
    requires Computes(inputPrice, outputPrice, input, output, sum)
    requires inputPrice < PRICE_BOUND && outputPrice < PRICE_BOUND
    requires x == INPUT_QUOTA * inputPrice && y == OUTPUT_CEILING * outputPrice
    ensures (x + y) as real / 1000000.0 - 0.1 <= sum * 1000000.0 <= (x + y) as real / 1000000.0 + 0.1
  {
    var a, b := x as real / 1000000000000.0, y as real / 1000000000000.0;
    PartRounds(INPUT_QUOTA, inputPrice, input, a);
    PartRounds(OUTPUT_CEILING, outputPrice, output, b);
    SumRounds(a, b, input.value, output.value, sum);
    MillionthsOfSum(x, y, a, b, sum);
  }

  lemma ProductIsMonotone(a: nat, b: nat, c: nat, d: nat)
    requires a <= c && b <= d
    ensures a * b <= c * d
  {
    assert a * b <= c * b;
    assert c * b <= c * d;
  }

  lemma PartIsMonotone(tokens: nat, quota: nat, price: nat)
    requires tokens <= quota
    ensures PartCost(tokens, price) <= PartCost(quota, price)
  {
    ProductIsMonotone(tokens, price, quota, price);
    FloorIsMonotone(tokens * price, quota * price);
  }

  lemma FloorIsMonotone(x: nat, y: nat)
    requires x <= y
    ensures x / TOKENS_PER_PRICE <= y / TOKENS_PER_PRICE
  {
  }

  // Two floored parts lose less than two millionths.
  lemma FloorsAddUp(x: nat, y: nat)
    ensures var floors := x / TOKENS_PER_PRICE + y / TOKENS_PER_PRICE;
            floors as real <= (x + y) as real / 1000000.0 < floors as real + 2.0
  {
  }

  // The room is nearest to the exact worst cost, but for a tenth of a millionth.
  lemma RoomIsNear(inputPrice: nat, outputPrice: nat, room: nat, x: nat, y: nat)
    requires inputPrice < PRICE_BOUND && outputPrice < PRICE_BOUND && IsRoom(inputPrice, outputPrice, room)
    requires x == INPUT_QUOTA * inputPrice && y == OUTPUT_CEILING * outputPrice
    ensures (x + y) as real / 1000000.0 - 0.6 <= room as real <= (x + y) as real / 1000000.0 + 0.6
  {
    var input, output, sum :| Computes(inputPrice, outputPrice, input, output, sum) && ToFixed6(sum) == room;
    RoundingsAreSmall(inputPrice, outputPrice, input, output, sum, x, y);
  }

  /** The room is at least the cost of a call that uses both quotas up, and above it by two millionths
      at most, however its Numbers were rounded. */
  lemma RoomIsTight(inputPrice: nat, outputPrice: nat, room: nat)
    requires inputPrice < PRICE_BOUND && outputPrice < PRICE_BOUND && IsRoom(inputPrice, outputPrice, room)
    ensures var worst := CostOfTokens(INPUT_QUOTA, OUTPUT_CEILING, inputPrice, outputPrice);
            worst <= room <= worst + 2
  {
    var x, y := INPUT_QUOTA * inputPrice, OUTPUT_CEILING * outputPrice;
    RoomIsNear(inputPrice, outputPrice, room, x, y);
    FloorsAddUp(x, y);
  }

  lemma CostStaysWithinRoom(input: nat, output: nat, inputPrice: nat, outputPrice: nat, room: nat)
    requires WithinQuotas(input, output) && IsRoom(inputPrice, outputPrice, room)
    requires inputPrice < PRICE_BOUND && outputPrice < PRICE_BOUND
    ensures CostOfTokens(input, output, inputPrice, outputPrice) <= room
  {
    PartIsMonotone(input, INPUT_QUOTA, inputPrice);
    PartIsMonotone(output, OUTPUT_CEILING, outputPrice);
    RoomIsTight(inputPrice, outputPrice, room);
  }

  ghost predicate NeverAbove(input: nat, output: nat) {
    forall p: nat, q: nat, room: nat :: p < PRICE_BOUND && q < PRICE_BOUND && IsRoom(p, q, room) ==>
      CostOfTokens(input, output, p, q) <= room
  }

  lemma OneMicroPerToken(tokens: nat)
    ensures PartCost(tokens, TOKENS_PER_PRICE) == tokens && PartCost(tokens, 0) == 0
  {
  }

  // At a price of one unit for a million tokens the room is the quota itself.
  lemma RoomsOfOne()
    ensures IsRoom(TOKENS_PER_PRICE, 0, INPUT_QUOTA) && IsRoom(0, TOKENS_PER_PRICE, OUTPUT_CEILING)
  {
    var nothing, ofInput, ofOutput := Part(0.0, 0.0, 0.0), Part(1.0, 32000.0, 0.032), Part(1.0, 8192.0, 0.008192);
    assert Computes(TOKENS_PER_PRICE, 0, ofInput, nothing, 0.032) && ToFixed6(0.032) == INPUT_QUOTA;
    assert Computes(0, TOKENS_PER_PRICE, nothing, ofOutput, 0.008192) && ToFixed6(0.008192) == OUTPUT_CEILING;
  }

  /** The floored cost of a call stays within the room reserved for it, at every price, exactly when
      the call stays within both token quotas. */
  lemma RoomCoversExactlyTheQuotas(input: nat, output: nat)
    ensures NeverAbove(input, output) <==> WithinQuotas(input, output)
  {
    if WithinQuotas(input, output) {
      forall p: nat, q: nat, room: nat | p < PRICE_BOUND && q < PRICE_BOUND && IsRoom(p, q, room)
        ensures CostOfTokens(input, output, p, q) <= room
      {
        CostStaysWithinRoom(input, output, p, q, room);
      }
    } else {
      OneMicroPerToken(input);
      OneMicroPerToken(output);
      RoomsOfOne();
      assert CostOfTokens(input, output, TOKENS_PER_PRICE, 0) == input;
      assert CostOfTokens(input, output, 0, TOKENS_PER_PRICE) == output;
    }
  }

  lemma PriceBound(price: string)
    requires IsPrice(price)
    ensures IsDecimal(price) && Micros(price) < PRICE_BOUND
  {
    ShapesAreDecimal(price);
    ValueIsBounded(MicrosText(price));
    SixPlaces();
    PowersAscend(|MicrosText(price)|, 15);
    assert Pow10(8) == 100_000_000 && Pow10(10) == 10_000_000_000;
    assert Pow10(12) == 1_000_000_000_000 && Pow10(14) == 100_000_000_000_000;
  }

  lemma SmallProduct(tokens: nat, price: nat, most: nat)
    requires tokens <= most && price < PRICE_BOUND
    ensures PartCost(tokens, price) <= most * 1_000_000_000
  {
    ProductIsMonotone(tokens, price, most, PRICE_BOUND);
    FloorIsMonotone(tokens * price, most * PRICE_BOUND);
  }

  // A room that was computed from two price texts.
  ghost predicate RoomFor(inputPrice: string, outputPrice: string, room: nat)
    requires IsPrice(inputPrice) && IsPrice(outputPrice)
  {
    ShapesAreDecimal(inputPrice);
    ShapesAreDecimal(outputPrice);
    IsRoom(Micros(inputPrice), Micros(outputPrice), room)
  }

  /** Whatever the tokens, a text that passes the parser stands for the sum of the two floored parts. */
  lemma AcceptedCostIsExact(input: nat, output: nat, inputPrice: string, outputPrice: string)
    requires IsPrice(inputPrice) && IsPrice(outputPrice)
    ensures var text := CostOf(input, output, inputPrice, outputPrice);
            var cost := input * PriceOf(inputPrice) / 1_000_000 + output * PriceOf(outputPrice) / 1_000_000;
            && IsDecimal(text) && IsDecimal(FixedCostAmount(text)) && Micros(FixedCostAmount(text)) == cost
            && (IsAmount(text) <==> cost < 1_000_000_000_000_000_000)
  {
    CostTextRoundTrip(CostOfTokens(input, output, PriceOf(inputPrice), PriceOf(outputPrice)));
  }

  // At a price of zero no room is needed.
  lemma FreeRoom()
    ensures IsPrice("0") && RoomFor("0", "0", 0)
  {
    assert Dot("0") == 1;
    ShapesAreDecimal("0");
    MicrosMeaning("0");
    assert Value("0") == 0 && Value("") == 0;
    var nothing := Part(0.0, 0.0, 0.0);
    assert Computes(0, 0, nothing, nothing, 0.0) && ToFixed6(0.0) == 0;
  }

  /** Within the quotas the reported cost always passes the parser, the amount charged for it is the
      sum of the two floored parts, and the room computed before the call covers it. */
  lemma ChargedIsTheCost(input: nat, output: nat, inputPrice: string, outputPrice: string, room: nat)
    requires IsPrice(inputPrice) && IsPrice(outputPrice) && WithinQuotas(input, output)
    requires RoomFor(inputPrice, outputPrice, room)
    ensures var text := CostOf(input, output, inputPrice, outputPrice);
            && IsAmount(text) && IsDecimal(FixedCostAmount(text))
            && Micros(FixedCostAmount(text))
               == input * PriceOf(inputPrice) / 1_000_000 + output * PriceOf(outputPrice) / 1_000_000
            && Micros(FixedCostAmount(text)) <= room
  {
    PriceBound(inputPrice);
    PriceBound(outputPrice);
    SmallProduct(input, Micros(inputPrice), INPUT_QUOTA);
    SmallProduct(output, Micros(outputPrice), OUTPUT_CEILING);
    CostTextRoundTrip(CostOfTokens(input, output, Micros(inputPrice), Micros(outputPrice)));
    CostStaysWithinRoom(input, output, Micros(inputPrice), Micros(outputPrice), room);
  }
}
