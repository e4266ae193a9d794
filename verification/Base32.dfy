/** Base32 of the shared secret (section 6 of RFC 4648, without padding). */
module Base32 {
  import opened Wrappers
  import opened Streams
  import opened Words

  const ALPHABET := "ABCDEFGHIJKLMNOPQRSTUVWXYZ234567"

  // ---------- Bytes and characters as bits ----------

  function ByteBits(bytes: Buffer): seq<bool> {
    if bytes == [] then [] else ByteBits(bytes[..|bytes| - 1]) + Bits(bytes[|bytes| - 1] as nat, 8)
  }

  // BASE32_ALPHABET[index] and BASE32_ALPHABET.indexOf(c)
  function CharOf(index: nat): (c: char)
    requires index < 32
    ensures IndexOf(c) == index
  {
    if index < 26 then ('A' as int + index) as char else ('2' as int + index - 26) as char
  }

  function IndexOf(c: char): (i: int)
    ensures -1 <= i < 32
  {
    if 'A' <= c <= 'Z' then c as int - 'A' as int
    else if '2' <= c <= '7' then c as int - '2' as int + 26
    else -1
  }

  lemma AlphabetAt(i: nat)
    requires i < 32
    ensures |ALPHABET| == 32 && ALPHABET[i] == CharOf(i)
  {
    if i < 8 {
    } else if i < 16 {
    } else if i < 24 {
    }
  }

  lemma AlphabetIsStandard(c: char)
    ensures c in ALPHABET <==> IndexOf(c) >= 0
    ensures IndexOf(c) >= 0 ==> ALPHABET[IndexOf(c)] == c
  {
    if IndexOf(c) >= 0 {
      AlphabetAt(IndexOf(c));
      assert CharOf(IndexOf(c)) == c;
    }
    if c in ALPHABET {
      var i :| 0 <= i < |ALPHABET| && ALPHABET[i] == c;
      AlphabetAt(i);
    }
  }

  predicate InAlphabet(s: string) {
    forall i :: 0 <= i < |s| ==> IndexOf(s[i]) >= 0
  }

  function CharBits(s: string): seq<bool>
    requires InAlphabet(s)
  {
    if s == "" then [] else CharBits(s[..|s| - 1]) + Bits(IndexOf(s[|s| - 1]), 5)
  }

  lemma {:induction false} ByteBitsLength(bytes: Buffer)
    ensures |ByteBits(bytes)| == 8 * |bytes|
  {
    if bytes != [] {
      ByteBitsLength(bytes[..|bytes| - 1]);
    }
  }

  lemma {:induction false} CharBitsLength(s: string)
    requires InAlphabet(s)
    ensures |CharBits(s)| == 5 * |s|
  {
    if s != "" {
      CharBitsLength(s[..|s| - 1]);
    }
  }

  lemma {:induction false} ByteBitsAreInjective(a: Buffer, b: Buffer)
    requires |a| == |b| && ByteBits(a) == ByteBits(b)
    ensures a == b
  {
    if a != [] {
      var n := |a| - 1;
      ByteBitsLength(a[..n]);
      ByteBitsLength(b[..n]);
      assert ByteBits(a)[..8 * n] == ByteBits(a[..n]) && ByteBits(b)[..8 * n] == ByteBits(b[..n]);
      assert ByteBits(a)[8 * n..] == Bits(a[n] as nat, 8) && ByteBits(b)[8 * n..] == Bits(b[n] as nat, 8);
      BitsAreInjective(a[n] as nat, b[n] as nat, 8);
      ByteBitsAreInjective(a[..n], b[..n]);
      assert a == a[..n] + [a[n]] && b == b[..n] + [b[n]];
    }
  }

  // The text spells the bits of the bytes, five to a character, padded with fewer than five
  // zero bits.
  ghost predicate Encodes(text: string, bytes: Buffer) {
    InAlphabet(text) && exists pad: nat :: pad < 5 && PaddedBy(text, bytes, pad)
  }

  ghost predicate PaddedBy(text: string, bytes: Buffer, pad: nat)
    requires InAlphabet(text)
  {
    CharBits(text) == ByteBits(bytes) + Zeros(pad)
  }

  // The bytes are the whole octets of the text's bits; fewer than eight bits are dropped.
  ghost predicate DecodesTo(text: string, bytes: Buffer)
    requires InAlphabet(text)
  {
    exists rest: seq<bool> :: |rest| < 8 && CharBits(text) == ByteBits(bytes) + rest
  }

  lemma EncodingLength(text: string, bytes: Buffer)
    requires Encodes(text, bytes)
    ensures |text| == (8 * |bytes| + 4) / 5
  {
    CharBitsLength(text);
    ByteBitsLength(bytes);
  }

  lemma IndexIsInjective(c: char, d: char)
    requires IndexOf(c) == IndexOf(d) >= 0
    ensures c == d
  {
  }

  lemma {:induction false} CharBitsAreInjective(a: string, b: string)
    requires InAlphabet(a) && InAlphabet(b) && |a| == |b| && CharBits(a) == CharBits(b)
    ensures a == b
  {
    if a != "" {
      var n := |a| - 1;
      CharBitsLength(a[..n]);
      CharBitsLength(b[..n]);
      SmallPowers();
      assert CharBits(a)[..5 * n] == CharBits(a[..n]) && CharBits(b)[..5 * n] == CharBits(b[..n]);
      assert CharBits(a)[5 * n..] == Bits(IndexOf(a[n]), 5) && CharBits(b)[5 * n..] == Bits(IndexOf(b[n]), 5);
      BitsAreInjective(IndexOf(a[n]), IndexOf(b[n]), 5);
      IndexIsInjective(a[n], b[n]);
      CharBitsAreInjective(a[..n], b[..n]);
      assert a == a[..n] + [a[n]] && b == b[..n] + [b[n]];
    }
  }

  /** Section 6 of RFC 4648 leaves no choice: one text spells the bytes. */
  lemma EncodingIsUnique(a: string, b: string, bytes: Buffer)
    requires Encodes(a, bytes) && Encodes(b, bytes)
    ensures a == b
  {
    EncodingLength(a, bytes);
    EncodingLength(b, bytes);
    CharBitsLength(a);
    CharBitsLength(b);
    CharBitsAreInjective(a, b);
  }

  lemma DecodingInvertsEncoding(text: string, bytes: Buffer, decoded: Buffer)
    requires Encodes(text, bytes) && DecodesTo(text, decoded)
    ensures decoded == bytes
  {
    var rest: seq<bool> :| |rest| < 8 && CharBits(text) == ByteBits(decoded) + rest;
    var pad: nat :| pad < 5 && PaddedBy(text, bytes, pad);
    ByteBitsLength(bytes);
    ByteBitsLength(decoded);
    assert |decoded| == |bytes|;
    assert ByteBits(decoded) == CharBits(text)[..8 * |bytes|] == ByteBits(bytes);
    ByteBitsAreInjective(decoded, bytes);
  }

  lemma PushChar(text: string, index: nat)
    requires InAlphabet(text) && index < 32
    ensures InAlphabet(text + [CharOf(index)])
    ensures CharBits(text + [CharOf(index)]) == CharBits(text) + Bits(index, 5)
  {
    assert (text + [CharOf(index)])[..|text|] == text;
  }

  // The characters out and the live bits are the bits of the first i bytes.
  ghost predicate Spelled(text: string, value: nat, bits: nat, bytes: Buffer, i: nat) {
    && InAlphabet(text) && i <= |bytes| && value < WORD
    && CharBits(text) + Bits(value, bits) == ByteBits(bytes[..i])
  }

  lemma AppendBits(emitted: seq<bool>, all: seq<bool>, word: nat, live: nat, k: nat, low: nat)
    requires low < Pow2(k) && live + k <= 32 && emitted + Bits(word, live) == all
    ensures emitted + Bits(ShiftIn(word, k, low), live + k) == all + Bits(low, k)
  {
    ShiftInAppends(word, live, k, low);
    assert emitted + (Bits(word, live) + Bits(low, k)) == (emitted + Bits(word, live)) + Bits(low, k);
  }

  // One byte goes in, one character comes out, the padded character ends.

  lemma OneMoreByte(bytes: Buffer, i: nat)
    requires i < |bytes|
    ensures ByteBits(bytes[..i + 1]) == ByteBits(bytes[..i]) + Bits(bytes[i] as nat, 8)
  {
    assert bytes[..i + 1][..i] == bytes[..i];
  }

  lemma ByteIn(text: string, value: nat, bits: nat, bytes: Buffer, i: nat)
    requires bits < 5 && i < |bytes| && Spelled(text, value, bits, bytes, i)
    ensures Spelled(text, ShiftIn(value, 8, bytes[i] as nat), bits + 8, bytes, i + 1)
  {
    SmallPowers();
    OneMoreByte(bytes, i);
    AppendBits(CharBits(text), ByteBits(bytes[..i]), value, bits, 8, bytes[i] as nat);
  }

  // Bits moved from the live ones to the end of those already out.
  lemma MoveBits(emitted: seq<bool>, moved: seq<bool>, kept: seq<bool>, live: seq<bool>)
    requires moved + kept == live
    ensures (emitted + moved) + kept == emitted + live
  {
  }

  lemma CharOut(text: string, value: nat, bits: nat, bytes: Buffer, i: nat)
    requires 5 <= bits && Spelled(text, value, bits, bytes, i)
    ensures Spelled(text + [CharOf(ShiftRight(value, bits - 5) % 32)], value, bits - 5, bytes, i)
  {
    SmallPowers();
    var index := ShiftRight(value, bits - 5) % 32;
    TakeTop(value, 5, bits - 5);
    PushChar(text, index);
    MoveBits(CharBits(text), Bits(index, 5), Bits(value, bits - 5), Bits(value, bits));
  }

  lemma LastCharOut(text: string, value: nat, bits: nat, bytes: Buffer)
    requires bits < 5 && Spelled(text, value, bits, bytes, |bytes|)
    ensures Encodes(if bits > 0 then text + [CharOf(ShiftIn(value, 5 - bits, 0) % 32)] else text, bytes)
  {
    assert bytes[..|bytes|] == bytes;
    if bits > 0 {
      var index := ShiftIn(value, 5 - bits, 0) % 32;
      PadLast(value, bits);
      PushChar(text, index);
      assert CharBits(text) + (Bits(value, bits) + Zeros(5 - bits)) == ByteBits(bytes) + Zeros(5 - bits);
      assert PaddedBy(text + [CharOf(index)], bytes, 5 - bits);
    } else {
      assert Zeros(0) == [] && PaddedBy(text, bytes, 0);
    }
  }

  method EncodeBase32(bytes: Buffer) returns (output: string)
    ensures Encodes(output, bytes)
    ensures |output| == (8 * |bytes| + 4) / 5
  {
    var bits: nat, value: nat := 0, 0;
    output := "";
    var i := 0;
    while i < |bytes|
      invariant i <= |bytes| && bits < 5 && Spelled(output, value, bits, bytes, i)
    {
      ByteIn(output, value, bits, bytes, i);
      value := ShiftIn(value, 8, bytes[i] as nat);
      bits := bits + 8;
      while bits >= 5
        invariant bits <= 12  // no more than twelve bits are ever live
        invariant Spelled(output, value, bits, bytes, i + 1)
      {
        CharOut(output, value, bits, bytes, i + 1);
        output := output + [CharOf(ShiftRight(value, bits - 5) % 32)];
        bits := bits - 5;
      }
      i := i + 1;
    }
    LastCharOut(output, value, bits, bytes);
    if bits > 0 {
      output := output + [CharOf(ShiftIn(value, 5 - bits, 0) % 32)];
    }
    EncodingLength(output, bytes);
  }

  lemma PadLast(value: nat, bits: nat)
    requires 0 < bits < 5
    ensures Bits(ShiftIn(value, 5 - bits, 0) % 32, 5) == Bits(value, bits) + Zeros(5 - bits)
  {
    SmallPowers();
    ShiftInAppends(value, bits, 5 - bits, 0);
    WrappingKeepsLowBits(ShiftIn(value, 5 - bits, 0), 5, 5);
    BitsOfZero(5 - bits);
  }

  // ---------- Decoding ----------

  type IsSpace = char -> bool
  type Upper = char -> string

  // Drop white space and equals signs, and raise the case.
  function Clean(isSpace: IsSpace, upper: Upper, value: string): string {
    if value == "" then ""
    else (if isSpace(value[0]) || value[0] == '=' then "" else upper(value[0])) + Clean(isSpace, upper, value[1..])
  }

  // A character that decoding ignores, or whose upper case is spelt in the alphabet.
  ghost predicate MayStand(isSpace: IsSpace, upper: Upper, c: char) {
    isSpace(c) || c == '=' || forall k :: 0 <= k < |upper(c)| ==> upper(c)[k] in ALPHABET
  }

  lemma InAlphabetIsMembership(s: string)
    ensures InAlphabet(s) <==> forall k :: 0 <= k < |s| ==> s[k] in ALPHABET
  {
    forall k | 0 <= k < |s| ensures s[k] in ALPHABET <==> IndexOf(s[k]) >= 0 {
      AlphabetIsStandard(s[k]);
    }
  }

  lemma InAlphabetOfConcat(s: string, t: string)
    ensures InAlphabet(s + t) <==> InAlphabet(s) && InAlphabet(t)
  {
    assert forall k :: 0 <= k < |s| ==> (s + t)[k] == s[k];
    assert forall k :: 0 <= k < |t| ==> (s + t)[|s| + k] == t[k];
  }

  /** A text is over the alphabet once cleaned exactly when each of its characters may stand there. */
  lemma {:induction false} CleanIsExact(isSpace: IsSpace, upper: Upper, value: string)
    ensures InAlphabet(Clean(isSpace, upper, value)) <==>
            forall i :: 0 <= i < |value| ==> MayStand(isSpace, upper, value[i])
  {
    if value != "" {
      var first := if isSpace(value[0]) || value[0] == '=' then "" else upper(value[0]);
      CleanIsExact(isSpace, upper, value[1..]);
      InAlphabetOfConcat(first, Clean(isSpace, upper, value[1..]));
      InAlphabetIsMembership(first);
      assert value == [value[0]] + value[1..];
    }
  }

  /** What is cleaned is the upper case of each character in its order, but for the ignored ones. */
  lemma {:induction false} CleanOfConcat(isSpace: IsSpace, upper: Upper, a: string, c: char)
    ensures Clean(isSpace, upper, a + [c])
            == Clean(isSpace, upper, a) + if isSpace(c) || c == '=' then "" else upper(c)
  {
    if a == "" {
      assert a + [c] == [c];
      assert [c][1..] == "";
    } else {
      assert (a + [c])[1..] == a[1..] + [c];
      CleanOfConcat(isSpace, upper, a[1..], c);
    }
  }

  datatype SecretError = NotBase32

  // The bytes out and the live bits are the bits of the first i characters.
  ghost predicate Collected(bytes: Buffer, accumulator: nat, bits: nat, text: string, i: nat) {
    && i <= |text| && InAlphabet(text[..i]) && accumulator < WORD
    && ByteBits(bytes) + Bits(accumulator, bits) == CharBits(text[..i])
  }

  lemma OneMoreChar(text: string, i: nat)
    requires i < |text| && InAlphabet(text[..i]) && IndexOf(text[i]) >= 0
    ensures InAlphabet(text[..i + 1])
    ensures CharBits(text[..i + 1]) == CharBits(text[..i]) + Bits(IndexOf(text[i]), 5)
  {
    assert text[..i + 1] == text[..i] + [text[i]];
    assert text[..i + 1][..i] == text[..i];
  }

  lemma CharIn(bytes: Buffer, accumulator: nat, bits: nat, text: string, i: nat)
    requires bits < 8 && i < |text| && IndexOf(text[i]) >= 0 && Collected(bytes, accumulator, bits, text, i)
    ensures Collected(bytes, ShiftIn(accumulator, 5, IndexOf(text[i])), bits + 5, text, i + 1)
  {
    SmallPowers();
    OneMoreChar(text, i);
    AppendBits(ByteBits(bytes), CharBits(text[..i]), accumulator, bits, 5, IndexOf(text[i]));
  }

  lemma ByteOut(bytes: Buffer, accumulator: nat, bits: nat, text: string, i: nat)
    requires 8 <= bits && Collected(bytes, accumulator, bits, text, i)
    ensures Collected(bytes + [(ShiftRight(accumulator, bits - 8) % 256) as Byte], accumulator, bits - 8, text, i)
  {
    SmallPowers();
    TakeTop(accumulator, 8, bits - 8);
    var octet := (ShiftRight(accumulator, bits - 8) % 256) as Byte;
    assert (bytes + [octet])[..|bytes|] == bytes;
    MoveBits(ByteBits(bytes), Bits(octet as nat, 8), Bits(accumulator, bits - 8), Bits(accumulator, bits));
  }

  // The loop over the cleaned text.
  method DecodeClean(clean: string) returns (r: Result<Buffer, SecretError>)
    ensures r.Ok? <==> InAlphabet(clean)
    ensures r.Ok? ==> DecodesTo(clean, r.value)
  {
    var bits: nat, accumulator: nat := 0, 0;
    var bytes: Buffer := [];
    var i := 0;
    while i < |clean|
      invariant i <= |clean| && bits < 8 && Collected(bytes, accumulator, bits, clean, i)
    {
      var index := IndexOf(clean[i]);
      if index < 0 {
        return Err(NotBase32);
      }
      CharIn(bytes, accumulator, bits, clean, i);
      accumulator := ShiftIn(accumulator, 5, index);
      bits := bits + 5;
      if bits >= 8 {
        ByteOut(bytes, accumulator, bits, clean, i + 1);
        bytes := bytes + [(ShiftRight(accumulator, bits - 8) % 256) as Byte];
        bits := bits - 8;
      }
      i := i + 1;
    }
    WholeOctets(bytes, accumulator, bits, clean);
    r := Ok(bytes);
  }

  lemma WholeOctets(bytes: Buffer, accumulator: nat, bits: nat, text: string)
    requires bits < 8 && Collected(bytes, accumulator, bits, text, |text|)
    ensures InAlphabet(text) && DecodesTo(text, bytes)
  {
    assert text[..|text|] == text;
    assert |Bits(accumulator, bits)| < 8;
  }

  method DecodeBase32(isSpace: IsSpace, upper: Upper, value: string) returns (r: Result<Buffer, SecretError>)
    ensures r.Ok? <==> forall i :: 0 <= i < |value| ==> MayStand(isSpace, upper, value[i])
    ensures r.Ok? <==> InAlphabet(Clean(isSpace, upper, value))
    ensures r.Ok? ==> DecodesTo(Clean(isSpace, upper, value), r.value)
  {
    CleanIsExact(isSpace, upper, value);
    r := DecodeClean(Clean(isSpace, upper, value));
  }

  // Letters and digits of the alphabet are not white space, and raising the case of an ASCII
  // letter gives its capital, of a digit the digit itself.
  ghost predicate AsciiCasing(isSpace: IsSpace, upper: Upper) {
    forall c: char :: IndexOf(c) >= 0 || 'a' <= c <= 'z' ==>
      !isSpace(c) && upper(c) == [if 'a' <= c <= 'z' then (c as int - 32) as char else c]
  }

  // The same text with letters in either case, and white space and equals signs anywhere.
  ghost predicate Decorates(isSpace: IsSpace, value: string, text: string) {
    if value == "" then text == ""
    else if isSpace(value[0]) || value[0] == '=' then Decorates(isSpace, value[1..], text)
    else text != "" && (value[0] == text[0] || ('A' <= text[0] <= 'Z' && value[0] as int == text[0] as int + 32))
         && Decorates(isSpace, value[1..], text[1..])
  }

  // A letter in either case is kept and raised to the letter of the alphabet.
  lemma AsciiAt(isSpace: IsSpace, upper: Upper, c: char, letter: char)
    requires AsciiCasing(isSpace, upper) && IndexOf(letter) >= 0
    requires c == letter || ('A' <= letter <= 'Z' && c as int == letter as int + 32)
    ensures !isSpace(c) && c != '=' && upper(c) == [letter]
  {
    assert IndexOf(c) >= 0 || 'a' <= c <= 'z';
  }

  lemma {:induction false} CleanUndecorates(isSpace: IsSpace, upper: Upper, value: string, text: string)
    requires AsciiCasing(isSpace, upper) && InAlphabet(text) && Decorates(isSpace, value, text)
    ensures Clean(isSpace, upper, value) == text
    decreases |value|
  {
    if value != "" {
      if isSpace(value[0]) || value[0] == '=' {
        CleanUndecorates(isSpace, upper, value[1..], text);
      } else {
        AsciiAt(isSpace, upper, value[0], text[0]);
        CleanUndecorates(isSpace, upper, value[1..], text[1..]);
        assert text == [text[0]] + text[1..];
      }
    }
  }

  // Encode, decorate in any way, decode: the bytes come back.
  method RoundTrip(isSpace: IsSpace, upper: Upper, bytes: Buffer, decorate: string -> string)
    returns (r: Result<Buffer, SecretError>)
    requires AsciiCasing(isSpace, upper)
    requires forall text :: InAlphabet(text) ==> Decorates(isSpace, decorate(text), text)
    ensures r == Ok(bytes)
  {
    var text := EncodeBase32(bytes);
    CleanUndecorates(isSpace, upper, decorate(text), text);
    r := DecodeBase32(isSpace, upper, decorate(text));
    DecodingInvertsEncoding(text, bytes, r.value);
  }
}
