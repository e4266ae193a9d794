/**
 The upload inspector: a stream transform that keeps a prefix, a tail, counters and a UTF-8
 decoder, and judges the file when the stream ends.
 */
module FileInspector {
  import opened Wrappers
  import opened Streams
  import opened Numbers
  import VirusScanner

  const PREFIX_LIMIT := 8_192
  const TAIL_LIMIT := 2_048

  predicate IsControl(b: Byte) {
    b == 0 || b < 9 || 13 < b < 32
  }

  function ControlBytes(s: Buffer): nat {
    if s == [] then 0 else ControlBytes(s[..|s| - 1]) + (if IsControl(s[|s| - 1]) then 1 else 0)
  }

  lemma {:induction false} ControlBytesOfConcat(a: Buffer, b: Buffer)
    ensures ControlBytes(a + b) == ControlBytes(a) + ControlBytes(b)
  {
    if b == [] {
      assert a + b == a;
    } else {
      assert (a + b)[..|a + b| - 1] == a + b[..|b| - 1];
      ControlBytesOfConcat(a, b[..|b| - 1]);
    }
  }

  // ---------- The fatal UTF-8 decoder ----------

  // How many continuation bytes are still due, and the range the next one must fall in.
  datatype Decoder = Decoder(needed: nat, lower: Byte, upper: Byte) | Broken

  const START := Decoder(0, 0x80, 0xBF)

  function Step(d: Decoder, b: Byte): Decoder {
    if d.Broken? then Broken
    else if d.needed == 0 then
      if b <= 0x7F then START
      else if 0xC2 <= b <= 0xDF then Decoder(1, 0x80, 0xBF)
      else if 0xE0 <= b <= 0xEF then Decoder(2, if b == 0xE0 then 0xA0 else 0x80, if b == 0xED then 0x9F else 0xBF)
      else if 0xF0 <= b <= 0xF4 then Decoder(3, if b == 0xF0 then 0x90 else 0x80, if b == 0xF4 then 0x8F else 0xBF)
      else Broken
    else if d.lower <= b <= d.upper then Decoder(d.needed - 1, 0x80, 0xBF)
    else Broken
  }

  function Feed(d: Decoder, s: Buffer): Decoder
    decreases |s|
  {
    if s == [] then d else Feed(Step(d, s[0]), s[1..])
  }

  lemma {:induction false} FeedConcat(d: Decoder, a: Buffer, b: Buffer)
    ensures Feed(d, a + b) == Feed(Feed(d, a), b)
    decreases |a|
  {
    if a == [] {
      assert a + b == b;
    } else {
      assert (a + b)[1..] == a[1..] + b;
      FeedConcat(Step(d, a[0]), a[1..], b);
    }
  }

  lemma {:induction false} BrokenStaysBroken(s: Buffer)
    ensures Feed(Broken, s) == Broken
  {
    if s != [] {
      BrokenStaysBroken(s[1..]);
    }
  }

  // Well-formed UTF-8, by the grammar in section 4 of RFC 3629.
  function CharLength(lead: Byte): nat {
    if lead <= 0x7F then 1 else if 0xC2 <= lead <= 0xDF then 2
    else if 0xE0 <= lead <= 0xEF then 3 else if 0xF0 <= lead <= 0xF4 then 4 else 0
  }

  predicate IsTail(b: Byte) { 0x80 <= b <= 0xBF }

  predicate IsCharacter(c: Buffer) {
    && c != [] && |c| == CharLength(c[0])
    && (forall i :: 1 <= i < |c| ==> IsTail(c[i]))
    && (c[0] == 0xE0 ==> c[1] >= 0xA0) && (c[0] == 0xED ==> c[1] <= 0x9F)
    && (c[0] == 0xF0 ==> c[1] >= 0x90) && (c[0] == 0xF4 ==> c[1] <= 0x8F)
  }

  predicate WellFormedUtf8(s: Buffer) {
    s == [] ||
    var n := CharLength(s[0]);
    0 < n <= |s| && IsCharacter(s[..n]) && WellFormedUtf8(s[n..])
  }

  predicate Accepts(s: Buffer) {
    var d := Feed(START, s);
    d.Decoder? && d.needed == 0
  }

  // One lead byte and its continuation bytes bring the decoder back to its start, or break it.
  lemma FeedCharacter(c: Buffer)
    requires c != [] && CharLength(c[0]) == |c|
    ensures Feed(START, c) == if IsCharacter(c) then START else Broken
  {
    var d1 := Step(START, c[0]);
    assert Feed(START, c) == Feed(d1, c[1..]);
    if |c| > 1 {
      assert c[1..][1..] == c[2..];
      var d2 := Step(d1, c[1]);
      assert Feed(d1, c[1..]) == Feed(d2, c[2..]);
      if |c| > 2 {
        assert c[2..][1..] == c[3..];
        var d3 := Step(d2, c[2]);
        assert Feed(d2, c[2..]) == Feed(d3, c[3..]);
        if |c| > 3 {
          assert c[3..][1..] == c[4..];
          assert Feed(d3, c[3..]) == Feed(Step(d3, c[3]), c[4..]);
        }
      }
    }
  }

  lemma {:induction false} TruncatedIsNotAccepted(d: Decoder, s: Buffer)
    requires d.Decoder? && |s| < d.needed
    ensures Feed(d, s).Broken? || Feed(d, s).needed > 0
    decreases |s|
  {
    if s != [] {
      if Step(d, s[0]).Broken? {
        BrokenStaysBroken(s[1..]);
      } else {
        TruncatedIsNotAccepted(Step(d, s[0]), s[1..]);
      }
    }
  }

  // The streaming decoder accepts exactly the well-formed byte sequences.
  lemma {:induction false} DecoderIsUtf8(s: Buffer)
    ensures Accepts(s) <==> WellFormedUtf8(s)
    decreases |s|
  {
    if s != [] {
      var n := CharLength(s[0]);
      if n == 0 {
        BrokenStaysBroken(s[1..]);
      } else if n > |s| {
        TruncatedIsNotAccepted(Step(START, s[0]), s[1..]);
      } else {
        FeedCharacter(s[..n]);
        assert s == s[..n] + s[n..];
        FeedConcat(START, s[..n], s[n..]);
        BrokenStaysBroken(s[n..]);
        DecoderIsUtf8(s[n..]);
      }
    }
  }

  // ---------- The verdict ----------

  datatype Rejection = NotCompleted | EmptyFile | TypeNotAllowed | MimeMismatch | InvalidExtension | CorruptedFile

  // The digest is represented by the bytes it is taken over.
  datatype Inspected = Inspected(digestOf: Buffer, mimeType: string, sizeBytes: nat, virusScan: VirusScanner.Outcome)

  predicate ExtensionAllowed(mimeType: string, extension: string) {
    (mimeType == "application/pdf" && extension == "pdf")
    || (mimeType == "image/jpeg" && (extension == "jpeg" || extension == "jpg"))
    || (mimeType == "image/png" && extension == "png")
    || (mimeType == "text/plain" && extension == "txt")
  }

  predicate SupportedMime(mimeType: string) {
    mimeType in {"application/pdf", "image/jpeg", "image/png", "text/plain"}
  }

  const PDF_END: Buffer := Ascii("%%EOF")
  const PNG_END: Buffer := Ascii("IEND")

  ghost predicate ValidStructure(file: Buffer, mimeType: string) {
    if mimeType == "application/pdf" then Contains(Last(file, TAIL_LIMIT), PDF_END)
    else if mimeType == "image/png" then Contains(Last(file, TAIL_LIMIT), PNG_END)
    else if mimeType == "image/jpeg" then |file| >= 2 && file[|file| - 2] == 0xff && file[|file| - 1] == 0xd9
    else mimeType == "text/plain" && WellFormedUtf8(file)
  }

  // What the inspector asks of its platform: the type table of magic numbers, and lower case.
  datatype Platform = Platform(detect: Buffer -> Option<string>, lower: string -> string)

  // The type of a whole file: by its first bytes, or plain text when it is UTF-8 with at most
  // one control byte in a hundred.
  ghost function DetectedMime(file: Buffer, platform: Platform): Option<string> {
    var sniffed := platform.detect(First(file, PREFIX_LIMIT));
    if sniffed.Some? then sniffed
    else if WellFormedUtf8(file) && 100 * ControlBytes(file) <= |file| then Some("text/plain")
    else None
  }

  /** The ratio of control bytes is a quotient of two Numbers and is compared with the Number nearest
      to 0.01; for files below ten million million bytes that is the comparison made here. */
  lemma RatioIsExact(round: real -> real, controlBytes: nat, sizeBytes: nat, ratio: real)
    requires RoundsToNearest(round) && controlBytes <= sizeBytes && 0 < sizeBytes <= 10_000_000_000_000
    requires ratio * sizeBytes as real == controlBytes as real
    ensures round(ratio) <= round(0.01) <==> 100 * controlBytes <= sizeBytes
  {
    if 100 * controlBytes <= sizeBytes {
      SmallRatio(controlBytes, sizeBytes, ratio);
    } else {
      LargeRatio(controlBytes, sizeBytes, ratio);
      assert Rounds(ratio, round(ratio)) && Rounds(0.01, round(0.01));
    }
  }

  lemma SignOfFactor(x: real, n: real)
    requires n > 0.0 && x * n >= 0.0
    ensures x >= 0.0
  {
  }

  lemma SmallRatio(controlBytes: nat, sizeBytes: nat, ratio: real)
    requires 0 < sizeBytes && ratio * sizeBytes as real == controlBytes as real
    requires 100 * controlBytes <= sizeBytes
    ensures ratio <= 0.01
  {
    SignOfFactor(0.01 - ratio, sizeBytes as real);
  }

  lemma LargeRatio(controlBytes: nat, sizeBytes: nat, ratio: real)
    requires 0 < sizeBytes <= 10_000_000_000_000 && ratio * sizeBytes as real == controlBytes as real
    requires sizeBytes < 100 * controlBytes <= 100 * sizeBytes
    ensures 0.01 + 0.000000000000001 <= ratio <= 1.0
  {
    SignOfFactor(ratio - 0.01 - 0.000000000000001, sizeBytes as real);
    SignOfFactor(1.0 - ratio, sizeBytes as real);
  }

  // The verdict as a function of the whole file and nothing else.
  ghost function Judge(file: Buffer, clientMime: string, extension: string, platform: Platform)
    : Result<Inspected, Rejection>
  {
    if file == [] then Err(EmptyFile)
    else
      match DetectedMime(file, platform)
      case None => Err(TypeNotAllowed)
      case Some(mime) =>
        if !SupportedMime(mime) then Err(TypeNotAllowed)
        else if platform.lower(clientMime) != mime then Err(MimeMismatch)
        else if !ExtensionAllowed(mime, extension) then Err(InvalidExtension)
        else if !ValidStructure(file, mime) then Err(CorruptedFile)
        else Ok(Inspected(file, mime, |file|, VirusScanner.Verdict(file)))
  }

  // ---------- What the verdict means, byte by byte ----------

  ghost function ControlPlaces(file: Buffer): set<int> {
    set i | 0 <= i < |file| && (file[i] < 9 || 13 < file[i] < 32)
  }

  lemma {:induction false} ControlBytesAreCounted(file: Buffer)
    ensures ControlBytes(file) == |ControlPlaces(file)|
  {
    if file == [] {
      assert ControlPlaces(file) == {};
    } else {
      var n := |file| - 1;
      ControlBytesAreCounted(file[..n]);
      assert ControlPlaces(file) == ControlPlaces(file[..n]) + if file[n] < 9 || 13 < file[n] < 32 then {n} else {};
    }
  }

  // Its first 8192 bytes have the magic numbers of the type, or of none and it is plain text.
  ghost predicate IsOfType(file: Buffer, platform: Platform, mime: string) {
    var detected := platform.detect(if |file| <= 8192 then file else file[..8192]);
    detected == Some(mime)
    || (detected.None? && mime == "text/plain" && WellFormedUtf8(file) && 100 * |ControlPlaces(file)| <= |file|)
  }

  predicate Goes(mime: string, extension: string) {
    (mime, extension) in {("application/pdf", "pdf"), ("image/jpeg", "jpg"), ("image/jpeg", "jpeg"),
                          ("image/png", "png"), ("text/plain", "txt")}
  }

  predicate IsAllowed(mime: string) {
    mime == "application/pdf" || mime == "image/jpeg" || mime == "image/png" || mime == "text/plain"
  }

  // The marker stands within the last 2048 bytes.
  ghost predicate NearEnd(file: Buffer, marker: Buffer) {
    exists i: nat :: |file| - 2048 <= i && OccursAt(file, marker, i)
  }

  ghost predicate IsWhole(file: Buffer, mime: string) {
    && (mime == "application/pdf" ==> NearEnd(file, Ascii("%%EOF")))
    && (mime == "image/png" ==> NearEnd(file, Ascii("IEND")))
    && (mime == "image/jpeg" ==> |file| >= 2 && file[|file| - 2] == 0xff && file[|file| - 1] == 0xd9)
    && (mime == "text/plain" ==> WellFormedUtf8(file))
  }

  lemma TailContains(file: Buffer, marker: Buffer)
    ensures Contains(Last(file, TAIL_LIMIT), marker) <==> NearEnd(file, marker)
  {
    var tail := Last(file, TAIL_LIMIT);
    var dropped := file[..|file| - |tail|];
    assert file == dropped + tail;
    if Contains(tail, marker) {
      var i: nat :| OccursAt(tail, marker, i);
      OccursInRight(dropped, tail, marker, i);
    }
    if NearEnd(file, marker) {
      var i: nat :| |file| - 2048 <= i && OccursAt(file, marker, i);
      OccursInRight(dropped, tail, marker, i - |dropped|);
    }
  }

  lemma StructureIsWhole(file: Buffer, mime: string)
    requires IsAllowed(mime)
    ensures ValidStructure(file, mime) <==> IsWhole(file, mime)
  {
    TailContains(file, PDF_END);
    TailContains(file, PNG_END);
  }

  lemma TypeIsDetected(file: Buffer, platform: Platform, mime: string)
    ensures DetectedMime(file, platform) == Some(mime) <==> IsOfType(file, platform, mime)
  {
    ControlBytesAreCounted(file);
  }

  /** What each answer means: an empty file; a file of none of the four types; a type that is not the
      client's; an extension that does not go with it; a file that is not whole; or all is well. */
  lemma JudgeIsExact(file: Buffer, clientMime: string, extension: string, platform: Platform)
    ensures var r, claimed := Judge(file, clientMime, extension, platform), platform.lower(clientMime);
            var typed := IsAllowed(claimed) && IsOfType(file, platform, claimed);
            && (r == Err(EmptyFile) <==> file == [])
            && (r == Err(TypeNotAllowed) <==>
                  file != [] && forall mime :: IsAllowed(mime) ==> !IsOfType(file, platform, mime))
            && (r == Err(MimeMismatch) <==>
                  file != [] && !typed && exists mime :: IsAllowed(mime) && IsOfType(file, platform, mime))
            && (r == Err(InvalidExtension) <==> file != [] && typed && !Goes(claimed, extension))
            && (r == Err(CorruptedFile) <==>
                  file != [] && typed && Goes(claimed, extension) && !IsWhole(file, claimed))
            && (r.Ok? <==> file != [] && typed && Goes(claimed, extension) && IsWhole(file, claimed))
            && (r.Ok? ==> r.value == Inspected(file, claimed, |file|, VirusScanner.Verdict(file)))
  {
    forall mime ensures DetectedMime(file, platform) == Some(mime) <==> IsOfType(file, platform, mime) {
      TypeIsDetected(file, platform, mime);
    }
    if IsAllowed(platform.lower(clientMime)) {
      StructureIsWhole(file, platform.lower(clientMime));
    }
    var detected := DetectedMime(file, platform);
    if detected.Some? {
      assert IsOfType(file, platform, detected.value);
    }
  }

  // What the counters and buffers of a session say about the bytes seen so far.
  ghost predicate Summarises(seen: Buffer, prefix: Buffer, tail: Buffer, sizeBytes: nat, textControlBytes: nat) {
    && prefix == First(seen, PREFIX_LIMIT)
    && tail == Last(seen, TAIL_LIMIT)
    && sizeBytes == |seen|
    && textControlBytes == ControlBytes(seen)
  }

  ghost predicate DecoderTracks(validUtf8: bool, decoder: Decoder, seen: Buffer) {
    && validUtf8 == Feed(START, seen).Decoder?
    && (validUtf8 ==> decoder == Feed(START, seen))
  }

  function PrefixWith(prefix: Buffer, chunk: Buffer, limit: nat): Buffer {
    if |prefix| < limit then prefix + First(chunk, limit - |prefix|) else prefix
  }

  lemma PrefixOfConcat(seen: Buffer, prefix: Buffer, chunk: Buffer, limit: nat)
    requires prefix == First(seen, limit)
    ensures PrefixWith(prefix, chunk, limit) == First(seen + chunk, limit)
  {
    FirstOfConcat(seen, chunk, limit);
  }

  lemma TailOfConcat(seen: Buffer, tail: Buffer, chunk: Buffer, limit: nat)
    requires tail == Last(seen, limit)
    ensures Last(tail + chunk, limit) == Last(seen + chunk, limit)
  {
    LastOfConcat(seen, chunk, limit);
  }

  lemma SummaryOfConcat(seen: Buffer, prefix: Buffer, tail: Buffer, sizeBytes: nat, textControlBytes: nat,
                        chunk: Buffer)
    requires Summarises(seen, prefix, tail, sizeBytes, textControlBytes)
    ensures Summarises(seen + chunk, PrefixWith(prefix, chunk, PREFIX_LIMIT), Last(tail + chunk, TAIL_LIMIT),
                       sizeBytes + |chunk|, textControlBytes + ControlBytes(chunk))
  {
    PrefixOfConcat(seen, prefix, chunk, PREFIX_LIMIT);
    TailOfConcat(seen, tail, chunk, TAIL_LIMIT);
    ControlBytesOfConcat(seen, chunk);
  }

  class FileStreamInspector {
    const scanner: VirusScanner.InspectionSession
    var hashed: Buffer  // what the SHA-256 object has been fed
    var prefix: Buffer
    var tail: Buffer
    var sizeBytes: nat
    var textControlBytes: nat
    var validUtf8: bool
    var decoder: Decoder
    var digest: Option<Buffer>
    ghost var seen: Buffer

    ghost predicate Streaming()
      reads this, scanner
    {
      && scanner.Valid() && scanner.seen == seen && hashed == seen
      && Summarises(seen, prefix, tail, sizeBytes, textControlBytes)
      && DecoderTracks(validUtf8, decoder, seen)
      && digest.None?
    }

    ghost predicate Finished()
      reads this, scanner
    {
      && scanner.Valid() && scanner.seen == seen && digest == Some(seen)
      && Summarises(seen, prefix, tail, sizeBytes, textControlBytes)
      && validUtf8 == WellFormedUtf8(seen)
    }

    constructor (scanner: VirusScanner.InspectionSession)
      requires scanner.Valid() && scanner.seen == []
      ensures Streaming() && seen == [] && this.scanner == scanner
    {
      this.scanner := scanner;
      hashed, prefix, tail, seen := [], [], [], [];
      sizeBytes, textControlBytes, validUtf8, decoder, digest := 0, 0, true, START, None;
    }

    // Whatever the chunk boundaries, the fields describe all the bytes seen so far; the chunk
    // itself passes through.
    method Transform(chunk: Buffer) returns (output: Buffer)
      requires Streaming()
      modifies this, scanner
      ensures Streaming() && seen == old(seen) + chunk && output == chunk
    {
      scanner.Inspect(chunk);
      hashed := hashed + chunk;
      Summarise(chunk);
      Decode(chunk);
      seen := seen + chunk;
      output := chunk;
    }

    // The size, the first and last bytes and the control characters.
    method Summarise(chunk: Buffer)
      requires Summarises(seen, prefix, tail, sizeBytes, textControlBytes)
      modifies this`sizeBytes, this`prefix, this`tail, this`textControlBytes
      ensures Summarises(seen + chunk, prefix, tail, sizeBytes, textControlBytes)
    {
      SummaryOfConcat(seen, prefix, tail, sizeBytes, textControlBytes, chunk);
      sizeBytes := sizeBytes + |chunk|;
      if |prefix| < PREFIX_LIMIT {
        var missing := PREFIX_LIMIT - |prefix|;
        prefix := prefix + First(chunk, missing);
      }
      tail := Last(tail + chunk, TAIL_LIMIT);
      CountControl(chunk);
    }

    method Decode(chunk: Buffer)
      requires DecoderTracks(validUtf8, decoder, seen)
      modifies this`validUtf8, this`decoder
      ensures DecoderTracks(validUtf8, decoder, seen + chunk)
    {
      FeedConcat(START, seen, chunk);
      BrokenStaysBroken(chunk);
      if validUtf8 {
        decoder := Feed(decoder, chunk);
        if decoder.Broken? {
          validUtf8 := false;
        }
      }
    }

    method CountControl(chunk: Buffer)
      modifies this`textControlBytes
      ensures textControlBytes == old(textControlBytes) + ControlBytes(chunk)
    {
      var i := 0;
      while i < |chunk|
        invariant i <= |chunk| && textControlBytes == old(textControlBytes) + ControlBytes(chunk[..i])
      {
        if chunk[i] == 0 || chunk[i] < 9 || (chunk[i] > 13 && chunk[i] < 32) {
          textControlBytes := textControlBytes + 1;
        }
        assert chunk[..i + 1][..i] == chunk[..i];
        i := i + 1;
      }
      assert chunk[..|chunk|] == chunk;
    }

    method Flush()
      requires Streaming()
      modifies this
      ensures Finished() && seen == old(seen)
    {
      DecoderIsUtf8(seen);
      if validUtf8 && decoder.needed != 0 {
        validUtf8 := false;
      }
      digest := Some(hashed);
    }

    method HasValidStructure(mimeType: string) returns (valid: bool)
      requires Finished()
      ensures valid == ValidStructure(seen, mimeType)
    {
      if mimeType == "application/pdf" {
        valid := Includes(tail, PDF_END);
      } else if mimeType == "image/png" {
        valid := Includes(tail, PNG_END);
      } else if mimeType == "image/jpeg" {
        valid := |tail| >= 2 && tail[|tail| - 2] == 0xff && tail[|tail| - 1] == 0xd9;
      } else {
        valid := mimeType == "text/plain" && validUtf8;
      }
    }

    // The answer is the verdict on the bytes.
    method Inspect(clientMime: string, extension: string, platform: Platform)
      returns (r: Result<Inspected, Rejection>)
      requires Streaming() || Finished()
      ensures r == if digest.None? then Err(NotCompleted) else Judge(seen, clientMime, extension, platform)
    {
      if digest.None? {
        return Err(NotCompleted);
      }
      if sizeBytes == 0 {
        return Err(EmptyFile);
      }
      var detected := platform.detect(prefix);
      if detected.None? && validUtf8 && 100 * textControlBytes <= sizeBytes {
        detected := Some("text/plain");
      }
      if detected.None? || !SupportedMime(detected.value) {
        return Err(TypeNotAllowed);
      }
      if platform.lower(clientMime) != detected.value {
        return Err(MimeMismatch);
      }
      if !ExtensionAllowed(detected.value, extension) {
        return Err(InvalidExtension);
      }
      var valid := HasValidStructure(detected.value);
      if !valid {
        return Err(CorruptedFile);
      }
      r := Ok(Inspected(digest.value, detected.value, sizeBytes, scanner.Complete()));
    }
  }

  lemma FlattenMore(chunks: seq<Buffer>, i: nat)
    requires i < |chunks|
    ensures Flatten(chunks[..i + 1]) == Flatten(chunks[..i]) + chunks[i]
  {
    assert chunks[..i + 1][..i] == chunks[..i];
  }

  // However an upload is cut into chunks, its verdict is the verdict on its bytes, and what
  // comes out of the transform is what went in.
  method InspectUpload(chunks: seq<Buffer>, clientMime: string, extension: string, platform: Platform)
    returns (r: Result<Inspected, Rejection>, output: seq<Buffer>)
    ensures r == Judge(Flatten(chunks), clientMime, extension, platform)
    ensures output == chunks
  {
    var scanner := new VirusScanner.InspectionSession();
    var inspector := new FileStreamInspector(scanner);
    var i := 0;
    output := [];
    while i < |chunks|
      invariant i <= |chunks| && inspector.Streaming() && inspector.seen == Flatten(chunks[..i])
      invariant output == chunks[..i]
    {
      var out := inspector.Transform(chunks[i]);
      output := output + [out];
      FlattenMore(chunks, i);
      i := i + 1;
    }
    assert chunks[..|chunks|] == chunks;
    inspector.Flush();
    r := inspector.Inspect(clientMime, extension, platform);
  }
}
