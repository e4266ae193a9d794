/** The mock virus scanner: a session that sees a byte stream one chunk at a time. */
module VirusScanner {
  import opened Streams

  datatype Outcome = Clean | Infected | Error

  const INFECTED_MARKER: Buffer := Ascii("EICAR-STANDARD-ANTIVIRUS-TEST-FILE")
  const FAILURE_MARKER: Buffer := Ascii("LEXOS_MOCK_SCANNER_UNAVAILABLE")
  const OVERLAP_SIZE: nat := (if |INFECTED_MARKER| > |FAILURE_MARKER| then |INFECTED_MARKER| else |FAILURE_MARKER|) - 1

  lemma OverlapIs33()
    ensures OVERLAP_SIZE == 33
  {
    assert |INFECTED_MARKER| == |"EICAR-STANDARD-ANTIVIRUS-TEST-FILE"| == 34;
    assert |FAILURE_MARKER| == |"LEXOS_MOCK_SCANNER_UNAVAILABLE"| == 30;
  }

  // The verdict on a whole stream: a scanner failure beats an infection.
  ghost function Verdict(stream: Buffer): Outcome {
    if Contains(stream, FAILURE_MARKER) then Error
    else if Contains(stream, INFECTED_MARKER) then Infected
    else Clean
  }

  class InspectionSession {
    var overlap: Buffer
    var outcome: Outcome
    ghost var seen: Buffer  // everything inspected so far

    ghost predicate Valid()
      reads this
    {
      outcome == Verdict(seen) && overlap == Last(seen, OVERLAP_SIZE)
    }

    constructor ()
      ensures Valid() && seen == []
    {
      overlap, outcome, seen := [], Clean, [];
      new;
      OverlapIs33();
    }

    method Inspect(chunk: Buffer)
      requires Valid()
      modifies this
      ensures Valid() && seen == old(seen) + chunk
    {
      OverlapIs33();
      ContainsAcrossBoundary(seen, chunk, FAILURE_MARKER, OVERLAP_SIZE);
      ContainsAcrossBoundary(seen, chunk, INFECTED_MARKER, OVERLAP_SIZE);
      LastOfConcat(seen, chunk, OVERLAP_SIZE);
      var inspected := overlap + chunk;
      var failed := Includes(inspected, FAILURE_MARKER);
      var infected := Includes(inspected, INFECTED_MARKER);
      if failed {
        outcome := Error;
      } else if outcome == Clean && infected {
        outcome := Infected;
      }
      overlap := inspected[(if |inspected| > OVERLAP_SIZE then |inspected| - OVERLAP_SIZE else 0)..];
      seen := seen + chunk;
    }

    function Complete(): (r: Outcome)
      requires Valid()
      reads this
      ensures r == Verdict(seen)
    {
      outcome
    }
  }

  // However the stream is cut, the session's answer is the verdict on the whole stream, and
  // what it keeps is always the last 33 bytes.
  method Scan(chunks: seq<Buffer>) returns (outcome: Outcome, overlap: Buffer)
    ensures outcome == Verdict(Flatten(chunks))
    ensures outcome == Error <==> Contains(Flatten(chunks), Ascii("LEXOS_MOCK_SCANNER_UNAVAILABLE"))
    ensures outcome == Infected <==>
              && Contains(Flatten(chunks), Ascii("EICAR-STANDARD-ANTIVIRUS-TEST-FILE"))
              && !Contains(Flatten(chunks), Ascii("LEXOS_MOCK_SCANNER_UNAVAILABLE"))
    ensures overlap == Last(Flatten(chunks), 33)
  {
    OverlapIs33();
    var session := new InspectionSession();
    var i := 0;
    while i < |chunks|
      invariant i <= |chunks| && session.Valid() && session.seen == Flatten(chunks[..i])
    {
      session.Inspect(chunks[i]);
      assert chunks[..i + 1][..i] == chunks[..i];
      i := i + 1;
    }
    assert chunks[..|chunks|] == chunks;
    outcome, overlap := session.Complete(), session.overlap;
  }
}
