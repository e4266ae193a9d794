/** Byte buffers, and streams as sequences of arbitrary chunks. */
module Streams {
  newtype Byte = x: int | 0 <= x < 256

  type Buffer = seq<Byte>

  function Ascii(s: string): (r: Buffer)
    ensures |r| == |s|
  {
    seq(|s|, i requires 0 <= i < |s| => (s[i] as int % 256) as Byte)
  }

  function Last(s: Buffer, limit: nat): (r: Buffer) {
    if |s| <= limit then s else s[|s| - limit..]
  }

  function First(s: Buffer, limit: nat): (r: Buffer) {
    if |s| <= limit then s else s[..limit]
  }

  ghost predicate OccursAt(s: Buffer, marker: Buffer, i: nat) {
    i + |marker| <= |s| && s[i..i + |marker|] == marker
  }

  ghost predicate Contains(s: Buffer, marker: Buffer) {
    exists i: nat :: OccursAt(s, marker, i)
  }

  // Buffer.includes: a search from the left.
  method Includes(s: Buffer, marker: Buffer) returns (found: bool)
    ensures found == Contains(s, marker)
  {
    found := false;
    var i := 0;
    while i + |marker| <= |s|
      invariant forall j: nat :: j < i ==> !OccursAt(s, marker, j)
    {
      if s[i..i + |marker|] == marker {
        assert OccursAt(s, marker, i);
        return true;
      }
      i := i + 1;
    }
    assert forall j: nat :: j >= i ==> !OccursAt(s, marker, j);
  }

  function Flatten(chunks: seq<Buffer>): Buffer {
    if chunks == [] then [] else Flatten(chunks[..|chunks| - 1]) + chunks[|chunks| - 1]
  }

  lemma OccursInLeft(s: Buffer, t: Buffer, marker: Buffer, i: nat)
    requires i + |marker| <= |s|
    ensures OccursAt(s + t, marker, i) <==> OccursAt(s, marker, i)
  {
    assert (s + t)[i..i + |marker|] == s[i..i + |marker|];
  }

  lemma OccursInRight(s: Buffer, t: Buffer, marker: Buffer, i: nat)
    ensures OccursAt(s + t, marker, |s| + i) <==> OccursAt(t, marker, i)
  {
    if i + |marker| <= |t| {
      assert (s + t)[|s| + i..|s| + i + |marker|] == t[i..i + |marker|];
    }
  }

  lemma ContainsInWhole(s: Buffer, t: Buffer, marker: Buffer)
    requires Contains(s, marker) || Contains(t, marker)
    ensures Contains(s + t, marker)
  {
    if Contains(s, marker) {
      var i: nat :| OccursAt(s, marker, i);
      OccursInLeft(s, t, marker, i);
    } else {
      var i: nat :| OccursAt(t, marker, i);
      OccursInRight(s, t, marker, i);
    }
  }

  // A marker that straddles a boundary lies within the kept tail and the new chunk.
  lemma ContainsAcrossBoundary(seen: Buffer, chunk: Buffer, marker: Buffer, keep: nat)
    requires 0 < |marker| <= keep + 1
    ensures Contains(seen + chunk, marker) <==> Contains(seen, marker) || Contains(Last(seen, keep) + chunk, marker)
  {
    var dropped := seen[..|seen| - |Last(seen, keep)|];
    var window := Last(seen, keep) + chunk;
    assert seen + chunk == dropped + window;
    if Contains(seen, marker) {
      ContainsInWhole(seen, chunk, marker);
    } else if Contains(window, marker) {
      ContainsInWhole(dropped, window, marker);
    } else if Contains(seen + chunk, marker) {
      var i: nat :| OccursAt(seen + chunk, marker, i);
      if i + |marker| <= |seen| {
        OccursInLeft(seen, chunk, marker, i);
      } else {
        OccursInRight(dropped, window, marker, i - |dropped|);
      }
    }
  }

  lemma LastOfConcat(seen: Buffer, chunk: Buffer, limit: nat)
    ensures Last(Last(seen, limit) + chunk, limit) == Last(seen + chunk, limit)
  {
  }

  lemma FirstOfConcat(seen: Buffer, chunk: Buffer, limit: nat)
    ensures First(seen + chunk, limit)
            == if |First(seen, limit)| < limit then First(seen, limit) + First(chunk, limit - |First(seen, limit)|)
               else First(seen, limit)
  {
  }
}
