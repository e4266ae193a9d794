/** Highlighting the query words of an excerpt: the segments a template renders. */
module Highlight {
  import opened HighlightRanges

  // ---------- The segments ----------

  datatype Segment = Segment(text: string, match_: bool)

  function Offset(segments: seq<Segment>, n: nat): nat
    requires n <= |segments|
  {
    if n == 0 then 0 else Offset(segments, n - 1) + |segments[n - 1].text|
  }

  function Joined(segments: seq<Segment>): string {
    if segments == [] then "" else Joined(segments[..|segments| - 1]) + segments[|segments| - 1].text
  }

  lemma {:induction false} OffsetOfPrefix(segments: seq<Segment>, more: seq<Segment>, n: nat)
    requires n <= |segments|
    ensures Offset(segments + more, n) == Offset(segments, n)
  {
    if n > 0 {
      OffsetOfPrefix(segments, more, n - 1);
    }
  }

  lemma {:induction false} OffsetIsLength(segments: seq<Segment>)
    ensures Offset(segments, |segments|) == |Joined(segments)|
  {
    if segments != [] {
      var n := |segments| - 1;
      assert segments == segments[..n] + segments[n..];
      OffsetOfPrefix(segments[..n], segments[n..], n);
      OffsetIsLength(segments[..n]);
    }
  }

  // Segment k covers the hit r.
  ghost predicate Marks(segments: seq<Segment>, k: nat, r: Range) {
    k < |segments| && segments[k].match_ && Offset(segments, k) == r.start && Offset(segments, k + 1) == r.end
  }

  ghost predicate IsMarked(segments: seq<Segment>, r: Range) {
    exists k: nat :: Marks(segments, k, r)
  }

  // The characters of a segment.
  function Place(segments: seq<Segment>, k: nat): Range
    requires k < |segments|
  {
    Range(Offset(segments, k), Offset(segments, k + 1))
  }

  ghost predicate Alternate(segments: seq<Segment>) {
    forall k, j :: 0 <= k && j == k + 1 < |segments| ==> segments[k].match_ != segments[j].match_
  }

  // The marked segments are exactly the given ranges.
  ghost predicate MarksExactly(segments: seq<Segment>, ranges: seq<Range>) {
    && (forall k {:trigger Place(segments, k)} :: 0 <= k < |segments| && segments[k].match_ ==>
          Place(segments, k) in ranges)
    && (forall r :: r in ranges ==> IsMarked(segments, r))
  }

  ghost predicate NoneEmpty(segments: seq<Segment>) {
    forall k :: 0 <= k < |segments| ==> segments[k].text != ""
  }

  // The segments spell excerpt[..upTo], none is empty, flags alternate, and the marked segments
  // are exactly the given ranges.
  ghost predicate Renders(excerpt: string, segments: seq<Segment>, ranges: seq<Range>, upTo: nat) {
    && upTo <= |excerpt| && Joined(segments) == excerpt[..upTo]
    && Alternate(segments)
    && NoneEmpty(segments)
    && MarksExactly(segments, ranges)
  }

  lemma PlaceStays(segments: seq<Segment>, segment: Segment, k: nat)
    requires k < |segments|
    ensures Place(segments + [segment], k) == Place(segments, k)
  {
    OffsetOfPrefix(segments, [segment], k);
    OffsetOfPrefix(segments, [segment], k + 1);
  }

  lemma PlaceOfLast(segments: seq<Segment>, segment: Segment)
    ensures Joined(segments + [segment]) == Joined(segments) + segment.text
    ensures Place(segments + [segment], |segments|) == Range(|Joined(segments)|, |Joined(segments)| + |segment.text|)
  {
    var more := segments + [segment];
    assert more[..|segments|] == segments;
    OffsetIsLength(segments);
    OffsetIsLength(more);
    OffsetOfPrefix(segments, [segment], |segments|);
  }

  lemma StillMarked(segments: seq<Segment>, segment: Segment, r: Range)
    requires IsMarked(segments, r)
    ensures IsMarked(segments + [segment], r)
  {
    var k: nat :| Marks(segments, k, r);
    PlaceStays(segments, segment, k);
    assert Marks(segments + [segment], k, r);
  }

  lemma MarksPlain(segments: seq<Segment>, ranges: seq<Range>, segment: Segment)
    requires MarksExactly(segments, ranges) && !segment.match_
    ensures MarksExactly(segments + [segment], ranges)
  {
    var more := segments + [segment];
    forall k | 0 <= k < |more| && more[k].match_ ensures Place(more, k) in ranges {
      PlaceStays(segments, segment, k);
    }
    forall r | r in ranges ensures IsMarked(more, r) {
      StillMarked(segments, segment, r);
    }
  }

  lemma MarksMatch(segments: seq<Segment>, ranges: seq<Range>, segment: Segment, r: Range)
    requires MarksExactly(segments, ranges) && segment.match_
    requires r == Range(|Joined(segments)|, |Joined(segments)| + |segment.text|)
    ensures MarksExactly(segments + [segment], ranges + [r])
  {
    var more := segments + [segment];
    PlaceOfLast(segments, segment);
    forall k | 0 <= k < |more| && more[k].match_ ensures Place(more, k) in ranges + [r] {
      if k < |segments| {
        PlaceStays(segments, segment, k);
        assert Place(segments, k) in ranges;
      }
    }
    forall x | x in ranges + [r] ensures IsMarked(more, x) {
      if x in ranges {
        StillMarked(segments, segment, x);
      } else {
        assert Marks(more, |segments|, x);
      }
    }
  }

  lemma SpellsMore(excerpt: string, from: nat, to: nat)
    requires from <= to <= |excerpt|
    ensures excerpt[..from] + excerpt[from..to] == excerpt[..to]
  {
  }

  // One more segment, of the other kind than the last.
  lemma StillAlternate(segments: seq<Segment>, segment: Segment)
    requires Alternate(segments) && NoneEmpty(segments) && segment.text != ""
    requires segments != [] ==> segments[|segments| - 1].match_ != segment.match_
    ensures Alternate(segments + [segment]) && NoneEmpty(segments + [segment])
  {
  }

  lemma RenderPlain(excerpt: string, segments: seq<Segment>, ranges: seq<Range>, from: nat, to: nat)
    requires Renders(excerpt, segments, ranges, from) && from < to <= |excerpt|
    requires segments != [] ==> segments[|segments| - 1].match_
    ensures Renders(excerpt, segments + [Segment(excerpt[from..to], false)], ranges, to)
  {
    var segment := Segment(excerpt[from..to], false);
    PlaceOfLast(segments, segment);
    SpellsMore(excerpt, from, to);
    StillAlternate(segments, segment);
    MarksPlain(segments, ranges, segment);
  }

  lemma RenderMatch(excerpt: string, segments: seq<Segment>, ranges: seq<Range>, r: Range)
    requires Renders(excerpt, segments, ranges, r.start) && r.start < r.end <= |excerpt|
    requires segments != [] ==> !segments[|segments| - 1].match_
    ensures Renders(excerpt, segments + [Segment(excerpt[r.start..r.end], true)], ranges + [r], r.end)
  {
    var segment := Segment(excerpt[r.start..r.end], true);
    PlaceOfLast(segments, segment);
    SpellsMore(excerpt, r.start, r.end);
    StillAlternate(segments, segment);
    MarksMatch(segments, ranges, segment, r);
  }

  // What is drawn: the segments spell the excerpt, flags strictly alternate, and the marked
  // segments are exactly the words whose folded form begins with a folded query term.
  ghost predicate Highlights(fold: Fold, isWord: IsWord, excerpt: string, query: string, segments: seq<Segment>) {
    && Joined(segments) == excerpt
    && Alternate(segments)
    && (forall k :: 0 <= k < |segments| && segments[k].match_ ==>
          IsHighlighted(fold, isWord, excerpt, query, Place(segments, k)))
    && (forall r: Range :: IsHighlighted(fold, isWord, excerpt, query, r) ==> IsMarked(segments, r))
  }

  ghost predicate IsHighlighted(fold: Fold, isWord: IsWord, excerpt: string, query: string, r: Range) {
    && IsRun(isWord, Folded(fold, excerpt), r.start, r.end)
    && exists term :: IsTerm(fold, isWord, query, term) && BeginsWith(Folded(fold, excerpt), r, term)
  }

  lemma HitsAreHighlighted(fold: Fold, isWord: IsWord, excerpt: string, query: string, r: Range)
    ensures Hit(isWord, Folded(fold, excerpt), TermsOf(fold, isWord, query), r)
            <==> IsHighlighted(fold, isWord, excerpt, query, r)
  {
    var folded, terms := Folded(fold, excerpt), TermsOf(fold, isWord, query);
    if Hit(isWord, folded, terms, r) {
      var t :| 0 <= t < |terms| && BeginsWith(folded, r, terms[t]);
      TermsAreQueryWords(fold, isWord, query, terms[t]);
    }
    if IsHighlighted(fold, isWord, excerpt, query, r) {
      var term :| IsTerm(fold, isWord, query, term) && BeginsWith(folded, r, term);
      TermsAreQueryWords(fold, isWord, query, term);
      var t :| 0 <= t < |terms| && terms[t] == term;
      assert BeginsWith(folded, r, terms[t]);
    }
  }

  lemma TermsAreProper(fold: Fold, isWord: IsWord, query: string)
    ensures ProperTerms(isWord, TermsOf(fold, isWord, query))
  {
    var terms := TermsOf(fold, isWord, query);
    forall t | 0 <= t < |terms| ensures |terms[t]| >= 3 && forall i :: 0 <= i < |terms[t]| ==> isWord(terms[t][i]) {
      TermsAreQueryWords(fold, isWord, query, terms[t]);
      assert forall i :: 0 <= i < |[terms[t]][0]| ==> isWord([terms[t]][0][i]);
    }
  }

  method HighlightExcerpt(fold: Fold, isWord: IsWord, excerpt: string, query: string) returns (segments: seq<Segment>)
    ensures Highlights(fold, isWord, excerpt, query, segments)
  {
    var terms := TermsOf(fold, isWord, query);
    TermsAreProper(fold, isWord, query);
    forall r: Range
      ensures Hit(isWord, Folded(fold, excerpt), terms, r) <==> IsHighlighted(fold, isWord, excerpt, query, r)
    {
      HitsAreHighlighted(fold, isWord, excerpt, query, r);
    }
    if |terms| == 0 || excerpt == "" {
      return [Segment(excerpt, false)];
    }
    var folded := FoldText(fold, excerpt);
    var ranges := RangesFor(isWord, folded, terms);
    if |ranges| == 0 {
      return [Segment(excerpt, false)];
    }
    segments := RenderSegments(excerpt, ranges);
  }

  function EndOf(drawn: seq<Range>): nat {
    if drawn == [] then 0 else drawn[|drawn| - 1].end
  }

  // The segments once some ranges were drawn: they end with the last of them.
  ghost predicate Drawn(excerpt: string, drawn: seq<Range>, segments: seq<Segment>, cursor: nat) {
    && Renders(excerpt, segments, drawn, cursor)
    && cursor == EndOf(drawn)
    && (segments == [] <==> drawn == [])
    && (segments != [] ==> segments[|segments| - 1].match_)
  }

  lemma NothingDrawn(excerpt: string)
    ensures Drawn(excerpt, [], [], 0)
  {
  }

  // The text between two words, when there is some.
  function WithPlain(excerpt: string, segments: seq<Segment>, cursor: nat, to: nat): seq<Segment>
    requires to <= |excerpt|
  {
    if to > cursor then segments + [Segment(excerpt[cursor..to], false)] else segments
  }

  // One turn of the loop: the text before a word, then the word.
  function Turn(excerpt: string, segments: seq<Segment>, cursor: nat, range: Range): seq<Segment>
    requires range.start <= range.end <= |excerpt|
  {
    WithPlain(excerpt, segments, cursor, range.start) + [Segment(excerpt[range.start..range.end], true)]
  }

  lemma DrawOne(excerpt: string, drawn: seq<Range>, segments: seq<Segment>, cursor: nat, range: Range)
    requires Renders(excerpt, segments, drawn, cursor) && cursor <= range.start < range.end <= |excerpt|
    requires segments != [] ==> segments[|segments| - 1].match_ && cursor < range.start
    ensures Renders(excerpt, Turn(excerpt, segments, cursor, range), drawn + [range], range.end)
  {
    if range.start > cursor {
      RenderPlain(excerpt, segments, drawn, cursor, range.start);
      RenderMatch(excerpt, segments + [Segment(excerpt[cursor..range.start], false)], drawn, range);
    } else {
      RenderMatch(excerpt, segments, drawn, range);
    }
  }

  lemma DrawTurn(excerpt: string, drawn: seq<Range>, segments: seq<Segment>, cursor: nat, range: Range)
    requires Drawn(excerpt, drawn, segments, cursor) && range.start < range.end <= |excerpt|
    requires drawn != [] ==> EndOf(drawn) < range.start
    ensures Drawn(excerpt, drawn + [range], Turn(excerpt, segments, cursor, range), range.end)
  {
    DrawOne(excerpt, drawn, segments, cursor, range);
  }

  ghost predicate Fit(excerpt: string, ranges: seq<Range>) {
    forall k :: 0 <= k < |ranges| ==> ranges[k].start <= ranges[k].end <= |excerpt|
  }

  // The turns of the loop, one for each range.
  ghost function Turns(excerpt: string, ranges: seq<Range>): seq<Segment>
    requires Fit(excerpt, ranges)
  {
    if ranges == [] then []
    else
      var before := ranges[..|ranges| - 1];
      Turn(excerpt, Turns(excerpt, before), EndOf(before), ranges[|ranges| - 1])
  }

  lemma TurnsOneMore(excerpt: string, before: seq<Range>, last: Range, ranges: seq<Range>)
    requires Fit(excerpt, ranges) && ranges == before + [last]
    ensures Fit(excerpt, before) && last.start <= last.end <= |excerpt| && EndOf(ranges) == last.end
    ensures Turns(excerpt, ranges) == Turn(excerpt, Turns(excerpt, before), EndOf(before), last)
  {
    assert ranges[..|ranges| - 1] == before;
    assert ranges[|ranges| - 1] == last;
  }

  lemma SeparatedOneMore(before: seq<Range>, last: Range, ranges: seq<Range>)
    requires Separated(ranges) && ranges == before + [last]
    ensures Separated(before) && last.start < last.end && (before != [] ==> EndOf(before) < last.start)
  {
    assert forall k :: 0 <= k < |before| ==> before[k] == ranges[k];
    assert ranges[|ranges| - 1] == last;
  }

  lemma {:induction false} TurnsAreDrawn(excerpt: string, ranges: seq<Range>)
    requires Separated(ranges) && Fit(excerpt, ranges)
    ensures Drawn(excerpt, ranges, Turns(excerpt, ranges), EndOf(ranges))
  {
    if ranges == [] {
      NothingDrawn(excerpt);
    } else {
      var before, last := ranges[..|ranges| - 1], ranges[|ranges| - 1];
      assert ranges == before + [last];
      TurnsOneMore(excerpt, before, last, ranges);
      SeparatedOneMore(before, last, ranges);
      TurnsAreDrawn(excerpt, before);
      DrawTurn(excerpt, before, Turns(excerpt, before), EndOf(before), last);
    }
  }

  lemma DrawRest(excerpt: string, ranges: seq<Range>, segments: seq<Segment>, cursor: nat)
    requires Drawn(excerpt, ranges, segments, cursor)
    ensures cursor <= |excerpt| && Renders(excerpt, WithPlain(excerpt, segments, cursor, |excerpt|), ranges, |excerpt|)
    ensures Joined(WithPlain(excerpt, segments, cursor, |excerpt|)) == excerpt
  {
    assert excerpt[..|excerpt|] == excerpt;
    if cursor < |excerpt| {
      RenderPlain(excerpt, segments, ranges, cursor, |excerpt|);
    }
  }

  lemma RangesFit(excerpt: string, ranges: seq<Range>)
    requires Separated(ranges) && forall r :: r in ranges ==> r.end <= |excerpt|
    ensures Fit(excerpt, ranges)
  {
    forall k | 0 <= k < |ranges| ensures ranges[k].start <= ranges[k].end <= |excerpt| {
      assert ranges[k] in ranges;
    }
  }

  // The loop over the ranges; what is left of the excerpt starts at the cursor.
  method DrawRanges(excerpt: string, ranges: seq<Range>) returns (segments: seq<Segment>, cursor: nat)
    requires Fit(excerpt, ranges)
    ensures segments == Turns(excerpt, ranges) && cursor == EndOf(ranges)
  {
    segments := [];
    cursor := 0;
    var i := 0;
    while i < |ranges|
      invariant i <= |ranges| && segments == Turns(excerpt, ranges[..i]) && cursor == EndOf(ranges[..i])
    {
      var range := ranges[i];
      assert ranges[..i + 1][..i] == ranges[..i];
      if range.start > cursor {
        segments := segments + [Segment(excerpt[cursor..range.start], false)];
      }
      segments := segments + [Segment(excerpt[range.start..range.end], true)];
      cursor := range.end;
      i := i + 1;
    }
    assert ranges[..|ranges|] == ranges;
  }

  method RenderSegments(excerpt: string, ranges: seq<Range>) returns (segments: seq<Segment>)
    requires ranges != [] && Separated(ranges) && forall r :: r in ranges ==> r.end <= |excerpt|
    ensures Renders(excerpt, segments, ranges, |excerpt|) && Joined(segments) == excerpt
  {
    RangesFit(excerpt, ranges);
    var cursor;
    segments, cursor := DrawRanges(excerpt, ranges);
    TurnsAreDrawn(excerpt, ranges);
    DrawRest(excerpt, ranges, segments, cursor);
    if cursor < |excerpt| {
      segments := segments + [Segment(excerpt[cursor..|excerpt|], false)];
    }
  }
}
