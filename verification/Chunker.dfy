/**
 The cut of a normalised text into overlapping chunks, whose offsets cite the source text.
 */
module Chunker {
  import opened Wrappers
  import opened Knowledge

  // ---------- Chunk boundaries ----------

  function LastIndexOf(content: Text, c: CodeUnit, from: nat): (r: int)
    ensures -1 <= r <= from && r < |content|
    ensures r >= 0 ==> content[r] == c
    ensures forall i :: r < i <= from && i < |content| ==> content[i] != c
  {
    if from < |content| && content[from] == c then from
    else if from == 0 then -1
    else LastIndexOf(content, c, from - 1)
  }

  function IndexOf(content: Text, c: CodeUnit, from: nat): (r: int)
    ensures r == -1 || from <= r < |content|
    ensures r >= 0 ==> content[r] == c
    ensures forall i :: from <= i < |content| && (r < 0 || i < r) ==> content[i] != c
    decreases |content| - from
  {
    if from >= |content| then -1
    else if content[from] == c then from
    else IndexOf(content, c, from + 1)
  }

  predicate SplitsSurrogatePair(content: Text, boundary: nat) {
    && 0 < boundary < |content|
    && 0xd800 <= content[boundary - 1] <= 0xdbff
    && 0xdc00 <= content[boundary] <= 0xdfff
  }

  ghost predicate NoSpace(content: Text, from: int, to: int) {
    forall i :: 0 <= i < |content| && from <= i < to ==> content[i] != SPACE
  }

  // A chunk ends with the text if it can. Otherwise it ends before the last space up to the limit that
  // leaves it more than half; where there is none at the limit, or one unit before inside a pair.
  ghost predicate EndsAt(content: Text, start: nat, limit: nat, end: nat) {
    var middle := start + (limit - start) / 2;
    if limit >= |content| then end == |content|
    else if NoSpace(content, middle + 1, limit + 1)
    then end == if SplitsSurrogatePair(content, limit) then limit - 1 else limit
    else middle < end <= limit && content[end] == SPACE && NoSpace(content, end + 1, limit + 1)
  }

  // The chunk after one that ends inside the text begins after the first space of the overlap, which
  // never reaches back to the start of that one; where there is none, at its end.
  ghost predicate StartsAt(content: Text, start: nat, end: nat, overlap: nat, next: nat) {
    var target := if end - overlap > start + 1 then end - overlap else start + 1;
    if NoSpace(content, target, end) then next == end
    else target < next <= end <= |content| && content[next - 1] == SPACE && NoSpace(content, target, next - 1)
  }

  function SafeBoundary(content: Text, start: nat, maximumEnd: nat): (end: nat)
    requires start < maximumEnd
    requires maximumEnd < |content| ==> start + 2 <= maximumEnd
    ensures EndsAt(content, start, maximumEnd, end)
    ensures start < |content| ==> start < end <= |content|
    ensures maximumEnd <= |content| ==> end <= maximumEnd
    ensures end < |content| ==> end > start + (maximumEnd - start) / 2 || end == maximumEnd - 1
    ensures !SplitsSurrogatePair(content, end)
  {
    if maximumEnd >= |content| then |content|
    else
      var wordBoundary := LastIndexOf(content, SPACE, maximumEnd);
      if wordBoundary > start + (maximumEnd - start) / 2 then wordBoundary
      else if SplitsSurrogatePair(content, maximumEnd) then maximumEnd - 1
      else maximumEnd
  }

  function NextChunkStart(content: Text, currentStart: nat, end: nat, overlap: nat): (next: nat)
    requires currentStart < end <= |content|
    ensures currentStart < next <= end
    ensures end < |content| ==> StartsAt(content, currentStart, end, overlap, next)
    ensures end < |content| ==> end - next <= (if overlap > 0 then overlap - 1 else 0)
    ensures end == |content| ==> next == |content|
    ensures !SplitsSurrogatePair(content, end) ==> !SplitsSurrogatePair(content, next)
  {
    if end >= |content| then |content|
    else
      var overlapTarget := Max(currentStart + 1, end - overlap);
      var nextSpace := IndexOf(content, SPACE, overlapTarget);
      if 0 <= nextSpace < end then nextSpace + 1 else end
  }

  function Max(a: int, b: int): int { if a > b then a else b }

  // ---------- The cut of a whole text ----------

  datatype Span = Span(start: nat, end: nat)

  function Spans(content: Text, start: nat, maximum: nat, overlap: nat): seq<Span>
    requires 32 <= maximum && start <= |content|
    decreases |content| - start
  {
    if start == |content| then []
    else
      var end := SafeBoundary(content, start, Min(start + maximum, |content|));
      [Span(start, end)] + Spans(content, NextChunkStart(content, start, end, overlap), maximum, overlap)
  }

  function Min(a: int, b: int): int { if a < b then a else b }

  ghost predicate EndsRight(content: Text, span: Span, maximum: nat) {
    EndsAt(content, span.start, span.start + maximum, span.end)
  }

  ghost predicate StartsRight(content: Text, a: Span, next: nat, overlap: nat) {
    a.end < |content| && StartsAt(content, a.start, a.end, overlap, next)
  }

  ghost predicate GoodSpan(content: Text, span: Span, maximum: nat) {
    && EndsRight(content, span, maximum)
    && span.start < span.end <= |content|
    && span.end - span.start <= maximum
    && !SplitsSurrogatePair(content, span.start)
    && !SplitsSurrogatePair(content, span.end)
    && content[span.end - 1] != SPACE
  }

  // How a span follows another: no gap, an overlap strictly below the configured one (when
  // that is positive), and a guaranteed advance. The end never moves back, and moves on when the
  // configured overlap is at most half a chunk and one.
  ghost predicate GoodStep(content: Text, a: Span, b: Span, maximum: nat, overlap: nat) {
    && StartsRight(content, a, b.start, overlap)
    && a.start < b.start <= a.end <= b.end
    && (overlap <= maximum / 2 + 1 ==> a.end < b.end)
    && a.end - b.start <= (if overlap > 0 then overlap - 1 else 0)
    && b.start - a.start >= maximum / 2 + (if overlap > 0 then 2 else 1) - overlap
  }

  lemma BoundaryIsNotAfterSpace(content: Text, start: nat, maximum: nat)
    requires 32 <= maximum && start < |content| && Tidy(content)
    ensures content[SafeBoundary(content, start, Min(start + maximum, |content|)) - 1] != SPACE
  {
    var maximumEnd := Min(start + maximum, |content|);
    var end := SafeBoundary(content, start, maximumEnd);
    if end < |content| && content[end] == SPACE {
      assert !DoubleSpaceAt(content, end);
    }
  }

  function EndFrom(content: Text, start: nat, maximum: nat): (end: nat)
    requires 32 <= maximum && start < |content|
    ensures start < end <= |content| && end - start <= maximum
  {
    SafeBoundary(content, start, Min(start + maximum, |content|))
  }

  // From a later start the end is no earlier, and later when the start has not passed the middle.
  lemma EndMovesOn(content: Text, start: nat, next: nat, maximum: nat)
    requires 32 <= maximum && start < |content| && start < next <= EndFrom(content, start, maximum) < |content|
    ensures EndFrom(content, start, maximum) <= EndFrom(content, next, maximum)
    ensures next + maximum / 2 >= EndFrom(content, start, maximum) ==>
              EndFrom(content, start, maximum) < EndFrom(content, next, maximum)
  {
    var lastSpace := LastIndexOf(content, SPACE, start + maximum);
    if next + maximum < |content| {
      var nextSpace := LastIndexOf(content, SPACE, next + maximum);
      if nextSpace > next + maximum / 2 {
        assert nextSpace >= lastSpace;
        if lastSpace <= start + maximum / 2 {
          assert nextSpace > start + maximum;
        }
      }
    }
  }

  lemma StepIsGood(content: Text, start: nat, maximum: nat, overlap: nat)
    requires 32 <= maximum && start < |content| && Tidy(content)
    requires EndFrom(content, start, maximum) < |content|
    ensures var end := EndFrom(content, start, maximum);
            var next := NextChunkStart(content, start, end, overlap);
            next < |content|
            && GoodStep(content, Span(start, end), Span(next, EndFrom(content, next, maximum)), maximum, overlap)
  {
    var end := EndFrom(content, start, maximum);
    EndMovesOn(content, start, NextChunkStart(content, start, end, overlap), maximum);
  }

  ghost predicate StepAt(content: Text, spans: seq<Span>, k: nat, maximum: nat, overlap: nat)
    requires 0 < k < |spans|
  {
    GoodStep(content, spans[k - 1], spans[k], maximum, overlap)
  }

  // What the cut of content[start..] promises.
  ghost predicate GoodCut(content: Text, start: nat, spans: seq<Span>, maximum: nat, overlap: nat) {
    && spans != [] && spans[0].start == start && spans[|spans| - 1].end == |content|
    && AllSpansGood(content, spans, maximum) && AllStepsGood(content, spans, maximum, overlap)
  }

  ghost predicate SpanAt(content: Text, spans: seq<Span>, k: nat, maximum: nat)
    requires k < |spans|
  {
    GoodSpan(content, spans[k], maximum)
  }

  ghost predicate AllSpansGood(content: Text, spans: seq<Span>, maximum: nat) {
    forall k :: 0 <= k < |spans| ==> SpanAt(content, spans, k, maximum)
  }

  ghost predicate AllStepsGood(content: Text, spans: seq<Span>, maximum: nat, overlap: nat) {
    forall k :: 0 < k < |spans| ==> StepAt(content, spans, k, maximum, overlap)
  }

  lemma ConsKeepsSpans(content: Text, first: Span, rest: seq<Span>, maximum: nat)
    requires AllSpansGood(content, rest, maximum) && GoodSpan(content, first, maximum)
    ensures AllSpansGood(content, [first] + rest, maximum)
  {
    forall k | 0 <= k < |[first] + rest| ensures SpanAt(content, [first] + rest, k, maximum) {
      assert k > 0 ==> SpanAt(content, rest, k - 1, maximum);
    }
  }

  lemma ConsKeepsSteps(content: Text, first: Span, rest: seq<Span>, maximum: nat, overlap: nat)
    requires rest != [] && AllStepsGood(content, rest, maximum, overlap)
    requires GoodStep(content, first, rest[0], maximum, overlap)
    ensures AllStepsGood(content, [first] + rest, maximum, overlap)
  {
    forall k | 0 < k < |[first] + rest| ensures StepAt(content, [first] + rest, k, maximum, overlap) {
      assert k > 1 ==> StepAt(content, rest, k - 1, maximum, overlap);
    }
  }

  lemma ConsKeepsGoodCut(content: Text, first: Span, rest: seq<Span>, maximum: nat, overlap: nat)
    requires rest != [] && GoodCut(content, rest[0].start, rest, maximum, overlap)
    requires GoodSpan(content, first, maximum) && GoodStep(content, first, rest[0], maximum, overlap)
    ensures GoodCut(content, first.start, [first] + rest, maximum, overlap)
  {
    ConsKeepsSpans(content, first, rest, maximum);
    ConsKeepsSteps(content, first, rest, maximum, overlap);
  }

  lemma {:induction false} SpansAreGood(content: Text, start: nat, maximum: nat, overlap: nat)
    requires 32 <= maximum && start < |content| && Tidy(content)
    requires !SplitsSurrogatePair(content, start)
    ensures GoodCut(content, start, Spans(content, start, maximum, overlap), maximum, overlap)
    ensures Spans(content, start, maximum, overlap)[0] == Span(start, EndFrom(content, start, maximum))
    decreases |content| - start
  {
    var end := EndFrom(content, start, maximum);
    var next := NextChunkStart(content, start, end, overlap);
    FirstSpanIsGood(content, start, maximum);
    if end < |content| {
      StepIsGood(content, start, maximum, overlap);
      SpansAreGood(content, next, maximum, overlap);
      ConsKeepsGoodCut(content, Span(start, end), Spans(content, next, maximum, overlap), maximum, overlap);
    }
  }

  lemma FirstSpanIsGood(content: Text, start: nat, maximum: nat)
    requires 32 <= maximum && start < |content| && Tidy(content) && !SplitsSurrogatePair(content, start)
    ensures GoodSpan(content, Span(start, EndFrom(content, start, maximum)), maximum)
  {
    BoundaryIsNotAfterSpace(content, start, maximum);
  }

  lemma TailIsGoodCut(content: Text, spans: seq<Span>, maximum: nat, overlap: nat)
    requires spans != [] && GoodCut(content, spans[0].start, spans, maximum, overlap) && |spans| > 1
    ensures GoodCut(content, spans[1].start, spans[1..], maximum, overlap)
    ensures spans[0].start < spans[1].start <= |content|
    ensures StartsRight(content, spans[0], spans[1].start, overlap)
  {
    assert StepAt(content, spans, 1, maximum, overlap) && SpanAt(content, spans, 1, maximum);
    forall k | 0 <= k < |spans[1..]| ensures SpanAt(content, spans[1..], k, maximum) {
      assert SpanAt(content, spans, k + 1, maximum);
    }
    forall k | 0 < k < |spans[1..]| ensures StepAt(content, spans[1..], k, maximum, overlap) {
      assert StepAt(content, spans, k + 1, maximum, overlap);
    }
  }

  lemma EndIsUnique(content: Text, a: Span, b: Span, maximum: nat)
    requires EndsRight(content, a, maximum) && EndsRight(content, b, maximum) && a.start == b.start
    ensures a.end == b.end
  {
  }

  lemma StartIsUnique(content: Text, a: Span, m: nat, n: nat, overlap: nat)
    requires StartsRight(content, a, m, overlap) && StartsRight(content, a, n, overlap)
    ensures m == n
  {
  }

  /** These promises leave one cut only. */
  lemma {:induction false} GoodCutIsUnique(content: Text, s: seq<Span>, t: seq<Span>, start: nat,
                                           maximum: nat, overlap: nat)
    requires GoodCut(content, start, s, maximum, overlap) && GoodCut(content, start, t, maximum, overlap)
    ensures s == t
    decreases |s|
  {
    assert SpanAt(content, s, 0, maximum) && SpanAt(content, t, 0, maximum);
    EndIsUnique(content, s[0], t[0], maximum);
    assert s[|s| - 1].end == |content| == t[|t| - 1].end;
    if |s| > 1 {
      TailIsGoodCut(content, s, maximum, overlap);
    }
    if |t| > 1 {
      TailIsGoodCut(content, t, maximum, overlap);
    }
    if |s| > 1 && |t| > 1 {
      StartIsUnique(content, s[0], s[1].start, t[1].start, overlap);
      GoodCutIsUnique(content, s[1..], t[1..], s[1].start, maximum, overlap);
    }
  }

  ghost predicate OverlapAt(spans: seq<Span>, k: nat)
    requires 0 < k < |spans|
  {
    spans[k].start <= spans[k - 1].end <= spans[k].end
  }

  ghost predicate Contiguous(content: Text, spans: seq<Span>) {
    && (forall k :: 0 <= k < |spans| ==> spans[k].start <= spans[k].end <= |content|)
    && (forall k :: 0 < k < |spans| ==> OverlapAt(spans, k))
  }

  lemma GoodCutIsContiguous(content: Text, spans: seq<Span>, maximum: nat, overlap: nat)
    requires GoodCut(content, 0, spans, maximum, overlap)
    ensures Contiguous(content, spans)
  {
    forall k | 0 <= k < |spans| ensures spans[k].start <= spans[k].end <= |content| {
      assert SpanAt(content, spans, k, maximum);
    }
    forall k | 0 < k < |spans| ensures OverlapAt(spans, k) {
      assert StepAt(content, spans, k, maximum, overlap);
    }
  }

  // The first n chunks, each without what it shares with the chunk before it.
  ghost function Rebuilt(content: Text, spans: seq<Span>, n: nat): Text
    requires Contiguous(content, spans) && n <= |spans|
  {
    if n == 0 then []
    else
      var chunk := content[spans[n - 1].start..spans[n - 1].end];
      assert n > 1 ==> OverlapAt(spans, n - 1);
      var shared := if n == 1 then 0 else spans[n - 2].end - spans[n - 1].start;
      Rebuilt(content, spans, n - 1) + chunk[shared..]
  }

  lemma SliceReaches(content: Text, start: nat, from: nat, end: nat)
    requires start <= from <= end <= |content|
    ensures content[start..end][from - start..] == content[from..end]
    ensures content[..from] + content[start..end][from - start..] == content[..end]
  {
  }

  lemma {:induction false} RebuiltReaches(content: Text, spans: seq<Span>, n: nat)
    requires Contiguous(content, spans) && 0 < n <= |spans| && spans[0].start == 0
    ensures Rebuilt(content, spans, n) == content[..spans[n - 1].end]
  {
    var last := spans[n - 1];
    if n > 1 {
      RebuiltReaches(content, spans, n - 1);
      assert OverlapAt(spans, n - 1);
      SliceReaches(content, last.start, spans[n - 2].end, last.end);
    } else {
      assert Rebuilt(content, spans, 0) == [];
      SliceReaches(content, 0, 0, last.end);
      assert content[..0] == [];
    }
  }

  // Dropping every overlap gives the text back: the chunks leave no gap and invent nothing.
  lemma ChunksRebuildText(content: Text, spans: seq<Span>, maximum: nat, overlap: nat)
    requires GoodCut(content, 0, spans, maximum, overlap)
    ensures Contiguous(content, spans) && Rebuilt(content, spans, |spans|) == content
  {
    GoodCutIsContiguous(content, spans, maximum, overlap);
    RebuiltReaches(content, spans, |spans|);
  }

  // ---------- The chunker ----------

  datatype Locator = Locator(pageNumber: nat, startOffset: nat, endOffset: nat)

  datatype Chunk = Chunk(chunkIndex: nat, content: Text, contentHash: string, locator: Locator)

  // What a run of the chunker puts on every chunk: the page, and the SHA-256 of its content in hexadecimal.
  datatype Stamp = Stamp(pageNumber: nat, hash: Text -> string)

  datatype ChunkError = InvalidConfiguration

  const DEFAULT_MAXIMUM := 800
  const DEFAULT_OVERLAP := 120
  const DEFAULT_PAGE := 1

  // A number of ECMAScript: NaN and the infinities are not finite.
  datatype Number = Finite(value: real) | NotFinite

  predicate IsInteger(n: Number) {
    n.Finite? && n.value == n.value.Floor as real
  }

  // option ?? default
  function OrElse(option: Option<Number>, default: int): (n: Number)
    ensures option.Some? ==> n == option.value
    ensures option.None? ==> n.Finite? && n.value == default as real
  {
    match option
    case None => Finite(default as real)
    case Some(value) => value
  }

  predicate ValidConfiguration(maximum: int, overlap: int, pageNumber: int) {
    32 <= maximum && 0 <= overlap < maximum && 1 <= pageNumber
  }

  predicate AreValid(maximum: Number, overlap: Number, pageNumber: Number) {
    && IsInteger(maximum) && IsInteger(overlap) && IsInteger(pageNumber)
    && ValidConfiguration(maximum.value.Floor, overlap.value.Floor, pageNumber.value.Floor)
  }

  // The chunk holds content[span], and its offsets name a piece of the source that normalises
  // to that very content (without the space a chunk can begin with). The piece is the right
  // one among equal pieces: the source up to its end normalises to the content up to the end
  // of the span, and the source from its start to the content from the start of the span.
  ghost predicate Cites(source: Text, chunk: Chunk, content: Text, span: Span) {
    && span.start < span.end <= |content|
    && chunk.content == content[span.start..span.end]
    && chunk.locator.startOffset < chunk.locator.endOffset <= |source|
    && Normalized(source[chunk.locator.startOffset..chunk.locator.endOffset]) == DropLeadingSpace(chunk.content)
    && Normalized(source[..chunk.locator.endOffset]) == content[..span.end]
    && Normalized(source[chunk.locator.startOffset..]) == DropLeadingSpace(content[span.start..])
  }

  // The chunks made so far, one for each of the first spans.
  ghost predicate ChunksOf(source: Text, chunks: seq<Chunk>, spans: seq<Span>, stamp: Stamp) {
    && |chunks| <= |spans|
    && forall k :: 0 <= k < |chunks| ==> ChunkAt(source, chunks, spans, stamp, k)
  }

  ghost predicate ChunkAt(source: Text, chunks: seq<Chunk>, spans: seq<Span>, stamp: Stamp, k: nat)
    requires k < |chunks| <= |spans|
  {
    && chunks[k].chunkIndex == k
    && chunks[k].locator.pageNumber == stamp.pageNumber
    && chunks[k].contentHash == stamp.hash(chunks[k].content)
    && Cites(source, chunks[k], Normalized(source), spans[k])
  }

  lemma ChunkExtends(source: Text, chunks: seq<Chunk>, spans: seq<Span>, stamp: Stamp, chunk: Chunk)
    requires ChunksOf(source, chunks, spans, stamp) && |chunks| < |spans|
    requires chunk.chunkIndex == |chunks| && chunk.locator.pageNumber == stamp.pageNumber
    requires chunk.contentHash == stamp.hash(chunk.content)
    requires Cites(source, chunk, Normalized(source), spans[|chunks|])
    ensures ChunksOf(source, chunks + [chunk], spans, stamp)
  {
    forall k | 0 <= k <= |chunks| ensures ChunkAt(source, chunks + [chunk], spans, stamp, k) {
      assert k < |chunks| ==> ChunkAt(source, chunks, spans, stamp, k);
    }
  }

  // The chunk of content[start..end].
  function ChunkAtSpan(m: NormalizedText, n: nat, start: nat, end: nat, stamp: Stamp): Chunk
    requires start < end <= |m.content| == |m.sourceStarts| == |m.sourceEnds|
  {
    var content := m.content[start..end];
    Chunk(n, content, stamp.hash(content), Locator(stamp.pageNumber, m.sourceStarts[start], m.sourceEnds[end - 1]))
  }

  lemma SpanIsCited(source: Text, m: NormalizedText, n: nat, start: nat, end: nat, stamp: Stamp)
    requires TilesSource(source, m) && start < end <= |m.content| && m.content[end - 1] != SPACE
    ensures Cites(source, ChunkAtSpan(m, n, start, end, stamp), m.content, Span(start, end))
  {
    SliceNormalizes(source, m, start, end);
    PrefixNormalizes(source, m, end);
    SuffixNormalizes(source, m, start);
  }

  lemma SliceNormalizes(source: Text, m: NormalizedText, s: nat, e: nat)
    requires Tiling(source, m) && s < e <= |m.content| && m.content[e - 1] != SPACE
    ensures m.sourceStarts[s] < m.sourceEnds[e - 1] <= |source|
    ensures Normalized(source[m.sourceStarts[s]..m.sourceEnds[e - 1]]) == DropLeadingSpace(m.content[s..e])
  {
    SliceCollapsesToContent(source, m, s, e);
  }

  // Where the k-th span begins; the end of the text after the last.
  function StartAt(content: Text, spans: seq<Span>, k: nat): nat {
    if k < |spans| then spans[k].start else |content|
  }

  // Each span ends at the boundary found for it, and the next begins where the overlap puts it.
  ghost predicate FollowAt(content: Text, spans: seq<Span>, k: nat, maximum: nat, overlap: nat)
    requires 32 <= maximum && k < |spans|
  {
    var start, end := spans[k].start, spans[k].end;
    && start < |content| && end == EndFrom(content, start, maximum) && content[end - 1] != SPACE
    && StartAt(content, spans, k + 1) == NextChunkStart(content, start, end, overlap)
  }

  ghost predicate Follow(content: Text, spans: seq<Span>, maximum: nat, overlap: nat)
    requires 32 <= maximum
  {
    forall k :: 0 <= k < |spans| ==> FollowAt(content, spans, k, maximum, overlap)
  }

  lemma SpansUnfold(content: Text, start: nat, maximum: nat, overlap: nat)
    requires 32 <= maximum && start < |content|
    ensures var end := EndFrom(content, start, maximum);
            Spans(content, start, maximum, overlap)
            == [Span(start, end)] + Spans(content, NextChunkStart(content, start, end, overlap), maximum, overlap)
  {
  }

  lemma FirstFollows(content: Text, start: nat, maximum: nat, overlap: nat, rest: seq<Span>)
    requires 32 <= maximum && start < |content| && Tidy(content)
    requires Follow(content, rest, maximum, overlap)
    requires StartAt(content, rest, 0) == NextChunkStart(content, start, EndFrom(content, start, maximum), overlap)
    ensures Follow(content, [Span(start, EndFrom(content, start, maximum))] + rest, maximum, overlap)
  {
    BoundaryIsNotAfterSpace(content, start, maximum);
    ConsFollows(content, Span(start, EndFrom(content, start, maximum)), rest, maximum, overlap);
  }

  lemma {:induction false} SpansFollow(content: Text, start: nat, maximum: nat, overlap: nat)
    requires 32 <= maximum && start <= |content| && Tidy(content)
    ensures Follow(content, Spans(content, start, maximum, overlap), maximum, overlap)
    ensures StartAt(content, Spans(content, start, maximum, overlap), 0) == start
    decreases |content| - start
  {
    if start < |content| {
      var next := NextChunkStart(content, start, EndFrom(content, start, maximum), overlap);
      SpansFollow(content, next, maximum, overlap);
      FirstFollows(content, start, maximum, overlap, Spans(content, next, maximum, overlap));
      SpansUnfold(content, start, maximum, overlap);
    }
  }

  lemma StartAfterCons(content: Text, first: Span, rest: seq<Span>, k: nat)
    requires k <= |rest|
    ensures StartAt(content, [first] + rest, k + 1) == StartAt(content, rest, k)
  {
  }

  lemma FollowAfterCons(content: Text, first: Span, rest: seq<Span>, k: nat, maximum: nat, overlap: nat)
    requires 32 <= maximum && k < |rest| && FollowAt(content, rest, k, maximum, overlap)
    ensures FollowAt(content, [first] + rest, k + 1, maximum, overlap)
  {
    StartAfterCons(content, first, rest, k + 1);
    assert ([first] + rest)[k + 1] == rest[k];
  }

  lemma ConsFollows(content: Text, first: Span, rest: seq<Span>, maximum: nat, overlap: nat)
    requires 32 <= maximum && Follow(content, rest, maximum, overlap)
    requires first.start < |content| && first.end == EndFrom(content, first.start, maximum)
             && content[first.end - 1] != SPACE
    requires StartAt(content, rest, 0) == NextChunkStart(content, first.start, first.end, overlap)
    ensures Follow(content, [first] + rest, maximum, overlap)
  {
    StartAfterCons(content, first, rest, 0);
    forall k | 0 <= k < |[first] + rest| ensures FollowAt(content, [first] + rest, k, maximum, overlap) {
      if k > 0 {
        FollowAfterCons(content, first, rest, k - 1, maximum, overlap);
      }
    }
  }

  // Where the cutting loop stands: one chunk for each span before start.
  ghost predicate CutSoFar(source: Text, content: Text, spans: seq<Span>, stamp: Stamp,
                           start: nat, chunks: seq<Chunk>) {
    ChunksOf(source, chunks, spans, stamp) && start == StartAt(content, spans, |chunks|) <= |content|
  }

  // The span the loop meets at start.
  lemma SpanAtStart(content: Text, spans: seq<Span>, n: nat, start: nat, maximum: nat, overlap: nat)
    requires 32 <= maximum && Follow(content, spans, maximum, overlap)
    requires start == StartAt(content, spans, n) < |content|
    ensures n < |spans|
    ensures var end := EndFrom(content, start, maximum);
            && spans[n] == Span(start, end) && content[end - 1] != SPACE
            && StartAt(content, spans, n + 1) == NextChunkStart(content, start, end, overlap)
  {
    assert FollowAt(content, spans, n, maximum, overlap);
  }

  lemma PushCited(source: Text, m: NormalizedText, spans: seq<Span>, stamp: Stamp, start: nat, chunks: seq<Chunk>,
                end: nat, chunk: Chunk, next: nat)
    requires TilesSource(source, m) && m.content == Normalized(source) && start < end <= |m.content|
    requires |chunks| < |spans| && spans[|chunks|] == Span(start, end) && m.content[end - 1] != SPACE
    requires StartAt(m.content, spans, |chunks| + 1) == next <= |m.content|
    requires ChunksOf(source, chunks, spans, stamp)
    requires chunk == ChunkAtSpan(m, |chunks|, start, end, stamp)
    ensures CutSoFar(source, m.content, spans, stamp, next, chunks + [chunk])
  {
    SpanIsCited(source, m, |chunks|, start, end, stamp);
    ChunkExtends(source, chunks, spans, stamp, chunk);
  }

  // One turn of the cutting loop.
  lemma CutTurn(source: Text, m: NormalizedText, spans: seq<Span>, maximum: nat, overlap: nat, stamp: Stamp, start: nat,
                end: nat, chunks: seq<Chunk>, chunk: Chunk, next: nat)
    requires 32 <= maximum && TilesSource(source, m) && m.content == Normalized(source) && start < |m.content|
    requires Follow(m.content, spans, maximum, overlap)
    requires CutSoFar(source, m.content, spans, stamp, start, chunks)
    requires end == EndFrom(m.content, start, maximum) && next == NextChunkStart(m.content, start, end, overlap)
    requires chunk == ChunkAtSpan(m, |chunks|, start, end, stamp)
    ensures CutSoFar(source, m.content, spans, stamp, next, chunks + [chunk])
  {
    SpanAtStart(m.content, spans, |chunks|, start, maximum, overlap);
    PushCited(source, m, spans, stamp, start, chunks, end, chunk, next);
  }

  // The chunk that begins at start, and where the next one begins.
  method CutOne(normalized: NormalizedText, maximum: nat, overlap: nat, stamp: Stamp, start: nat, index: nat)
    returns (chunk: Chunk, next: nat)
    requires 32 <= maximum && start < |normalized.content| == |normalized.sourceStarts| == |normalized.sourceEnds|
    ensures var end := EndFrom(normalized.content, start, maximum);
            && chunk == ChunkAtSpan(normalized, index, start, end, stamp)
            && next == NextChunkStart(normalized.content, start, end, overlap) > start
  {
    var content := normalized.content;
    var maximumEnd := Min(start + maximum, |content|);
    var end := SafeBoundary(content, start, maximumEnd);
    assert end == EndFrom(content, start, maximum);
    if start >= |normalized.sourceStarts| || end - 1 >= |normalized.sourceEnds| || |content[start..end]| == 0 {
      assert false;  // the chunker never loses its source locator
    }
    var startOffset := normalized.sourceStarts[start];
    var endOffset := normalized.sourceEnds[end - 1];
    var piece := content[start..end];
    chunk := Chunk(index, piece, stamp.hash(piece), Locator(stamp.pageNumber, startOffset, endOffset));
    next := NextChunkStart(content, start, end, overlap);
  }

  method CutAlong(source: Text, normalized: NormalizedText, ghost spans: seq<Span>,
                  maximum: nat, overlap: nat, stamp: Stamp)
    returns (chunks: seq<Chunk>)
    requires 32 <= maximum && TilesSource(source, normalized) && normalized.content == Normalized(source)
    requires Follow(normalized.content, spans, maximum, overlap) && StartAt(normalized.content, spans, 0) == 0
    ensures |chunks| == |spans| && ChunksOf(source, chunks, spans, stamp)
  {
    chunks := [];
    var start := 0;
    while start < |normalized.content|
      invariant CutSoFar(source, normalized.content, spans, stamp, start, chunks)
      decreases |normalized.content| - start
    {
      var chunk, next := CutOne(normalized, maximum, overlap, stamp, start, |chunks|);
      CutTurn(source, normalized, spans, maximum, overlap, stamp, start, EndFrom(normalized.content, start, maximum),
              chunks, chunk, next);
      chunks := chunks + [chunk];
      start := next;
    }
    NothingIsLeft(normalized.content, spans, |chunks|, maximum, overlap);
  }

  // At the end of the text no span is left.
  lemma NothingIsLeft(content: Text, spans: seq<Span>, n: nat, maximum: nat, overlap: nat)
    requires 32 <= maximum && Follow(content, spans, maximum, overlap)
    requires n <= |spans| && StartAt(content, spans, n) == |content|
    ensures n == |spans|
  {
    assert n < |spans| ==> FollowAt(content, spans, n, maximum, overlap);
  }

  lemma NormalizedIsCutWell(source: Text, content: Text, maximum: nat, overlap: nat)
    requires 32 <= maximum && content == Normalized(source) != []
    ensures GoodCut(content, 0, Spans(content, 0, maximum, overlap), maximum, overlap)
    ensures Follow(content, Spans(content, 0, maximum, overlap), maximum, overlap)
  {
    NormalizedIsTidyAndStable(source);
    SpansAreGood(content, 0, maximum, overlap);
    SpansFollow(content, 0, maximum, overlap);
  }

  method CutChunks(source: Text, normalized: NormalizedText, maximum: nat, overlap: nat, stamp: Stamp)
    returns (chunks: seq<Chunk>)
    requires 32 <= maximum && TilesSource(source, normalized)
    requires normalized.content == Normalized(source) != []
    ensures var spans := Spans(normalized.content, 0, maximum, overlap);
            && |chunks| == |spans| && ChunksOf(source, chunks, spans, stamp)
            && GoodCut(normalized.content, 0, spans, maximum, overlap)
  {
    NormalizedIsCutWell(source, normalized.content, maximum, overlap);
    ghost var spans := Spans(normalized.content, 0, maximum, overlap);
    chunks := CutAlong(source, normalized, spans, maximum, overlap, stamp);
  }

  method ChunkKnowledgeText(source: Text, maximumCharacters: Option<Number>, overlapCharacters: Option<Number>,
                            page: Option<Number>, hash: Text -> string)
    returns (r: Result<seq<Chunk>, ChunkError>)
    ensures var maximum, overlap, pageNumber :=
              OrElse(maximumCharacters, DEFAULT_MAXIMUM), OrElse(overlapCharacters, DEFAULT_OVERLAP),
              OrElse(page, DEFAULT_PAGE);
            && (r.Ok? <==> AreValid(maximum, overlap, pageNumber))
            && (r.Ok? <==>
                  && maximum.Finite? && maximum.value.Floor as real == maximum.value >= 32.0
                  && overlap.Finite? && 0.0 <= overlap.value.Floor as real == overlap.value < maximum.value
                  && pageNumber.Finite? && pageNumber.value.Floor as real == pageNumber.value >= 1.0)
            && (r.Ok? && Normalized(source) == [] ==> r.value == [])
            && (r.Ok? && Normalized(source) != [] ==>
                  var spans := Spans(Normalized(source), 0, maximum.value.Floor, overlap.value.Floor);
                  && |r.value| == |spans| && ChunksOf(source, r.value, spans, Stamp(pageNumber.value.Floor, hash))
                  && GoodCut(Normalized(source), 0, spans, maximum.value.Floor, overlap.value.Floor))
  {
    var maximum := OrElse(maximumCharacters, DEFAULT_MAXIMUM);
    var overlap := OrElse(overlapCharacters, DEFAULT_OVERLAP);
    var pageNumber := OrElse(page, DEFAULT_PAGE);
    if !IsInteger(maximum) || maximum.value < 32.0
       || !IsInteger(overlap) || overlap.value < 0.0 || overlap.value >= maximum.value
       || !IsInteger(pageNumber) || pageNumber.value < 1.0 {
      return Err(InvalidConfiguration);
    }
    var normalized := NormalizeWithSourceMap(source);
    if |normalized.content| == 0 {
      return Ok([]);
    }
    var stamp := Stamp(pageNumber.value.Floor, hash);
    var chunks := CutChunks(source, normalized, maximum.value.Floor, overlap.value.Floor, stamp);
    r := Ok(chunks);
  }

  // With the defaults, consecutive chunks begin at least 282 characters apart.
  lemma DefaultChunksAdvance(content: Text, spans: seq<Span>, k: nat)
    requires GoodCut(content, 0, spans, DEFAULT_MAXIMUM, DEFAULT_OVERLAP) && 0 < k < |spans|
    ensures spans[k].start - spans[k - 1].start >= 282
    ensures 0 <= spans[k - 1].end - spans[k].start < 120
  {
    assert StepAt(content, spans, k, DEFAULT_MAXIMUM, DEFAULT_OVERLAP);
  }

  // ---------- When chunks end apart ----------

  ghost predicate EndRises(spans: seq<Span>, k: nat)
    requires 0 < k < |spans|
  {
    spans[k - 1].end < spans[k].end
  }

  ghost predicate EndsRise(spans: seq<Span>) {
    forall k :: 0 < k < |spans| ==> EndRises(spans, k)
  }

  ghost predicate EveryCutRises(maximum: nat, overlap: nat)
    requires 32 <= maximum
  {
    forall content: Text :: Tidy(content) && content != [] ==> EndsRise(Spans(content, 0, maximum, overlap))
  }

  lemma SmallOverlapRises(content: Text, maximum: nat, overlap: nat)
    requires 32 <= maximum && overlap <= maximum / 2 + 1 && Tidy(content) && content != []
    ensures EndsRise(Spans(content, 0, maximum, overlap))
  {
    SpansAreGood(content, 0, maximum, overlap);
    var spans := Spans(content, 0, maximum, overlap);
    forall k | 0 < k < |spans| ensures EndRises(spans, k) {
      assert StepAt(content, spans, k, maximum, overlap);
    }
  }

  // Letters, with spaces only after the first of them and just beyond the middle of a chunk.
  function Stall(maximum: nat): (content: Text)
    ensures |content| == 2 * maximum
    ensures forall i :: 0 <= i < |content| ==> content[i] == if i == 1 || i == maximum / 2 + 3 then SPACE else 97
  {
    seq(2 * maximum, i => if i == 1 || i == maximum / 2 + 3 then SPACE else 97)
  }

  lemma StallIsTidy(maximum: nat)
    requires 32 <= maximum
    ensures Tidy(Stall(maximum))
  {
  }

  // From 0 as from 2, the last space a chunk can end at is the same.
  lemma StallEnds(maximum: nat, start: nat)
    requires 32 <= maximum && start <= 2
    ensures EndFrom(Stall(maximum), start, maximum) == maximum / 2 + 3
  {
    var content := Stall(maximum);
    assert content[maximum / 2 + 3] == SPACE;
    var last := LastIndexOf(content, SPACE, start + maximum);
    assert last >= maximum / 2 + 3 && content[last] == SPACE;
  }

  lemma StallStarts(maximum: nat, overlap: nat)
    requires 32 <= maximum && maximum / 2 + 1 < overlap
    ensures NextChunkStart(Stall(maximum), 0, maximum / 2 + 3, overlap) == 2
  {
    assert IndexOf(Stall(maximum), SPACE, 1) == 1;
  }

  /** With a larger overlap the second chunk of such a text ends where the first does. */
  lemma LargeOverlapStalls(maximum: nat, overlap: nat)
    requires 32 <= maximum && maximum / 2 + 1 < overlap
    ensures var spans := Spans(Stall(maximum), 0, maximum, overlap);
            |spans| >= 2 && spans[0] == Span(0, maximum / 2 + 3) && spans[1] == Span(2, maximum / 2 + 3)
  {
    StallEnds(maximum, 0);
    StallStarts(maximum, overlap);
    StallEnds(maximum, 2);
    SpansUnfold(Stall(maximum), 0, maximum, overlap);
    SpansUnfold(Stall(maximum), 2, maximum, overlap);
  }

  /** In a valid configuration every cut of every tidy text has strictly increasing ends if and only if the
      overlap is at most half the maximum plus one. */
  lemma EndsRiseExactly(maximum: nat, overlap: nat)
    requires ValidConfiguration(maximum, overlap, 1)
    ensures EveryCutRises(maximum, overlap) <==> overlap <= maximum / 2 + 1
  {
    if overlap <= maximum / 2 + 1 {
      forall content: Text | Tidy(content) && content != [] ensures EndsRise(Spans(content, 0, maximum, overlap)) {
        SmallOverlapRises(content, maximum, overlap);
      }
    } else {
      LargeOverlapStalls(maximum, overlap);
      StallIsTidy(maximum);
      assert !EndRises(Spans(Stall(maximum), 0, maximum, overlap), 1);
    }
  }
}
