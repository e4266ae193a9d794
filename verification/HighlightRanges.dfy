/**
 Highlighting the searched terms in a retrieved excerpt. Text is a sequence of characters of
 one code unit each (the basic multilingual plane). Folding a character and telling letters
 and digits from the rest depend on Unicode tables, so both are parameters.
 */
module HighlightRanges {
  import opened Sorting

  type Fold = char -> char    // strip the diacritic and lower the case, or leave the character
  type IsWord = char -> bool  // a letter or a digit

  function Folded(fold: Fold, s: string): (r: string)
    ensures |r| == |s|
  {
    seq(|s|, i requires 0 <= i < |s| => fold(s[i]))
  }

  method FoldText(fold: Fold, value: string) returns (folded: string)
    ensures folded == Folded(fold, value)
  {
    folded := "";
    var index := 0;
    while index < |value|
      invariant index <= |value| && folded == Folded(fold, value[..index])
    {
      folded := folded + [fold(value[index])];
      index := index + 1;
    }
    assert value[..|value|] == value;
  }

  // ---------- Words ----------

  // A maximal run of letters and digits.
  ghost predicate IsRun(isWord: IsWord, s: string, start: nat, end: nat) {
    && start < end <= |s|
    && (forall i :: start <= i < end ==> isWord(s[i]))
    && (start > 0 ==> !isWord(s[start - 1]))
    && (end < |s| ==> !isWord(s[end]))
  }

  ghost predicate RunIs(isWord: IsWord, s: string, start: nat, end: nat, word: string) {
    IsRun(isWord, s, start, end) && s[start..end] == word
  }

  function RunEnd(isWord: IsWord, s: string, from: nat): (end: nat)
    requires from <= |s|
    ensures from <= end <= |s|
    ensures forall i :: from <= i < end ==> isWord(s[i])
    ensures end < |s| ==> !isWord(s[end])
    decreases |s| - from
  {
    if from < |s| && isWord(s[from]) then RunEnd(isWord, s, from + 1) else from
  }

  // The pieces that splitting at runs of other characters leaves, in order.
  function Words(isWord: IsWord, s: string, from: nat): seq<string>
    requires from <= |s|
    decreases |s| - from
  {
    if from == |s| then []
    else if !isWord(s[from]) then Words(isWord, s, from + 1)
    else
      var end := RunEnd(isWord, s, from + 1);
      [s[from..end]] + Words(isWord, s, end)
  }

  lemma {:induction false} WordsAreRuns(isWord: IsWord, s: string, from: nat, word: string)
    requires from <= |s| && (0 < from < |s| && isWord(s[from]) ==> !isWord(s[from - 1]))
    ensures word in Words(isWord, s, from)
            <==> exists start: nat, end: nat :: from <= start && RunIs(isWord, s, start, end, word)
    decreases |s| - from
  {
    if from < |s| {
      if !isWord(s[from]) {
        WordsAreRuns(isWord, s, from + 1, word);
      } else {
        var end := RunEnd(isWord, s, from + 1);
        assert IsRun(isWord, s, from, end);
        WordsAreRuns(isWord, s, end, word);
        assert RunIs(isWord, s, from, end, s[from..end]);
        forall start: nat, e: nat | from <= start && IsRun(isWord, s, start, e)
          ensures start >= end || (start == from && e == end)
        {
          if start < end {
            RunsStartingInside(isWord, s, from, end, start, e);
          }
        }
      }
    }
  }

  lemma RunsStartingInside(isWord: IsWord, s: string, from: nat, end: nat, start: nat, e: nat)
    requires IsRun(isWord, s, from, end) && IsRun(isWord, s, start, e) && from <= start < end
    ensures start == from && e == end
  {
  }

  // Distinct terms of three characters or more, in order of first appearance.
  function Distinct(words: seq<string>): (terms: seq<string>)
    ensures forall term :: term in terms <==> term in words && |term| >= 3
  {
    if words == [] then []
    else
      var before := Distinct(words[..|words| - 1]);
      var last := words[|words| - 1];
      assert words == words[..|words| - 1] + [last];
      if |last| < 3 || last in before then before else before + [last]
  }

  function TermsOf(fold: Fold, isWord: IsWord, query: string): seq<string> {
    Distinct(Words(isWord, Folded(fold, query), 0))
  }

  // A term is a whole word of the folded query, three characters or longer.
  ghost predicate IsTerm(fold: Fold, isWord: IsWord, query: string, term: string) {
    |term| >= 3 && exists start: nat, end: nat :: RunIs(isWord, Folded(fold, query), start, end, term)
  }

  lemma TermsAreQueryWords(fold: Fold, isWord: IsWord, query: string, term: string)
    ensures term in TermsOf(fold, isWord, query) <==> IsTerm(fold, isWord, query, term)
    ensures term in TermsOf(fold, isWord, query) ==> WordsOnly(isWord, [term])
  {
    var folded := Folded(fold, query);
    WordsAreRuns(isWord, folded, 0, term);
    if exists start: nat, end: nat :: RunIs(isWord, folded, start, end, term) {
      var start: nat, end: nat :| RunIs(isWord, folded, start, end, term);
      assert 0 <= start && RunIs(isWord, folded, start, end, term);
    }
  }

  ghost predicate WordsOnly(isWord: IsWord, terms: seq<string>) {
    forall t, i :: 0 <= t < |terms| && 0 <= i < |terms[t]| ==> isWord(terms[t][i])
  }

  // ---------- The regular expression: the alternation of the terms ----------

  datatype Range = Range(start: nat, end: nat)

  predicate MatchesAt(folded: string, term: string, at: nat) {
    at + |term| <= |folded| && folded[at..at + |term|] == term
  }

  // The length of the first alternative that matches here, in the order of the terms.
  function FirstMatch(folded: string, terms: seq<string>, at: nat): (length: nat)
    ensures at <= |folded| ==> at + length <= |folded|
  {
    if terms == [] then 0
    else if |terms[0]| > 0 && MatchesAt(folded, terms[0], at) then |terms[0]|
    else FirstMatch(folded, terms[1..], at)
  }

  // Successive leftmost matches that do not overlap, as a global regular expression finds them.
  function MatchAll(folded: string, terms: seq<string>, from: nat): seq<Range>
    requires from <= |folded|
    decreases |folded| - from
  {
    if from == |folded| then []
    else
      var length := FirstMatch(folded, terms, from);
      if length == 0 then MatchAll(folded, terms, from + 1)
      else [Range(from, from + length)] + MatchAll(folded, terms, from + length)
  }

  ghost predicate WordStart(isWord: IsWord, s: string, at: nat) {
    at < |s| && isWord(s[at]) && (at > 0 ==> !isWord(s[at - 1]))
  }

  ghost predicate SomeTermAt(folded: string, terms: seq<string>, at: nat) {
    exists t :: 0 <= t < |terms| && MatchesAt(folded, terms[t], at)
  }

  ghost predicate ProperTerms(isWord: IsWord, terms: seq<string>) {
    WordsOnly(isWord, terms) && forall t :: 0 <= t < |terms| ==> |terms[t]| >= 3
  }

  // A match: some term is there, and all its characters are letters or digits.
  ghost predicate IsMatch(isWord: IsWord, folded: string, terms: seq<string>, m: Range) {
    && m.start < m.end <= |folded|
    && (forall i :: m.start <= i < m.end ==> isWord(folded[i]))
    && SomeTermAt(folded, terms, m.start)
  }

  lemma TermSpellsWord(isWord: IsWord, folded: string, terms: seq<string>, t: nat, at: nat)
    requires WordsOnly(isWord, terms) && t < |terms| && MatchesAt(folded, terms[t], at)
    ensures forall i :: at <= i < at + |terms[t]| ==> isWord(folded[i])
  {
    forall i | at <= i < at + |terms[t]| ensures isWord(folded[i]) {
      assert folded[i] == folded[at..at + |terms[t]|][i - at] == terms[t][i - at];
    }
  }

  lemma {:induction false} FirstMatchPicksTerm(folded: string, terms: seq<string>, at: nat) returns (t: nat)
    ensures FirstMatch(folded, terms, at) > 0 ==>
              t < |terms| && |terms[t]| == FirstMatch(folded, terms, at) && MatchesAt(folded, terms[t], at)
    ensures FirstMatch(folded, terms, at) == 0 ==>
              forall u :: 0 <= u < |terms| && |terms[u]| > 0 ==> !MatchesAt(folded, terms[u], at)
  {
    t := 0;
    if terms != [] && (|terms[0]| == 0 || !MatchesAt(folded, terms[0], at)) {
      var u := FirstMatchPicksTerm(folded, terms[1..], at);
      t := u + 1;
      forall v | 0 < v < |terms| && |terms[v]| > 0 && FirstMatch(folded, terms, at) == 0
        ensures !MatchesAt(folded, terms[v], at)
      {
        assert terms[v] == terms[1..][v - 1];
      }
    }
  }

  lemma FirstMatchIsMatch(isWord: IsWord, folded: string, terms: seq<string>, at: nat)
    requires ProperTerms(isWord, terms) && at <= |folded|
    ensures var length := FirstMatch(folded, terms, at);
            && (length > 0 ==> IsMatch(isWord, folded, terms, Range(at, at + length)))
            && (length > 0 <==> SomeTermAt(folded, terms, at))
  {
    var t := FirstMatchPicksTerm(folded, terms, at);
    if FirstMatch(folded, terms, at) > 0 {
      TermSpellsWord(isWord, folded, terms, t, at);
    }
  }

  ghost predicate StartsAscend(ranges: seq<Range>) {
    forall j, k :: 0 <= j < k < |ranges| ==> ranges[j].start < ranges[k].start
  }

  // Matches from some place on.
  ghost predicate AreMatches(isWord: IsWord, folded: string, terms: seq<string>, from: nat, ms: seq<Range>) {
    forall k :: 0 <= k < |ms| ==> from <= ms[k].start && IsMatch(isWord, folded, terms, ms[k])
  }

  lemma MatchBefore(isWord: IsWord, folded: string, terms: seq<string>, m: Range, ms: seq<Range>)
    requires IsMatch(isWord, folded, terms, m) && m.start < m.end
    requires AreMatches(isWord, folded, terms, m.end, ms) && StartsAscend(ms)
    ensures AreMatches(isWord, folded, terms, m.start, [m] + ms) && StartsAscend([m] + ms)
  {
  }

  lemma {:induction false} MatchesAreSound(isWord: IsWord, folded: string, terms: seq<string>, from: nat)
    requires ProperTerms(isWord, terms) && from <= |folded|
    ensures var ms := MatchAll(folded, terms, from);
            AreMatches(isWord, folded, terms, from, ms) && StartsAscend(ms)
    decreases |folded| - from
  {
    if from < |folded| {
      FirstMatchIsMatch(isWord, folded, terms, from);
      var length := FirstMatch(folded, terms, from);
      if length == 0 {
        MatchesAreSound(isWord, folded, terms, from + 1);
      } else {
        MatchesAreSound(isWord, folded, terms, from + length);
        MatchBefore(isWord, folded, terms, Range(from, from + length), MatchAll(folded, terms, from + length));
      }
    }
  }

  // A match that begins inside a word never swallows the beginning of another word, so no word
  // that begins with a term is missed.
  lemma {:induction false} MatchesAreComplete(isWord: IsWord, folded: string, terms: seq<string>, from: nat, at: nat)
    requires ProperTerms(isWord, terms) && from <= at && WordStart(isWord, folded, at) && SomeTermAt(folded, terms, at)
    ensures exists k :: 0 <= k < |MatchAll(folded, terms, from)| && MatchAll(folded, terms, from)[k].start == at
    decreases |folded| - from
  {
    FirstMatchIsMatch(isWord, folded, terms, from);
    var length := FirstMatch(folded, terms, from);
    var ms := MatchAll(folded, terms, from);
    if length == 0 {
      MatchesAreComplete(isWord, folded, terms, from + 1, at);
    } else if at == from {
      assert ms[0].start == at;
    } else {
      assert at >= from + length;
      MatchesAreComplete(isWord, folded, terms, from + length, at);
      var rest := MatchAll(folded, terms, from + length);
      var k :| 0 <= k < |rest| && rest[k].start == at;
      assert ms[k + 1].start == at;
    }
  }

  // ---------- The highlighted ranges ----------

  // A whole word of the folded text that begins with a term.
  ghost predicate Hit(isWord: IsWord, folded: string, terms: seq<string>, r: Range) {
    IsRun(isWord, folded, r.start, r.end) && exists t :: 0 <= t < |terms| && BeginsWith(folded, r, terms[t])
  }

  predicate BeginsWith(folded: string, r: Range, term: string) {
    r.start + |term| <= r.end && MatchesAt(folded, term, r.start)
  }

  ghost predicate Separated(ranges: seq<Range>) {
    && (forall k :: 0 <= k < |ranges| ==> ranges[k].start < ranges[k].end)
    && (forall j, k :: 0 <= j < k < |ranges| ==> ranges[j].end < ranges[k].start)
  }

  // The range made from a match at the beginning of a word.
  lemma MatchGivesHit(isWord: IsWord, folded: string, terms: seq<string>, m: Range)
    requires ProperTerms(isWord, terms) && IsMatch(isWord, folded, terms, m) && WordStart(isWord, folded, m.start)
    ensures Hit(isWord, folded, terms, Range(m.start, RunEnd(isWord, folded, m.end)))
  {
    var end := RunEnd(isWord, folded, m.end);
    assert IsRun(isWord, folded, m.start, end);
    var t :| 0 <= t < |terms| && MatchesAt(folded, terms[t], m.start);
    TermSpellsWord(isWord, folded, terms, t, m.start);
    assert BeginsWith(folded, Range(m.start, end), terms[t]);
  }

  lemma HitsAreApart(isWord: IsWord, folded: string, terms: seq<string>, a: Range, b: Range)
    requires Hit(isWord, folded, terms, a) && Hit(isWord, folded, terms, b) && a.start < b.start
    ensures a.end < b.start
  {
    if b.start < a.end {
      RunsStartingInside(isWord, folded, a.start, a.end, b.start, b.end);
    }
  }

  ghost predicate AmongStarts(ranges: seq<Range>, at: nat) {
    exists k :: 0 <= k < |ranges| && ranges[k].start == at
  }

  lemma AmongAppended(ranges: seq<Range>, r: Range, at: nat)
    ensures AmongStarts(ranges + [r], at) <==> AmongStarts(ranges, at) || r.start == at
  {
    if AmongStarts(ranges, at) {
      var k :| 0 <= k < |ranges| && ranges[k].start == at;
      assert (ranges + [r])[k].start == at;
    }
    assert (ranges + [r])[|ranges|] == r;
  }

  // The ranges found so far: all of them hits, one for every match at a word start.
  ghost predicate FoundFor(isWord: IsWord, folded: string, terms: seq<string>, matches: seq<Range>, found: seq<Range>) {
    && (forall k :: 0 <= k < |found| ==> Hit(isWord, folded, terms, found[k]))
    && StartsAscend(found)
    && (forall k :: 0 <= k < |found| ==> AmongStarts(matches, found[k].start))
    && (forall at: nat :: AmongStarts(matches, at) && WordStart(isWord, folded, at) ==> AmongStarts(found, at))
  }

  lemma AscendAppended(matches: seq<Range>, m: Range, at: nat)
    requires StartsAscend(matches + [m]) && AmongStarts(matches, at)
    ensures at < m.start
  {
    var k :| 0 <= k < |matches| && matches[k].start == at;
    assert (matches + [m])[k].start < (matches + [m])[|matches|].start;
  }

  lemma FoundSkip(isWord: IsWord, folded: string, terms: seq<string>, matches: seq<Range>, found: seq<Range>, m: Range)
    requires FoundFor(isWord, folded, terms, matches, found) && !WordStart(isWord, folded, m.start)
    ensures FoundFor(isWord, folded, terms, matches + [m], found)
  {
    forall at: nat ensures AmongStarts(matches + [m], at) <==> AmongStarts(matches, at) || m.start == at {
      AmongAppended(matches, m, at);
    }
  }

  lemma FoundPush(isWord: IsWord, folded: string, terms: seq<string>, matches: seq<Range>, found: seq<Range>, m: Range)
    requires ProperTerms(isWord, terms) && FoundFor(isWord, folded, terms, matches, found)
    requires IsMatch(isWord, folded, terms, m) && StartsAscend(matches + [m]) && WordStart(isWord, folded, m.start)
    ensures FoundFor(isWord, folded, terms, matches + [m], found + [Range(m.start, RunEnd(isWord, folded, m.end))])
  {
    var r := Range(m.start, RunEnd(isWord, folded, m.end));
    MatchGivesHit(isWord, folded, terms, m);
    forall at: nat
      ensures AmongStarts(matches + [m], at) <==> AmongStarts(matches, at) || m.start == at
      ensures AmongStarts(found + [r], at) <==> AmongStarts(found, at) || m.start == at
    {
      AmongAppended(matches, m, at);
      AmongAppended(found, r, at);
    }
    forall k | 0 <= k < |found| ensures found[k].start < m.start {
      AscendAppended(matches, m, found[k].start);
    }
  }

  // Exactly the hits, in order, never touching.
  ghost predicate AreTheHits(isWord: IsWord, folded: string, terms: seq<string>, ranges: seq<Range>) {
    && Separated(ranges)
    && forall r: Range :: r in ranges <==> Hit(isWord, folded, terms, r)
  }

  lemma FoundAreTheHits(isWord: IsWord, folded: string, terms: seq<string>, found: seq<Range>)
    requires ProperTerms(isWord, terms) && FoundFor(isWord, folded, terms, MatchAll(folded, terms, 0), found)
    ensures AreTheHits(isWord, folded, terms, found)
  {
    forall j, k | 0 <= j < k < |found| ensures found[j].end < found[k].start {
      HitsAreApart(isWord, folded, terms, found[j], found[k]);
    }
    forall r: Range | Hit(isWord, folded, terms, r) ensures r in found {
      HitIsFound(isWord, folded, terms, found, r);
    }
  }

  lemma HitIsMatched(isWord: IsWord, folded: string, terms: seq<string>, r: Range)
    requires ProperTerms(isWord, terms) && Hit(isWord, folded, terms, r)
    ensures WordStart(isWord, folded, r.start) && AmongStarts(MatchAll(folded, terms, 0), r.start)
  {
    var t :| 0 <= t < |terms| && BeginsWith(folded, r, terms[t]);
    MatchesAreComplete(isWord, folded, terms, 0, r.start);
  }

  lemma HitIsFound(isWord: IsWord, folded: string, terms: seq<string>, found: seq<Range>, r: Range)
    requires ProperTerms(isWord, terms) && FoundFor(isWord, folded, terms, MatchAll(folded, terms, 0), found)
    requires Hit(isWord, folded, terms, r)
    ensures r in found
  {
    HitIsMatched(isWord, folded, terms, r);
    var k :| 0 <= k < |found| && found[k].start == r.start;
    assert Hit(isWord, folded, terms, found[k]);
    RunsStartingInside(isWord, folded, r.start, r.end, found[k].start, found[k].end);
    assert found[k] == r;
  }

  ghost predicate Covered(ranges: seq<Range>, at: nat) {
    exists k :: 0 <= k < |ranges| && ranges[k].start <= at < ranges[k].end
  }

  ghost predicate ProperRanges(ranges: seq<Range>) {
    && (forall k :: 0 <= k < |ranges| ==> ranges[k].start < ranges[k].end)
    && (forall j, k :: 0 <= j < k < |ranges| ==> ranges[j].start <= ranges[k].start)
  }

  // Join ranges that overlap or touch: the same characters stay covered, and ranges that were
  // already apart are left as they are.
  method MergeRanges(ranges: seq<Range>) returns (merged: seq<Range>)
    requires ProperRanges(ranges)
    ensures Separated(merged)
    ensures forall at: nat :: Covered(merged, at) <==> Covered(ranges, at)
    ensures Separated(ranges) ==> merged == ranges
  {
    merged := [];
    var i := 0;
    while i < |ranges|
      invariant i <= |ranges| && MergedSoFar(ranges, i, merged)
    {
      MergeTurn(ranges, i, merged);
      merged := MergeOne(merged, ranges[i]);
      i := i + 1;
    }
    assert ranges[..|ranges|] == ranges;
  }

  ghost predicate MergedSoFar(ranges: seq<Range>, i: nat, merged: seq<Range>)
    requires i <= |ranges|
  {
    && Separated(merged)
    && (merged != [] && i < |ranges| ==> merged[|merged| - 1].start <= ranges[i].start)
    && (forall at: nat :: Covered(merged, at) <==> Covered(ranges[..i], at))
    && (Separated(ranges) ==> merged == ranges[..i])
  }

  // One range: joined to the last one if it starts no later than that ends, else put after it.
  function MergeStep(merged: seq<Range>, range: Range): seq<Range> {
    if |merged| > 0 && range.start <= merged[|merged| - 1].end then
      var previous := merged[|merged| - 1];
      merged[|merged| - 1 := previous.(end := if previous.end > range.end then previous.end else range.end)]
    else merged + [range]
  }

  method MergeOne(before: seq<Range>, range: Range) returns (merged: seq<Range>)
    ensures merged == MergeStep(before, range)
  {
    merged := before;
    if |merged| > 0 && range.start <= merged[|merged| - 1].end {
      var previous := merged[|merged| - 1];
      merged := merged[|merged| - 1 := previous.(end := if previous.end > range.end then previous.end else range.end)];
    } else {
      merged := merged + [range];
    }
  }

  lemma MergeCovers(merged: seq<Range>, range: Range)
    requires Separated(merged) && range.start < range.end
    requires merged != [] ==> merged[|merged| - 1].start <= range.start
    ensures Separated(MergeStep(merged, range))
    ensures forall at: nat :: Covered(MergeStep(merged, range), at) <==>
              Covered(merged, at) || range.start <= at < range.end
    ensures MergeStep(merged, range)[|MergeStep(merged, range)| - 1].start <= range.start
  {
    if |merged| > 0 && range.start <= merged[|merged| - 1].end {
      CoverJoined(merged, range, MergeStep(merged, range));
    } else {
      CoverAppended(merged, range);
      AppendKeepsSeparated(merged, range);
    }
  }

  lemma MergeTurn(ranges: seq<Range>, i: nat, merged: seq<Range>)
    requires ProperRanges(ranges) && i < |ranges| && MergedSoFar(ranges, i, merged)
    ensures MergedSoFar(ranges, i + 1, MergeStep(merged, ranges[i]))
  {
    assert ranges[..i + 1] == ranges[..i] + [ranges[i]];
    CoverAppended(ranges[..i], ranges[i]);
    MergeCovers(merged, ranges[i]);
    assert Separated(ranges) && i > 0 ==> ranges[i - 1].end < ranges[i].start;
  }

  lemma AppendKeepsSeparated(ranges: seq<Range>, r: Range)
    requires Separated(ranges) && r.start < r.end
    requires ranges != [] ==> ranges[|ranges| - 1].end < r.start
    ensures Separated(ranges + [r])
  {
    forall j | 0 <= j < |ranges| ensures ranges[j].end < r.start {
      assert j < |ranges| - 1 ==> ranges[j].end < ranges[|ranges| - 1].start;
    }
  }

  lemma CoverAppended(ranges: seq<Range>, r: Range)
    ensures forall at: nat :: Covered(ranges + [r], at) <==> Covered(ranges, at) || r.start <= at < r.end
  {
    forall at: nat ensures Covered(ranges + [r], at) <==> Covered(ranges, at) || r.start <= at < r.end {
      if Covered(ranges, at) {
        var k :| 0 <= k < |ranges| && ranges[k].start <= at < ranges[k].end;
        assert (ranges + [r])[k] == ranges[k];
      }
      if r.start <= at < r.end {
        assert (ranges + [r])[|ranges|] == r;
      }
    }
  }

  lemma CoverJoined(ranges: seq<Range>, r: Range, joined: seq<Range>)
    requires ranges != [] && r.start < r.end
    requires ranges[|ranges| - 1].start <= r.start <= ranges[|ranges| - 1].end
    requires var last := ranges[|ranges| - 1];
             joined == ranges[|ranges| - 1 := Range(last.start, if last.end > r.end then last.end else r.end)]
    ensures forall at: nat :: Covered(joined, at) <==> Covered(ranges, at) || r.start <= at < r.end
    ensures Separated(ranges) ==> Separated(joined)
  {
    var n := |ranges| - 1;
    assert ranges == ranges[..n] + [ranges[n]];
    assert joined == ranges[..n] + [joined[n]];
    CoverAppended(ranges[..n], ranges[n]);
    CoverAppended(ranges[..n], joined[n]);
  }

  predicate StartsBefore(a: Range, b: Range) { a.start < b.start }

  method RangesFor(isWord: IsWord, folded: string, terms: seq<string>) returns (merged: seq<Range>)
    requires ProperTerms(isWord, terms)
    ensures AreTheHits(isWord, folded, terms, merged)
  {
    var found := FindRanges(isWord, folded, terms);
    FoundAreTheHits(isWord, folded, terms, found);
    SortKeepsOrdered(StartsBefore, found);
    var sorted := Sort(StartsBefore, found);
    merged := MergeRanges(sorted);
    assert merged == found;  // the sort and the merge had nothing to do
  }

  method FindRanges(isWord: IsWord, folded: string, terms: seq<string>) returns (found: seq<Range>)
    requires ProperTerms(isWord, terms)
    ensures FoundFor(isWord, folded, terms, MatchAll(folded, terms, 0), found)
  {
    var matches := MatchAll(folded, terms, 0);
    found := [];
    NothingFound(isWord, folded, terms);
    assert matches[..0] == [];
    var i := 0;
    while i < |matches|
      invariant i <= |matches| && FoundFor(isWord, folded, terms, matches[..i], found)
    {
      FoundTurn(isWord, folded, terms, matches, i, found);
      var start := matches[i].start;
      if !(start > 0 && isWord(folded[start - 1])) {
        var end := ExtendToRunEnd(isWord, folded, matches[i].end);
        found := found + [Range(start, end)];
      }
      i := i + 1;
    }
    assert matches[..|matches|] == matches;
  }

  lemma NothingFound(isWord: IsWord, folded: string, terms: seq<string>)
    ensures FoundFor(isWord, folded, terms, [], [])
  {
  }

  lemma MatchStartsWord(isWord: IsWord, folded: string, terms: seq<string>, m: Range)
    requires IsMatch(isWord, folded, terms, m)
    ensures WordStart(isWord, folded, m.start) <==> !(m.start > 0 && isWord(folded[m.start - 1]))
  {
    assert isWord(folded[m.start]);
  }

  lemma AscendPrefix(matches: seq<Range>, i: nat)
    requires StartsAscend(matches) && i < |matches|
    ensures StartsAscend(matches[..i] + [matches[i]])
  {
    assert matches[..i] + [matches[i]] == matches[..i + 1];
  }

  function FoundStep(isWord: IsWord, folded: string, found: seq<Range>, m: Range): seq<Range>
    requires m.start < m.end <= |folded|
  {
    if m.start > 0 && isWord(folded[m.start - 1]) then found
    else found + [Range(m.start, RunEnd(isWord, folded, m.end))]
  }

  lemma FoundOne(isWord: IsWord, folded: string, terms: seq<string>, matches: seq<Range>, found: seq<Range>, m: Range)
    requires ProperTerms(isWord, terms) && FoundFor(isWord, folded, terms, matches, found)
    requires IsMatch(isWord, folded, terms, m) && StartsAscend(matches + [m])
    ensures FoundFor(isWord, folded, terms, matches + [m], FoundStep(isWord, folded, found, m))
  {
    MatchStartsWord(isWord, folded, terms, m);
    if m.start > 0 && isWord(folded[m.start - 1]) {
      FoundSkip(isWord, folded, terms, matches, found, m);
    } else {
      FoundPush(isWord, folded, terms, matches, found, m);
    }
  }

  // One match either starts a word, and gives a range, or is passed over.
  lemma FoundTurn(isWord: IsWord, folded: string, terms: seq<string>, matches: seq<Range>, i: nat, found: seq<Range>)
    requires ProperTerms(isWord, terms) && matches == MatchAll(folded, terms, 0) && i < |matches|
    requires FoundFor(isWord, folded, terms, matches[..i], found)
    ensures matches[i].start < matches[i].end <= |folded|
    ensures FoundFor(isWord, folded, terms, matches[..i + 1], FoundStep(isWord, folded, found, matches[i]))
  {
    MatchesAreSound(isWord, folded, terms, 0);
    AscendPrefix(matches, i);
    FoundOne(isWord, folded, terms, matches[..i], found, matches[i]);
    assert matches[..i + 1] == matches[..i] + [matches[i]];
  }

  method ExtendToRunEnd(isWord: IsWord, folded: string, from: nat) returns (end: nat)
    requires from <= |folded|
    ensures end == RunEnd(isWord, folded, from)
  {
    end := from;
    while end < |folded| && isWord(folded[end])
      invariant from <= end <= |folded|
      invariant RunEnd(isWord, folded, end) == RunEnd(isWord, folded, from)
    {
      end := end + 1;
    }
  }
}
