/**
 The text of the knowledge base: white space is collapsed while a map back to the source is
 built. Text is a sequence of UTF-16 code units, as in the source, so a boundary can fall
 inside a surrogate pair.
 */
module Knowledge {
  import opened Wrappers

  newtype CodeUnit = x: int | 0 <= x < 0x1_0000

  type Text = seq<CodeUnit>

  const SPACE: CodeUnit := 32
  const CARRIAGE_RETURN: CodeUnit := 13
  const LINE_FEED: CodeUnit := 10

  // The class \s of ECMAScript regular expressions.
  predicate IsWhitespace(c: CodeUnit) {
    9 <= c <= 13 || c == 32 || c == 0xA0 || c == 0x1680 || 0x2000 <= c <= 0x200A
    || c == 0x2028 || c == 0x2029 || c == 0x202F || c == 0x205F || c == 0x3000 || c == 0xFEFF
  }

  predicate IsBlank(c: CodeUnit) {
    c == 0 || c == CARRIAGE_RETURN || IsWhitespace(c)
  }

  // NUL and the 25 code units of white space.
  lemma BlanksAreExact(c: CodeUnit)
    ensures IsBlank(c) <==>
            || c in {0, 9, 10, 11, 12, 13, 32, 0xA0, 0x1680, 0x2028, 0x2029, 0x202F, 0x205F, 0x3000, 0xFEFF}
            || c in {0x2000, 0x2001, 0x2002, 0x2003, 0x2004, 0x2005, 0x2006, 0x2007, 0x2008, 0x2009, 0x200A}
  {
  }

  // ---------- What normalising means, without any source map ----------

  // Every run of blanks becomes one space; blanks at the end vanish.
  function Collapse(s: Text): Text {
    if s == [] then []
    else
      var rest := Collapse(s[1..]);
      if !IsBlank(s[0]) then [s[0]] + rest
      else if rest == [] || rest[0] == SPACE then rest
      else [SPACE] + rest
  }

  function DropLeadingSpace(s: Text): Text {
    if s != [] && s[0] == SPACE then s[1..] else s
  }

  function Normalized(source: Text): Text {
    DropLeadingSpace(Collapse(source))
  }

  ghost predicate AllBlank(source: Text, from: nat, to: nat) {
    from <= to <= |source| && forall i :: from <= i < to ==> IsBlank(source[i])
  }

  lemma {:induction false} CollapseIgnoresTrailingBlanks(a: Text, b: Text)
    requires AllBlank(b, 0, |b|)
    ensures Collapse(a + b) == Collapse(a)
  {
    if a != [] {
      assert (a + b)[1..] == a[1..] + b;
      CollapseIgnoresTrailingBlanks(a[1..], b);
    } else {
      assert a + b == b;
      if b != [] {
        assert AllBlank(b[1..], 0, |b[1..]|);
        CollapseIgnoresTrailingBlanks([], b[1..]);
        assert [] + b[1..] == b[1..];
      }
    }
  }

  lemma {:induction false} CollapseOfBlankRun(run: Text, rest: Text)
    requires run != [] && AllBlank(run, 0, |run|)
    requires Collapse(rest) != [] && Collapse(rest)[0] != SPACE
    ensures Collapse(run + rest) == [SPACE] + Collapse(rest)
  {
    assert (run + rest)[1..] == run[1..] + rest;
    if |run| == 1 {
      assert run[1..] + rest == rest;
    } else {
      CollapseOfBlankRun(run[1..], rest);
    }
  }

  ghost predicate DoubleSpaceAt(s: Text, i: nat)
    requires 0 < i < |s|
  {
    s[i - 1] == SPACE && s[i] == SPACE
  }

  // No blanks but single spaces, and none at the end.
  ghost predicate Tidy(s: Text) {
    && (forall i :: 0 <= i < |s| && IsBlank(s[i]) ==> s[i] == SPACE)
    && (forall i :: 0 < i < |s| ==> !DoubleSpaceAt(s, i))
    && (s != [] ==> s[|s| - 1] != SPACE)
  }

  lemma {:induction false} CollapseIsTidy(s: Text)
    ensures Tidy(Collapse(s))
  {
    if s != [] {
      var rest := Collapse(s[1..]);
      CollapseIsTidy(s[1..]);
      forall i | 0 < i < |Collapse(s)| ensures !DoubleSpaceAt(Collapse(s), i) {
        if Collapse(s) != rest && i > 1 {
          assert !DoubleSpaceAt(rest, i - 1);
        }
      }
    }
  }

  lemma TidyTail(s: Text)
    requires s != [] && Tidy(s)
    ensures Tidy(s[1..])
  {
    forall i | 0 < i < |s[1..]| ensures !DoubleSpaceAt(s[1..], i) {
      assert !DoubleSpaceAt(s, i + 1);
    }
  }

  lemma {:induction false} CollapseKeepsTidy(s: Text)
    requires Tidy(s)
    ensures Collapse(s) == s
  {
    if s != [] {
      TidyTail(s);
      CollapseKeepsTidy(s[1..]);
      assert |s| > 1 ==> !DoubleSpaceAt(s, 1);
    }
  }

  lemma NormalizedIsTidyAndStable(source: Text)
    ensures Tidy(Normalized(source))
    ensures Normalized(source) != [] ==> Normalized(source)[0] != SPACE
    ensures forall c :: c in Normalized(source) ==> c != 0 && !(9 <= c <= 13)
    ensures Normalized(Normalized(source)) == Normalized(source)
  {
    CollapseIsTidy(source);
    var c := Collapse(source);
    if c != [] && c[0] == SPACE {
      TidyTail(c);
      assert |c| > 1 ==> !DoubleSpaceAt(c, 1);
    }
    CollapseKeepsTidy(Normalized(source));
  }

  // ---------- The source map ----------

  datatype NormalizedText = NormalizedText(content: Text, sourceStarts: seq<nat>, sourceEnds: seq<nat>)

  // One character of the content stands for one source character, or for a run of blanks.
  ghost predicate IsTile(source: Text, c: CodeUnit, from: nat, to: nat) {
    && from < to <= |source|
    && if c == SPACE then AllBlank(source, from, to)
       else to == from + 1 && source[from] == c && !IsBlank(c)
  }

  ghost predicate TileAt(source: Text, m: NormalizedText, i: nat)
    requires i < |m.content| == |m.sourceStarts| == |m.sourceEnds|
  {
    IsTile(source, m.content[i], m.sourceStarts[i], m.sourceEnds[i])
  }

  ghost predicate JoinAt(m: NormalizedText, i: nat)
    requires 0 < i < |m.content| == |m.sourceStarts| == |m.sourceEnds|
  {
    m.sourceStarts[i] == m.sourceEnds[i - 1] && !DoubleSpaceAt(m.content, i)
  }

  // The tiles are contiguous, and no two neighbouring tiles are both blank: a blank tile is a
  // whole run, so no tile boundary ever falls inside a CR LF pair.
  ghost predicate Tiling(source: Text, m: NormalizedText) {
    && |m.content| == |m.sourceStarts| == |m.sourceEnds|
    && (forall i :: 0 <= i < |m.content| ==> TileAt(source, m, i))
    && (forall i :: 0 < i < |m.content| ==> JoinAt(m, i))
  }

  // The tiles are all there is in source[..n], except blanks before the first tile.
  ghost predicate TilesPrefix(source: Text, n: nat, m: NormalizedText)
    requires n <= |source|
  {
    && Tiling(source, m)
    && if m.content == [] then AllBlank(source, 0, n)
       else m.content[0] != SPACE && AllBlank(source, 0, m.sourceStarts[0]) && m.sourceEnds[|m.content| - 1] == n
  }

  // The tiles are all there is in the source, except blanks at either end.
  ghost predicate TilesSource(source: Text, m: NormalizedText) {
    && Tiling(source, m)
    && if m.content == [] then AllBlank(source, 0, |source|)
       else
         var last := |m.content| - 1;
         && m.content[0] != SPACE && AllBlank(source, 0, m.sourceStarts[0])
         && m.content[last] != SPACE && AllBlank(source, m.sourceEnds[last], |source|)
  }

  lemma {:induction false} TilesAreOrdered(source: Text, m: NormalizedText, s: nat, e: nat)
    requires Tiling(source, m) && s < e <= |m.content|
    ensures m.sourceStarts[s] < m.sourceEnds[e - 1] <= |source|
    ensures s + 1 < e ==> m.sourceEnds[s] < m.sourceEnds[e - 1]
    decreases e - s
  {
    assert TileAt(source, m, s);
    assert s + 1 < e ==> JoinAt(m, s + 1);
    if s + 1 < e {
      TilesAreOrdered(source, m, s + 1, e);
    }
  }

  // The reading of a citation: collapsing the source between the two offsets gives back
  // exactly the characters the offsets were taken from.
  lemma {:induction false} SliceCollapsesToContent(source: Text, m: NormalizedText, s: nat, e: nat)
    requires Tiling(source, m) && s < e <= |m.content| && m.content[e - 1] != SPACE
    ensures m.sourceStarts[s] < m.sourceEnds[e - 1] <= |source|
    ensures Collapse(source[m.sourceStarts[s]..m.sourceEnds[e - 1]]) == m.content[s..e]
    decreases e - s
  {
    TilesAreOrdered(source, m, s, e);
    var from, to, end := m.sourceStarts[s], m.sourceEnds[s], m.sourceEnds[e - 1];
    assert TileAt(source, m, s);
    if s + 1 == e {
      assert source[from..end] == [m.content[s]];
      assert m.content[s..e] == [m.content[s]];
      assert Collapse([m.content[s]][1..]) == [];
    } else {
      SliceCollapsesToContent(source, m, s + 1, e);
      assert JoinAt(m, s + 1);
      var rest := source[to..end];
      assert source[from..end] == source[from..to] + rest;
      assert m.content[s..e] == [m.content[s]] + m.content[s + 1..e];
      if m.content[s] == SPACE {
        assert !DoubleSpaceAt(m.content, s + 1);
        CollapseOfBlankRun(source[from..to], rest);
      } else {
        assert source[from..end][1..] == rest;
      }
    }
  }

  lemma PrefixNormalizes(source: Text, m: NormalizedText, e: nat)
    requires TilesSource(source, m) && 0 < e <= |m.content| && m.content[e - 1] != SPACE
    ensures m.sourceEnds[e - 1] <= |source|
    ensures Normalized(source[..m.sourceEnds[e - 1]]) == m.content[..e]
  {
    SliceCollapsesToContent(source, m, 0, e);
    var from, to := m.sourceStarts[0], m.sourceEnds[e - 1];
    assert m.content[0..e] == m.content[..e];
    assert source[..to] == source[..from] + source[from..to];
    if from == 0 {
      assert source[..to] == source[from..to];
    } else {
      CollapseOfBlankRun(source[..from], source[from..to]);
    }
  }

  lemma BlankSuffix(source: Text, to: nat)
    requires AllBlank(source, to, |source|)
    ensures AllBlank(source[to..], 0, |source[to..]|)
  {
    forall i | 0 <= i < |source[to..]| ensures IsBlank(source[to..][i]) {
      assert source[to..][i] == source[to + i];
    }
  }

  lemma SuffixNormalizes(source: Text, m: NormalizedText, s: nat)
    requires TilesSource(source, m) && s < |m.content|
    ensures m.sourceStarts[s] <= |source|
    ensures Normalized(source[m.sourceStarts[s]..]) == DropLeadingSpace(m.content[s..])
  {
    var n := |m.content|;
    SliceCollapsesToContent(source, m, s, n);
    var from, to := m.sourceStarts[s], m.sourceEnds[n - 1];
    assert source[from..] == source[from..to] + source[to..];
    BlankSuffix(source, to);
    CollapseIgnoresTrailingBlanks(source[from..to], source[to..]);
    assert m.content[s..n] == m.content[s..];
  }

  lemma TilesNormalize(source: Text, m: NormalizedText)
    requires TilesSource(source, m)
    ensures m.content == Normalized(source)
  {
    if m.content == [] {
      CollapseIgnoresTrailingBlanks([], source);
      assert [] + source == source;
    } else {
      var n := |m.content|;
      PrefixNormalizes(source, m, n);
      TilesAreOrdered(source, m, 0, n);
      var to := m.sourceEnds[n - 1];
      assert source == source[..to] + source[to..];
      BlankSuffix(source, to);
      CollapseIgnoresTrailingBlanks(source[..to], source[to..]);
      assert m.content[..n] == m.content;
    }
  }

  // The three ways in which one turn of the loop changes the map.

  lemma TilesCarryOver(source: Text, m: NormalizedText, m': NormalizedText, n: nat)
    requires Tiling(source, m) && |m'.content| == |m'.sourceStarts| == |m'.sourceEnds|
    requires n <= |m.content| && n <= |m'.content|
    requires m.content[..n] == m'.content[..n]
    requires m.sourceStarts[..n] == m'.sourceStarts[..n] && m.sourceEnds[..n] == m'.sourceEnds[..n]
    ensures forall i :: 0 <= i < n ==> TileAt(source, m', i)
    ensures forall i :: 0 < i < n ==> JoinAt(m', i)
  {
    forall i | 0 <= i < n ensures TileAt(source, m', i) && (i > 0 ==> JoinAt(m', i)) {
      assert m.content[..n][i] == m'.content[..n][i];
      assert m.sourceStarts[..n][i] == m'.sourceStarts[..n][i] && m.sourceEnds[..n][i] == m'.sourceEnds[..n][i];
      assert TileAt(source, m, i);
      if i > 0 {
        assert JoinAt(m, i);
        assert m.content[..n][i - 1] == m'.content[..n][i - 1];
        assert m.sourceEnds[..n][i - 1] == m'.sourceEnds[..n][i - 1];
      }
    }
  }

  lemma SkipKeepsPrefix(source: Text, from: nat, to: nat, m: NormalizedText)
    requires from <= to <= |source| && TilesPrefix(source, from, m) && AllBlank(source, from, to)
    requires m.content == []
    ensures TilesPrefix(source, to, m)
  {
  }

  lemma PushKeepsPrefix(source: Text, from: nat, to: nat, m: NormalizedText, c: CodeUnit)
    requires from <= to <= |source| && TilesPrefix(source, from, m) && IsTile(source, c, from, to)
    requires c == SPACE ==> m.content != [] && m.content[|m.content| - 1] != SPACE
    ensures TilesPrefix(source, to,
              NormalizedText(m.content + [c], m.sourceStarts + [from], m.sourceEnds + [to]))
  {
    var m' := NormalizedText(m.content + [c], m.sourceStarts + [from], m.sourceEnds + [to]);
    TilesCarryOver(source, m, m', |m.content|);
  }

  lemma ExtendKeepsPrefix(source: Text, from: nat, to: nat, m: NormalizedText)
    requires from < to <= |source| && TilesPrefix(source, from, m) && AllBlank(source, from, to)
    requires m.content != [] && m.content[|m.content| - 1] == SPACE
    ensures TilesPrefix(source, to, m.(sourceEnds := m.sourceEnds[|m.sourceEnds| - 1 := to]))
  {
    var last := |m.content| - 1;
    var m' := m.(sourceEnds := m.sourceEnds[|m.sourceEnds| - 1 := to]);
    TilesCarryOver(source, m, m', last);
    assert TileAt(source, m, last);
    assert TileAt(source, m', last);
    assert last > 0 ==> JoinAt(m, last);
    assert last > 0 ==> JoinAt(m', last);
  }

  lemma PopFinishesTiling(source: Text, m: NormalizedText)
    requires TilesPrefix(source, |source|, m)
    requires m.content != [] && m.content[|m.content| - 1] == SPACE
    ensures var n := |m.content| - 1;
            TilesSource(source, NormalizedText(m.content[..n], m.sourceStarts[..n], m.sourceEnds[..n]))
  {
    var n := |m.content| - 1;
    var m' := NormalizedText(m.content[..n], m.sourceStarts[..n], m.sourceEnds[..n]);
    TilesCarryOver(source, m, m', n);
    assert TileAt(source, m, n);
    assert JoinAt(m, n);
  }

  method NormalizeWithSourceMap(source: Text) returns (m: NormalizedText)
    ensures TilesSource(source, m)
    ensures m.content == Normalized(source)
  {
    var characters: Text := [];
    var sourceStarts: seq<nat> := [];
    var sourceEnds: seq<nat> := [];
    var index := 0;
    while index < |source|
      invariant index <= |source|
      invariant |characters| == |sourceStarts| == |sourceEnds|
      invariant TilesPrefix(source, index, NormalizedText(characters, sourceStarts, sourceEnds))
    {
      ghost var before := NormalizedText(characters, sourceStarts, sourceEnds);
      var current := source[index];
      var isCrLf := current == CARRIAGE_RETURN && index + 1 < |source| && source[index + 1] == LINE_FEED;
      var sourceEnd := index + (if isCrLf then 2 else 1);
      var normalized := if IsBlank(current) then SPACE else current;
      if normalized == SPACE {
        if |characters| == 0 {
          SkipKeepsPrefix(source, index, sourceEnd, before);
        } else if characters[|characters| - 1] == SPACE {
          ExtendKeepsPrefix(source, index, sourceEnd, before);
          sourceEnds := sourceEnds[|sourceEnds| - 1 := sourceEnd];
        } else {
          PushKeepsPrefix(source, index, sourceEnd, before, SPACE);
          characters := characters + [SPACE];
          sourceStarts := sourceStarts + [index];
          sourceEnds := sourceEnds + [sourceEnd];
        }
      } else {
        PushKeepsPrefix(source, index, sourceEnd, before, normalized);
        characters := characters + [normalized];
        sourceStarts := sourceStarts + [index];
        sourceEnds := sourceEnds + [sourceEnd];
      }
      index := sourceEnd;
    }
    if |characters| > 0 && characters[|characters| - 1] == SPACE {
      PopFinishesTiling(source, NormalizedText(characters, sourceStarts, sourceEnds));
      characters := characters[..|characters| - 1];
      sourceStarts := sourceStarts[..|sourceStarts| - 1];
      sourceEnds := sourceEnds[..|sourceEnds| - 1];
    }
    m := NormalizedText(characters, sourceStarts, sourceEnds);
    TilesNormalize(source, m);
  }
}
