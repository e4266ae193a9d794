/**
 Hybrid search: two ranked lists of chunks are merged by reciprocal rank, sorted, reduced to
 chunks with a valid citation, and cut at the limit. Scores are exact reals, shown to eight places.
 */
module RankFusion {
  import opened Wrappers
  import opened Sorting
  import opened Numbers

  // A chunk identifier, as its place in the order localeCompare gives to identifiers.
  type ChunkId = nat

  datatype RowLocator = RowLocator(pageNumber: int, startOffset: int, endOffset: int)

  // The metadata that names a source extraction and, when it is well shaped, a locator of integers.
  datatype Metadata = Metadata(locator: Option<RowLocator>, sourceExtractionId: nat)

  datatype Row = Row(chunkId: ChunkId, caseId: nat, documentId: nat, sourceId: nat, content: string,
                     contentHash: string, metadata: Option<Metadata>, score: real)

  datatype Citation = Citation(caseId: nat, documentId: nat, extractionId: nat, locator: RowLocator,
                               contentHash: string)

  datatype Mode = Hybrid | Lexical | Semantic

  datatype Candidate = Candidate(row: Row, lexicalRank: Option<nat>, semanticRank: Option<nat>,
                                 lexicalScore: Option<real>, semanticScore: Option<real>)

  datatype SearchResult = SearchResult(chunkId: ChunkId, excerpt: string, matchedBy: Mode, score: real,
                                       citation: Citation)

  // The metadata places the row on a page of its own extraction, in a range that is not empty.
  predicate Locates(metadata: Metadata, sourceId: nat) {
    && metadata.locator.Some?
    && 1 <= metadata.locator.value.pageNumber
    && 0 <= metadata.locator.value.startOffset < metadata.locator.value.endOffset
    && metadata.sourceExtractionId == sourceId
  }

  function MapCitation(row: Row): (r: Option<Citation>)
    ensures r.Some? <==> row.metadata.Some? && Locates(row.metadata.value, row.sourceId)
    ensures r.Some? ==> Some(r.value.locator) == row.metadata.value.locator && r.value.extractionId == row.sourceId
    ensures r.Some? ==>
              && r.value.caseId == row.caseId && r.value.documentId == row.documentId
              && r.value.contentHash == row.contentHash
  {
    match row.metadata
    case Some(Metadata(Some(l), extraction)) =>
      if l.pageNumber < 1 || l.startOffset < 0 || l.endOffset <= l.startOffset || extraction != row.sourceId then None
      else Some(Citation(row.caseId, row.documentId, row.sourceId, l, row.contentHash))
    case _ => None
  }

  // ---------- Merging ----------

  ghost predicate DistinctRows(rows: seq<Row>) {
    forall i, j :: 0 <= i < j < |rows| ==> rows[i].chunkId != rows[j].chunkId
  }

  ghost predicate Holds(rows: seq<Row>, id: ChunkId) {
    exists k :: 0 <= k < |rows| && rows[k].chunkId == id
  }

  ghost predicate IsLastRow(rows: seq<Row>, id: ChunkId, k: nat) {
    k < |rows| && rows[k].chunkId == id && forall j :: k < j < |rows| ==> rows[j].chunkId != id
  }

  ghost predicate IsFirstRow(rows: seq<Row>, id: ChunkId, k: nat) {
    k < |rows| && rows[k].chunkId == id && forall j :: 0 <= j < k ==> rows[j].chunkId != id
  }

  // The place, counted from one, of a chunk in a list.
  function RankIn(rows: seq<Row>, id: ChunkId): (rank: Option<nat>)
    ensures rank.Some? ==> 1 <= rank.value <= |rows| && rows[rank.value - 1].chunkId == id
    ensures rank.Some? ==> forall j :: rank.value <= j < |rows| ==> rows[j].chunkId != id
    ensures rank.None? ==> forall i :: 0 <= i < |rows| ==> rows[i].chunkId != id
  {
    if rows == [] then None
    else if rows[|rows| - 1].chunkId == id then Some(|rows|)
    else RankIn(rows[..|rows| - 1], id)
  }

  lemma {:induction false} RankOfRow(rows: seq<Row>, i: nat)
    requires DistinctRows(rows) && i < |rows|
    ensures RankIn(rows, rows[i].chunkId) == Some(i + 1)
  {
    if i < |rows| - 1 {
      RankOfRow(rows[..|rows| - 1], i);
    }
  }

  // The same, when a list repeats a chunk: the earliest place rather than the latest.
  function FirstRankIn(rows: seq<Row>, id: ChunkId): (rank: Option<nat>)
    ensures rank.Some? ==> 1 <= rank.value <= |rows| && rows[rank.value - 1].chunkId == id
    ensures rank.Some? ==> forall j :: 0 <= j < rank.value - 1 ==> rows[j].chunkId != id
    ensures rank.Some? <==> RankIn(rows, id).Some?
  {
    if rows == [] then None
    else
      var before := FirstRankIn(rows[..|rows| - 1], id);
      if before.Some? then before
      else if rows[|rows| - 1].chunkId == id then Some(|rows|)
      else None
  }

  function RowAt(rows: seq<Row>, rank: Option<nat>): (row: Option<Row>)
    requires rank.Some? ==> 1 <= rank.value <= |rows|
  {
    if rank.Some? then Some(rows[rank.value - 1]) else None
  }

  function ScoreOf(row: Option<Row>): Option<real> {
    if row.Some? then Some(row.value.score) else None
  }

  // The candidate a chunk becomes: its rank and score in each list, and the row of the lexical
  // list where there is one, else the first row of the semantic list.
  function CandidateFor(lexical: seq<Row>, semantic: seq<Row>, id: ChunkId): (c: Candidate)
    requires RankIn(lexical, id).Some? || RankIn(semantic, id).Some?
    ensures c.row.chunkId == id
  {
    var l, s := RankIn(lexical, id), RankIn(semantic, id);
    Candidate(if l.Some? then lexical[l.value - 1] else semantic[FirstRankIn(semantic, id).value - 1], l, s,
              ScoreOf(RowAt(lexical, l)), ScoreOf(RowAt(semantic, s)))
  }

  ghost predicate DistinctIds(cs: seq<Candidate>) {
    forall i, j :: 0 <= i < j < |cs| ==> cs[i].row.chunkId != cs[j].row.chunkId
  }

  // Every chunk of either list exactly once, each with its ranks.
  ghost predicate Merges(lexical: seq<Row>, semantic: seq<Row>, cs: seq<Candidate>) {
    && DistinctIds(cs)
    && (forall i :: 0 <= i < |cs| ==> IsCandidate(lexical, semantic, cs[i]))
    && (forall id :: RankIn(lexical, id).Some? || RankIn(semantic, id).Some? ==> HasId(cs, id))
  }

  ghost predicate IsCandidate(lexical: seq<Row>, semantic: seq<Row>, c: Candidate) {
    && (RankIn(lexical, c.row.chunkId).Some? || RankIn(semantic, c.row.chunkId).Some?)
    && c == CandidateFor(lexical, semantic, c.row.chunkId)
  }

  ghost predicate HasId(cs: seq<Candidate>, id: ChunkId) {
    exists i :: 0 <= i < |cs| && cs[i].row.chunkId == id
  }

  // A Map of ECMAScript: setting a key that is there keeps its place.
  datatype Entries = Entries(order: seq<ChunkId>, values: map<ChunkId, Candidate>) {
    function Set(id: ChunkId, c: Candidate): Entries {
      Entries(if id in values then order else order + [id], values[id := c])
    }

    ghost predicate WellFormed() {
      && (forall i, j :: 0 <= i < j < |order| ==> order[i] != order[j])
      && (forall id :: id in order <==> id in values)
    }

    function Values(): seq<Candidate>
      requires WellFormed()
    {
      seq(|order|, i requires 0 <= i < |order| => values[order[i]])
    }
  }

  // The entry of a chunk is its candidate, and is there exactly when a row of it was read.
  ghost predicate Describes(entries: Entries, lexical: seq<Row>, semantic: seq<Row>, id: ChunkId) {
    && (id in entries.values <==> RankIn(lexical, id).Some? || RankIn(semantic, id).Some?)
    && (id in entries.values ==> entries.values[id] == CandidateFor(lexical, semantic, id))
  }

  ghost predicate DescribesAll(entries: Entries, lexical: seq<Row>, semantic: seq<Row>) {
    entries.WellFormed() && forall id :: Describes(entries, lexical, semantic, id)
  }

  // With distinct rows, the keys stand in the order of the rows.
  ghost predicate InOrder(entries: Entries, rows: seq<Row>) {
    DistinctRows(rows) ==> entries.order == Ids(rows)
  }

  lemma InOrderOneMore(entries: Entries, rows: seq<Row>, row: Row, c: Candidate)
    requires InOrder(entries, rows) && (DistinctRows(rows + [row]) ==> row.chunkId !in entries.values)
    ensures InOrder(entries.Set(row.chunkId, c), rows + [row])
  {
    if DistinctRows(rows + [row]) {
      forall i, j | 0 <= i < j < |rows| ensures rows[i].chunkId != rows[j].chunkId {
        assert (rows + [row])[i].chunkId != (rows + [row])[j].chunkId;
      }
      assert Ids(rows + [row]) == Ids(rows) + [row.chunkId];
    }
  }

  function LexicalCandidate(row: Row, rank: nat): Candidate {
    Candidate(row, Some(rank), None, Some(row.score), None)
  }

  // Keep what the lexical list said of the chunk, and add its semantic rank and score.
  function SemanticCandidate(entries: Entries, row: Row, rank: nat): Candidate {
    if row.chunkId in entries.values
    then entries.values[row.chunkId].(semanticRank := Some(rank), semanticScore := Some(row.score))
    else Candidate(row, None, Some(rank), None, Some(row.score))
  }

  method MergeRankings(lexical: seq<Row>, semantic: seq<Row>) returns (candidates: seq<Candidate>)
    ensures Merges(lexical, semantic, candidates)
    ensures semantic == [] && DistinctRows(lexical) ==> IdsOf(candidates) == Ids(lexical)
    ensures lexical == [] && DistinctRows(semantic) ==> IdsOf(candidates) == Ids(semantic)
  {
    var entries := EnterLexical(lexical);
    entries := EnterSemantic(entries, lexical, semantic);
    candidates := entries.Values();
    DescribedIsMerged(entries, lexical, semantic);
  }

  ghost predicate LexicalEntered(entries: Entries, lexical: seq<Row>) {
    DescribesAll(entries, lexical, []) && InOrder(entries, lexical)
  }

  method EnterLexical(lexical: seq<Row>) returns (entries: Entries)
    ensures LexicalEntered(entries, lexical)
  {
    entries := Entries([], map[]);
    NothingEntered();
    assert lexical[..0] == [];
    var index := 0;
    while index < |lexical|
      invariant index <= |lexical| && LexicalEntered(entries, lexical[..index])
    {
      var row := lexical[index];
      LexicalTurn(entries, lexical, index);
      entries := entries.Set(row.chunkId, LexicalCandidate(row, index + 1));
      index := index + 1;
    }
    assert lexical[..|lexical|] == lexical;
  }

  // The entries once the semantic rows read so far were entered after the lexical ones.
  ghost predicate SemanticEntered(start: Entries, entries: Entries, lexical: seq<Row>, semantic: seq<Row>) {
    && DescribesAll(entries, lexical, semantic)
    && (semantic == [] ==> entries == start)
    && (lexical == [] ==> InOrder(entries, semantic))
  }

  method EnterSemantic(start: Entries, lexical: seq<Row>, semantic: seq<Row>) returns (entries: Entries)
    requires LexicalEntered(start, lexical)
    ensures SemanticEntered(start, entries, lexical, semantic)
  {
    entries := start;
    var index := 0;
    while index < |semantic|
      invariant index <= |semantic| && SemanticEntered(start, entries, lexical, semantic[..index])
    {
      var row := semantic[index];
      SemanticTurn(start, entries, lexical, semantic, index);
      entries := entries.Set(row.chunkId, SemanticCandidate(entries, row, index + 1));
      index := index + 1;
    }
    assert semantic[..|semantic|] == semantic;
  }

  function IdsOf(cs: seq<Candidate>): seq<ChunkId> {
    seq(|cs|, i requires 0 <= i < |cs| => cs[i].row.chunkId)
  }

  lemma DescribedIsMerged(entries: Entries, lexical: seq<Row>, semantic: seq<Row>)
    requires DescribesAll(entries, lexical, semantic)
    ensures Merges(lexical, semantic, entries.Values())
    ensures IdsOf(entries.Values()) == entries.order
  {
    var cs := entries.Values();
    forall i | 0 <= i < |cs| ensures IsCandidate(lexical, semantic, cs[i]) && cs[i].row.chunkId == entries.order[i] {
      assert Describes(entries, lexical, semantic, entries.order[i]);
      assert entries.order[i] in entries.order;
    }
    forall id | RankIn(lexical, id).Some? || RankIn(semantic, id).Some? ensures HasId(cs, id) {
      assert Describes(entries, lexical, semantic, id);
      var i :| 0 <= i < |entries.order| && entries.order[i] == id;
      assert cs[i].row.chunkId == id;
    }
  }

  function Ids(rows: seq<Row>): seq<ChunkId> {
    seq(|rows|, i requires 0 <= i < |rows| => rows[i].chunkId)
  }

  lemma RankAfterAppend(rows: seq<Row>, row: Row, id: ChunkId)
    ensures RankIn(rows + [row], id) == if row.chunkId == id then Some(|rows| + 1) else RankIn(rows, id)
  {
    assert (rows + [row])[..|rows|] == rows;
  }

  lemma SetKeepsWellFormed(entries: Entries, id: ChunkId, c: Candidate)
    requires entries.WellFormed()
    ensures entries.Set(id, c).WellFormed()
  {
    var after := entries.Set(id, c);
    forall other ensures other in after.order <==> other in after.values {
      if id !in entries.values {
        assert after.order == entries.order + [id];
      }
    }
  }

  lemma DescribesLexical(entries: Entries, lexical: seq<Row>, row: Row, id: ChunkId)
    requires Describes(entries, lexical, [], id)
    ensures Describes(entries.Set(row.chunkId, LexicalCandidate(row, |lexical| + 1)), lexical + [row], [], id)
  {
    RankAfterAppend(lexical, row, id);
  }

  lemma FirstRankAfterAppend(rows: seq<Row>, row: Row, id: ChunkId)
    ensures var first := FirstRankIn(rows, id);
            FirstRankIn(rows + [row], id) ==
            if first.Some? then first else if row.chunkId == id then Some(|rows| + 1) else None
  {
    assert (rows + [row])[..|rows|] == rows;
  }

  lemma CandidateUnmoved(lexical: seq<Row>, semantic: seq<Row>, row: Row, id: ChunkId)
    requires row.chunkId != id && (RankIn(lexical, id).Some? || RankIn(semantic, id).Some?)
    ensures RankIn(semantic + [row], id) == RankIn(semantic, id)
    ensures CandidateFor(lexical, semantic + [row], id) == CandidateFor(lexical, semantic, id)
  {
    RankAfterAppend(semantic, row, id);
    FirstRankAfterAppend(semantic, row, id);
  }

  lemma CandidateEntered(entries: Entries, lexical: seq<Row>, semantic: seq<Row>, row: Row)
    requires Describes(entries, lexical, semantic, row.chunkId)
    ensures RankIn(semantic + [row], row.chunkId).Some?
    ensures CandidateFor(lexical, semantic + [row], row.chunkId) == SemanticCandidate(entries, row, |semantic| + 1)
  {
    RankAfterAppend(semantic, row, row.chunkId);
    FirstRankAfterAppend(semantic, row, row.chunkId);
  }

  lemma DescribesSemantic(entries: Entries, lexical: seq<Row>, semantic: seq<Row>, row: Row, id: ChunkId)
    requires Describes(entries, lexical, semantic, id)
    ensures Describes(entries.Set(row.chunkId, SemanticCandidate(entries, row, |semantic| + 1)),
                      lexical, semantic + [row], id)
  {
    if row.chunkId == id {
      CandidateEntered(entries, lexical, semantic, row);
    } else if RankIn(lexical, id).Some? || RankIn(semantic, id).Some? {
      CandidateUnmoved(lexical, semantic, row, id);
    } else {
      RankAfterAppend(semantic, row, id);
    }
  }

  lemma NothingEntered()
    ensures LexicalEntered(Entries([], map[]), [])
  {
  }

  lemma LexicalRow(entries: Entries, lexical: seq<Row>, row: Row)
    requires LexicalEntered(entries, lexical)
    ensures LexicalEntered(entries.Set(row.chunkId, LexicalCandidate(row, |lexical| + 1)), lexical + [row])
  {
    var c := LexicalCandidate(row, |lexical| + 1);
    var after := entries.Set(row.chunkId, c);
    SetKeepsWellFormed(entries, row.chunkId, c);
    forall id: ChunkId ensures Describes(after, lexical + [row], [], id) {
      DescribesLexical(entries, lexical, row, id);
    }
    NewIfDistinct(lexical, row);
    assert Describes(entries, lexical, [], row.chunkId);
    InOrderOneMore(entries, lexical, row, c);
  }

  lemma LexicalTurn(entries: Entries, lexical: seq<Row>, index: nat)
    requires index < |lexical| && LexicalEntered(entries, lexical[..index])
    ensures var row := lexical[index];
            LexicalEntered(entries.Set(row.chunkId, LexicalCandidate(row, index + 1)), lexical[..index + 1])
  {
    LexicalRow(entries, lexical[..index], lexical[index]);
    assert lexical[..index + 1] == lexical[..index] + [lexical[index]];
  }

  lemma SemanticRow(start: Entries, entries: Entries, lexical: seq<Row>, semantic: seq<Row>, row: Row)
    requires SemanticEntered(start, entries, lexical, semantic)
    ensures SemanticEntered(start, entries.Set(row.chunkId, SemanticCandidate(entries, row, |semantic| + 1)),
                            lexical, semantic + [row])
  {
    var c := SemanticCandidate(entries, row, |semantic| + 1);
    var after := entries.Set(row.chunkId, c);
    SetKeepsWellFormed(entries, row.chunkId, c);
    forall id: ChunkId ensures Describes(after, lexical, semantic + [row], id) {
      DescribesSemantic(entries, lexical, semantic, row, id);
    }
    if lexical == [] {
      NewIfDistinct(semantic, row);
      assert Describes(entries, lexical, semantic, row.chunkId);
      InOrderOneMore(entries, semantic, row, c);
    }
  }

  lemma SemanticTurn(start: Entries, entries: Entries, lexical: seq<Row>, semantic: seq<Row>, index: nat)
    requires index < |semantic| && SemanticEntered(start, entries, lexical, semantic[..index])
    ensures var row := semantic[index];
            SemanticEntered(start, entries.Set(row.chunkId, SemanticCandidate(entries, row, index + 1)),
                            lexical, semantic[..index + 1])
  {
    SemanticRow(start, entries, lexical, semantic[..index], semantic[index]);
    assert semantic[..index + 1] == semantic[..index] + [semantic[index]];
  }

  lemma NewIfDistinct(rows: seq<Row>, row: Row)
    ensures DistinctRows(rows + [row]) ==> RankIn(rows, row.chunkId).None?
  {
    var rank := RankIn(rows, row.chunkId);
    if rank.Some? {
      assert (rows + [row])[rank.value - 1].chunkId == (rows + [row])[|rows|].chunkId;
    }
  }

  // ---------- Scores ----------

  function Weight(rank: Option<nat>): real {
    if rank.None? then 0.0 else 1.0 / (60 + rank.value) as real
  }

  function ReciprocalRank(c: Candidate): real {
    Weight(c.lexicalRank) + Weight(c.semanticRank)
  }

  // The comparison of the sort: higher score first, then the identifier.
  predicate Ahead(a: Candidate, b: Candidate) {
    ReciprocalRank(a) > ReciprocalRank(b) || (ReciprocalRank(a) == ReciprocalRank(b) && a.row.chunkId < b.row.chunkId)
  }

  // In one list: a comes first, or only a is there, or neither is.
  predicate NotBehind(a: Option<nat>, b: Option<nat>) {
    b.None? || (a.Some? && a.value < b.value)
  }

  lemma WeightDecreases(a: Option<nat>, b: Option<nat>)
    requires NotBehind(a, b)
    ensures Weight(a) >= Weight(b)
    ensures a.Some? ==> Weight(a) > Weight(b)
  {
    if a.Some? && b.Some? {
      var x, y := (60 + a.value) as real, (60 + b.value) as real;
      assert 1.0 / x - 1.0 / y == (y - x) / (x * y);
      assert (y - x) / (x * y) > 0.0;
    }
  }

  // Ahead in both lists, or ahead in one while the other has neither, or in one while the
  // other chunk is absent there: the fused order agrees.
  lemma DominanceDecides(a: Candidate, b: Candidate)
    requires NotBehind(a.lexicalRank, b.lexicalRank) && NotBehind(a.semanticRank, b.semanticRank)
    requires a.lexicalRank.Some? || a.semanticRank.Some?
    ensures ReciprocalRank(a) > ReciprocalRank(b) && Ahead(a, b)
  {
    WeightDecreases(a.lexicalRank, b.lexicalRank);
    WeightDecreases(a.semanticRank, b.semanticRank);
  }

  lemma WeightBounds(rank: Option<nat>)
    ensures rank.Some? && rank.value >= 1 ==> Weight(rank) <= 1.0 / 61.0
    ensures rank.Some? && rank.value <= 61 ==> Weight(rank) >= 1.0 / 121.0
  {
    if rank.Some? {
      if rank.value > 1 {
        WeightDecreases(Some(1), rank);
      }
      if rank.value < 61 {
        WeightDecreases(rank, Some(61));
      }
    }
  }

  // Among the first 61 of both lists beats being found by one list alone, wherever.
  lemma AgreementBeatsOneList(a: Candidate, b: Candidate)
    requires a.lexicalRank.Some? && a.lexicalRank.value <= 61 && a.semanticRank.Some? && a.semanticRank.value <= 61
    requires b.lexicalRank.None? || b.semanticRank.None?
    requires b.lexicalRank.Some? ==> b.lexicalRank.value >= 1
    requires b.semanticRank.Some? ==> b.semanticRank.value >= 1
    ensures ReciprocalRank(a) > ReciprocalRank(b) && Ahead(a, b)
  {
    WeightBounds(a.lexicalRank);
    WeightBounds(a.semanticRank);
    WeightBounds(b.lexicalRank);
    WeightBounds(b.semanticRank);
  }

  // And 61 is the exact bound: at 62 in both lists the score only ties with a first place in one.
  lemma SixtyOneIsSharp(a: Candidate, b: Candidate)
    requires a.lexicalRank == Some(62) && a.semanticRank == Some(62)
    requires b.lexicalRank == Some(1) && b.semanticRank == None
    ensures ReciprocalRank(a) == ReciprocalRank(b)
    ensures Ahead(b, a) <==> b.row.chunkId < a.row.chunkId
  {
  }

  // ---------- Scores as Numbers ----------

  // The rank of a row that a query returned.
  predicate IsRank(rank: Option<nat>) {
    rank.Some? ==> 1 <= rank.value <= 100
  }

  // The two quotients and their sum, each rounded.
  ghost predicate ComputesScore(c: Candidate, score: real) {
    exists l, s :: Rounds(Weight(c.lexicalRank), l) && Rounds(Weight(c.semanticRank), s) && Rounds(l + s, score)
  }

  function Denominator(rank: Option<nat>): nat {
    if rank.None? then 1 else 60 + rank.value
  }

  function Numerator(rank: Option<nat>): nat {
    if rank.None? then 0 else 1
  }

  lemma WeightIsFraction(rank: Option<nat>)
    requires IsRank(rank)
    ensures IsFraction(Weight(rank), Numerator(rank), Denominator(rank)) && Denominator(rank) <= 160
    ensures 0.0 <= Weight(rank) <= 1.0
  {
  }

  lemma DenominatorsAreSmall(d: nat, e: nat)
    requires d <= 160 && e <= 160
    ensures (d * e) as real <= 25600.0
  {
    CastOfProduct(d, e);
    ProductIsBounded(d as real, e as real, 160.0);
  }

  lemma ScoreIsFraction(c: Candidate) returns (n: int, d: nat)
    requires IsRank(c.lexicalRank) && IsRank(c.semanticRank)
    ensures IsFraction(ReciprocalRank(c), n, d) && d as real <= 25600.0
  {
    var l, s := c.lexicalRank, c.semanticRank;
    WeightIsFraction(l);
    WeightIsFraction(s);
    DenominatorsAreSmall(Denominator(l), Denominator(s));
    SumOfFractions(Weight(l), Weight(s), Numerator(l), Numerator(s), Denominator(l), Denominator(s));
    n := Numerator(l) * Denominator(s) + Numerator(s) * Denominator(l);
    d := Denominator(l) * Denominator(s);
  }

  lemma ScoresAreApart(a: Candidate, b: Candidate)
    requires IsRank(a.lexicalRank) && IsRank(a.semanticRank) && IsRank(b.lexicalRank) && IsRank(b.semanticRank)
    requires ReciprocalRank(a) > ReciprocalRank(b)
    ensures ReciprocalRank(a) - ReciprocalRank(b) >= 0.000000001
  {
    var n, d := ScoreIsFraction(a);
    var m, e := ScoreIsFraction(b);
    GapOfFractions(ReciprocalRank(a), ReciprocalRank(b), n, m, d, e, 25600.0);
  }

  lemma ScoreIsNear(c: Candidate, score: real)
    requires IsRank(c.lexicalRank) && IsRank(c.semanticRank) && ComputesScore(c, score)
    ensures ReciprocalRank(c) - 0.0000000001 <= score <= ReciprocalRank(c) + 0.0000000001
  {
    WeightIsFraction(c.lexicalRank);
    WeightIsFraction(c.semanticRank);
  }

  // Rounding the quotients and their sum never turns two unequal scores round: for ranks up to the
  // hundred rows a query returns, unequal exact scores lie too far apart.
  lemma RoundingKeepsUnequalScores(a: Candidate, b: Candidate, x: real, y: real)
    requires IsRank(a.lexicalRank) && IsRank(a.semanticRank) && IsRank(b.lexicalRank) && IsRank(b.semanticRank)
    requires ComputesScore(a, x) && ComputesScore(b, y) && ReciprocalRank(a) > ReciprocalRank(b)
    ensures x > y
  {
    ScoresAreApart(a, b);
    ScoreIsNear(a, x);
    ScoreIsNear(b, y);
  }

  // ---------- Eight places ----------

  const HUNDRED_MILLION := 100000000.0

  // Number.prototype.toFixed(8): the nearest multiple, of two the one further from zero.
  function ToEightPlaces(x: real): real {
    if x < 0.0 then -Nearest(-x) else Nearest(x)
  }

  function Nearest(x: real): real {
    (x * HUNDRED_MILLION + 0.5).Floor as real / HUNDRED_MILLION
  }

  // The rounded number is within half a step, and rounding keeps the order of numbers.
  lemma NearestKeepsOrder(x: real, y: real)
    requires 0.0 <= x <= y
    ensures 0.0 <= Nearest(x) <= Nearest(y)
    ensures -0.000000005 < Nearest(x) - x <= 0.000000005
  {
    var n, m := (x * HUNDRED_MILLION + 0.5).Floor, (y * HUNDRED_MILLION + 0.5).Floor;
    assert 0 <= n <= m;
  }

  lemma NearestIsMultiple(x: real)
    ensures Nearest(x) * 100000000.0 == (x * 100000000.0 + 0.5).Floor as real
  {
  }

  // What is shown is a whole number of hundred millionths.
  lemma EightPlacesAreExact(x: real) returns (n: int)
    ensures ToEightPlaces(x) * 100000000.0 == n as real
  {
    NearestIsMultiple(x);
    NearestIsMultiple(-x);
    n := if x < 0.0 then -(-x * 100000000.0 + 0.5).Floor else (x * 100000000.0 + 0.5).Floor;
  }

  lemma EightPlacesKeepOrder(x: real, y: real)
    requires x <= y
    ensures ToEightPlaces(x) <= ToEightPlaces(y)
    ensures -0.000000005 <= ToEightPlaces(x) - x <= 0.000000005
  {
    if x >= 0.0 {
      NearestKeepsOrder(x, y);
    } else {
      NearestKeepsOrder(-x, -x);
      if y < 0.0 {
        NearestKeepsOrder(-y, -x);
      } else {
        NearestKeepsOrder(y, y);
      }
    }
  }

  // ---------- The results ----------

  function MatchedBy(c: Candidate): Mode {
    if c.lexicalRank.Some? && c.semanticRank.Some? then Hybrid
    else if c.lexicalRank.Some? then Lexical
    else Semantic
  }

  function CandidateResult(c: Candidate, mode: Mode): Option<SearchResult> {
    match MapCitation(c.row)
    case None => None
    case Some(citation) =>
      var score := match mode
        case Hybrid => ReciprocalRank(c)
        case Lexical => if c.lexicalScore.Some? then c.lexicalScore.value else 0.0
        case Semantic => if c.semanticScore.Some? then c.semanticScore.value else 0.0;
      Some(SearchResult(c.row.chunkId, c.row.content, MatchedBy(c), ToEightPlaces(score), citation))
  }

  // map, then filter
  function Present(cs: seq<Candidate>, mode: Mode): seq<SearchResult> {
    if cs == [] then []
    else
      var last := CandidateResult(cs[|cs| - 1], mode);
      Present(cs[..|cs| - 1], mode) + (if last.Some? then [last.value] else [])
  }

  function Cut(results: seq<SearchResult>, limit: nat): seq<SearchResult> {
    if |results| <= limit then results else results[..limit]
  }

  ghost predicate Known(lexical: seq<Row>, semantic: seq<Row>, id: ChunkId) {
    RankIn(lexical, id).Some? || RankIn(semantic, id).Some?
  }

  // Each result presents its candidate; results come in strict order, so none is repeated.
  ghost predicate Presented(lexical: seq<Row>, semantic: seq<Row>, mode: Mode, results: seq<SearchResult>) {
    && (forall i :: 0 <= i < |results| ==> ResultAt(lexical, semantic, mode, results[i]))
    && (forall i, j :: 0 <= i < j < |results| ==> Before(lexical, semantic, results[i].chunkId, results[j].chunkId))
  }

  ghost predicate ResultAt(lexical: seq<Row>, semantic: seq<Row>, mode: Mode, r: SearchResult) {
    Known(lexical, semantic, r.chunkId) && CandidateResult(CandidateFor(lexical, semantic, r.chunkId), mode) == Some(r)
  }

  ghost predicate Before(lexical: seq<Row>, semantic: seq<Row>, a: ChunkId, b: ChunkId) {
    && Known(lexical, semantic, a) && Known(lexical, semantic, b)
    && Ahead(CandidateFor(lexical, semantic, a), CandidateFor(lexical, semantic, b))
  }

  // A chunk with a valid citation that was left out lost its place to limit better ones.
  ghost predicate Complete(lexical: seq<Row>, semantic: seq<Row>, limit: nat, results: seq<SearchResult>) {
    forall id :: Known(lexical, semantic, id) && MapCitation(CandidateFor(lexical, semantic, id).row).Some? ==>
      IsPresent(results, id) || Outdone(lexical, semantic, limit, results, id)
  }

  // limit results, all of them before the chunk
  ghost predicate Outdone(lexical: seq<Row>, semantic: seq<Row>, limit: nat, results: seq<SearchResult>, id: ChunkId) {
    |results| == limit && forall i :: 0 <= i < limit ==> Before(lexical, semantic, results[i].chunkId, id)
  }

  ghost predicate IsPresent(results: seq<SearchResult>, id: ChunkId) {
    exists i :: 0 <= i < |results| && results[i].chunkId == id
  }

  // A list of candidates in their final order.
  ghost predicate Ranked(lexical: seq<Row>, semantic: seq<Row>, cs: seq<Candidate>) {
    && (forall i :: 0 <= i < |cs| ==> IsCandidate(lexical, semantic, cs[i]))
    && (forall i, j :: 0 <= i < j < |cs| ==> Ahead(cs[i], cs[j]))
  }

  // No chunk of the two lists is missing.
  ghost predicate AllThere(lexical: seq<Row>, semantic: seq<Row>, cs: seq<Candidate>) {
    forall id :: Known(lexical, semantic, id) ==> HasId(cs, id)
  }

  // A shown result is one of the candidates, and every candidate with a valid citation is shown.
  lemma {:induction false} PresentFinds(cs: seq<Candidate>, mode: Mode)
    ensures forall i :: 0 <= i < |Present(cs, mode)| ==> HasId(cs, Present(cs, mode)[i].chunkId)
    ensures forall i :: 0 <= i < |cs| && MapCitation(cs[i].row).Some? ==>
              IsPresent(Present(cs, mode), cs[i].row.chunkId)
  {
    if cs != [] {
      var n := |cs| - 1;
      PresentFinds(cs[..n], mode);
      var shown, all := Present(cs[..n], mode), Present(cs, mode);
      forall i | 0 <= i < |all| ensures HasId(cs, all[i].chunkId) {
        if i < |shown| {
          var k :| 0 <= k < n && cs[..n][k].row.chunkId == shown[i].chunkId;
          assert cs[k].row.chunkId == all[i].chunkId;
        } else {
          assert cs[n].row.chunkId == all[i].chunkId;
        }
      }
      forall i | 0 <= i < |cs| && MapCitation(cs[i].row).Some? ensures IsPresent(all, cs[i].row.chunkId) {
        if i < n {
          assert cs[..n][i] == cs[i];
          var k :| 0 <= k < |shown| && shown[k].chunkId == cs[i].row.chunkId;
          assert all[k] == shown[k];
        } else {
          assert all[|shown|].chunkId == cs[i].row.chunkId;
        }
      }
    }
  }

  lemma PresentedOneMore(lexical: seq<Row>, semantic: seq<Row>, mode: Mode, shown: seq<SearchResult>, r: SearchResult)
    requires Presented(lexical, semantic, mode, shown) && ResultAt(lexical, semantic, mode, r)
    requires forall i :: 0 <= i < |shown| ==> Before(lexical, semantic, shown[i].chunkId, r.chunkId)
    ensures Presented(lexical, semantic, mode, shown + [r])
  {
  }

  lemma AheadOfLast(lexical: seq<Row>, semantic: seq<Row>, cs: seq<Candidate>, id: ChunkId)
    requires Ranked(lexical, semantic, cs) && cs != [] && HasId(cs[..|cs| - 1], id)
    ensures Before(lexical, semantic, id, cs[|cs| - 1].row.chunkId)
  {
    var n := |cs| - 1;
    var k :| 0 <= k < n && cs[..n][k].row.chunkId == id;
    assert IsCandidate(lexical, semantic, cs[k]) && IsCandidate(lexical, semantic, cs[n]) && Ahead(cs[k], cs[n]);
  }

  lemma {:induction false} PresentKeepsOrder(lexical: seq<Row>, semantic: seq<Row>, cs: seq<Candidate>, mode: Mode)
    requires Ranked(lexical, semantic, cs)
    ensures Presented(lexical, semantic, mode, Present(cs, mode))
  {
    if cs != [] {
      var n := |cs| - 1;
      PresentKeepsOrder(lexical, semantic, cs[..n], mode);
      var last := CandidateResult(cs[n], mode);
      if last.Some? {
        PresentFinds(cs[..n], mode);
        var shown := Present(cs[..n], mode);
        forall i | 0 <= i < |shown| ensures Before(lexical, semantic, shown[i].chunkId, last.value.chunkId) {
          AheadOfLast(lexical, semantic, cs, shown[i].chunkId);
        }
        assert IsCandidate(lexical, semantic, cs[n]);
        PresentedOneMore(lexical, semantic, mode, shown, last.value);
      }
    }
  }

  lemma AheadCompares()
    ensures Comparison(Ahead)
  {
  }

  lemma SortedIsRanked(lexical: seq<Row>, semantic: seq<Row>, cs: seq<Candidate>)
    requires Merges(lexical, semantic, cs)
    ensures Ranked(lexical, semantic, Sort(Ahead, cs))
    ensures AllThere(lexical, semantic, Sort(Ahead, cs))
  {
    var sorted := Sort(Ahead, cs);
    AheadCompares();
    SortOrders(Ahead, cs);
    SortKeepsMembers(Ahead, cs);
    forall i | 0 <= i < |sorted| ensures IsCandidate(lexical, semantic, sorted[i]) {
      assert sorted[i] in cs;
    }
    SortKeepsDistinct(cs);
    forall id | Known(lexical, semantic, id) ensures HasId(sorted, id) {
      var i :| 0 <= i < |cs| && cs[i].row.chunkId == id;
      assert cs[i] in sorted;
    }
  }

  lemma SortKeepsDistinct(cs: seq<Candidate>)
    requires DistinctIds(cs)
    ensures DistinctIds(Sort(Ahead, cs))
  {
    var sorted := Sort(Ahead, cs);
    SortPermutes(Ahead, cs);
    forall i, j | 0 <= i < j < |sorted| ensures sorted[i].row.chunkId != sorted[j].row.chunkId {
      if sorted[i] == sorted[j] {
        TwiceInMultiset(sorted, i, j);
        OnceInMultiset(cs, sorted[i]);
      } else {
        assert sorted[i] in multiset(cs) && sorted[j] in multiset(cs);
        assert sorted[i] in cs && sorted[j] in cs;
      }
    }
  }

  lemma TwiceInMultiset(cs: seq<Candidate>, i: nat, j: nat)
    requires i < j < |cs| && cs[i] == cs[j]
    ensures multiset(cs)[cs[i]] >= 2
  {
    assert cs == cs[..i] + [cs[i]] + cs[i + 1..j] + [cs[j]] + cs[j + 1..];
  }

  lemma {:induction false} OnceInMultiset(cs: seq<Candidate>, c: Candidate)
    requires DistinctIds(cs)
    ensures multiset(cs)[c] <= 1
  {
    if cs != [] {
      var n := |cs| - 1;
      OnceInMultiset(cs[..n], c);
      assert cs == cs[..n] + [cs[n]];
      assert c == cs[n] ==> c !in cs[..n];
    }
  }

  // A citable chunk is among the results before the cut.
  lemma CitableIsPresent(lexical: seq<Row>, semantic: seq<Row>, cs: seq<Candidate>, mode: Mode, id: ChunkId)
    requires Ranked(lexical, semantic, cs) && HasId(cs, id)
    requires Known(lexical, semantic, id) && MapCitation(CandidateFor(lexical, semantic, id).row).Some?
    ensures IsPresent(Present(cs, mode), id)
  {
    var c :| 0 <= c < |cs| && cs[c].row.chunkId == id;
    assert IsCandidate(lexical, semantic, cs[c]);
    PresentFinds(cs, mode);
  }

  lemma PlaceOfChunk(lexical: seq<Row>, semantic: seq<Row>, mode: Mode, all: seq<SearchResult>, limit: nat, id: ChunkId)
    requires Presented(lexical, semantic, mode, all) && IsPresent(all, id)
    ensures IsPresent(Cut(all, limit), id) || Outdone(lexical, semantic, limit, Cut(all, limit), id)
  {
    var k :| 0 <= k < |all| && all[k].chunkId == id;
    PlaceOfResult(lexical, semantic, mode, all, limit, k);
  }

  lemma CutIsPresented(lexical: seq<Row>, semantic: seq<Row>, mode: Mode, all: seq<SearchResult>, limit: nat)
    requires Presented(lexical, semantic, mode, all)
    ensures Presented(lexical, semantic, mode, Cut(all, limit))
  {
  }

  lemma CutIsComplete(lexical: seq<Row>, semantic: seq<Row>, cs: seq<Candidate>, mode: Mode, limit: nat)
    requires Ranked(lexical, semantic, cs) && AllThere(lexical, semantic, cs)
    ensures Presented(lexical, semantic, mode, Cut(Present(cs, mode), limit))
    ensures Complete(lexical, semantic, limit, Cut(Present(cs, mode), limit))
  {
    var all := Present(cs, mode);
    PresentKeepsOrder(lexical, semantic, cs, mode);
    CutIsPresented(lexical, semantic, mode, all, limit);
    forall id | Known(lexical, semantic, id) && MapCitation(CandidateFor(lexical, semantic, id).row).Some?
      ensures IsPresent(Cut(all, limit), id) || Outdone(lexical, semantic, limit, Cut(all, limit), id)
    {
      CitableIsPresent(lexical, semantic, cs, mode, id);
      PlaceOfChunk(lexical, semantic, mode, all, limit, id);
    }
  }

  lemma SortedCutIsComplete(lexical: seq<Row>, semantic: seq<Row>, merged: seq<Candidate>, mode: Mode, limit: nat,
                            sorted: seq<Candidate>, results: seq<SearchResult>)
    requires Merges(lexical, semantic, merged)
    requires sorted == Sort(Ahead, merged) && results == Cut(Present(sorted, mode), limit)
    ensures Presented(lexical, semantic, mode, results) && Complete(lexical, semantic, limit, results)
  {
    SortedIsRanked(lexical, semantic, merged);
    CutIsComplete(lexical, semantic, sorted, mode, limit);
  }

  lemma PlaceOfResult(lexical: seq<Row>, semantic: seq<Row>, mode: Mode, all: seq<SearchResult>, limit: nat, k: nat)
    requires Presented(lexical, semantic, mode, all) && k < |all|
    ensures var results := Cut(all, limit);
            IsPresent(results, all[k].chunkId) || Outdone(lexical, semantic, limit, results, all[k].chunkId)
  {
    var results := Cut(all, limit);
    if k < limit {
      assert results[k] == all[k];
    }
  }

  // In a mode that consults one list, the results are that list in the order of the database,
  // without the rows that have no valid citation, cut at the limit.
  function Cited(rows: seq<Row>): seq<ChunkId> {
    if rows == [] then []
    else Cited(rows[..|rows| - 1]) + (if MapCitation(rows[|rows| - 1]).Some? then [rows[|rows| - 1].chunkId] else [])
  }

  function ResultIds(results: seq<SearchResult>): seq<ChunkId> {
    seq(|results|, i requires 0 <= i < |results| => results[i].chunkId)
  }

  ghost predicate SameRows(cs: seq<Candidate>, rows: seq<Row>) {
    |cs| == |rows| && forall i :: 0 <= i < |cs| ==> cs[i].row == rows[i]
  }

  lemma {:induction false} PresentFollowsRows(cs: seq<Candidate>, rows: seq<Row>, mode: Mode)
    requires SameRows(cs, rows)
    ensures ResultIds(Present(cs, mode)) == Cited(rows)
  {
    if cs != [] {
      var n := |cs| - 1;
      PresentFollowsRows(cs[..n], rows[..n], mode);
      assert cs[n].row == rows[n];
    }
  }

  // One of the two lists is empty.
  ghost predicate OneList(rows: seq<Row>, lexical: seq<Row>, semantic: seq<Row>) {
    (lexical == rows && semantic == []) || (lexical == [] && semantic == rows)
  }

  lemma CandidateOfRow(rows: seq<Row>, lexical: seq<Row>, semantic: seq<Row>, c: Candidate, i: nat)
    requires DistinctRows(rows) && OneList(rows, lexical, semantic) && i < |rows|
    requires IsCandidate(lexical, semantic, c) && c.row.chunkId == rows[i].chunkId
    ensures c.row == rows[i] && ReciprocalRank(c) == Weight(Some(i + 1))
  {
    RankOfRow(rows, i);
    FirstRankOfRow(rows, i);
  }

  lemma OneListIsSorted(rows: seq<Row>, lexical: seq<Row>, semantic: seq<Row>, cs: seq<Candidate>)
    requires DistinctRows(rows) && OneList(rows, lexical, semantic)
    requires Merges(lexical, semantic, cs) && IdsOf(cs) == Ids(rows)
    ensures Sort(Ahead, cs) == cs && SameRows(cs, rows)
  {
    assert |cs| == |IdsOf(cs)| == |Ids(rows)| == |rows|;
    forall i | 0 <= i < |cs|
      ensures cs[i].row == rows[i] && ReciprocalRank(cs[i]) == Weight(Some(i + 1))
    {
      assert IdsOf(cs)[i] == Ids(rows)[i];
      CandidateOfRow(rows, lexical, semantic, cs[i], i);
    }
    ScoresFall(cs);
    SortKeepsOrdered(Ahead, cs);
  }

  lemma ScoresFall(cs: seq<Candidate>)
    requires forall i :: 0 <= i < |cs| ==> ReciprocalRank(cs[i]) == Weight(Some(i + 1))
    ensures Ordered(Ahead, cs)
  {
    forall i, j | 0 <= i < j < |cs| ensures !Ahead(cs[j], cs[i]) {
      WeightDecreases(Some(i + 1), Some(j + 1));
    }
  }

  lemma OneListResults(rows: seq<Row>, lexical: seq<Row>, semantic: seq<Row>, cs: seq<Candidate>, mode: Mode,
                       limit: nat)
    requires DistinctRows(rows) && OneList(rows, lexical, semantic)
    requires Merges(lexical, semantic, cs) && IdsOf(cs) == Ids(rows)
    ensures ResultIds(Cut(Present(Sort(Ahead, cs), mode), limit)) == CutIds(Cited(rows), limit)
  {
    OneListIsSorted(rows, lexical, semantic, cs);
    PresentFollowsRows(cs, rows, mode);
    CutFollowsIds(Present(cs, mode), limit);
  }

  lemma CutFollowsIds(results: seq<SearchResult>, limit: nat)
    ensures ResultIds(Cut(results, limit)) == CutIds(ResultIds(results), limit)
  {
    if |results| > limit {
      assert ResultIds(results[..limit]) == ResultIds(results)[..limit];
    }
  }

  lemma {:induction false} FirstRankOfRow(rows: seq<Row>, i: nat)
    requires DistinctRows(rows) && i < |rows|
    ensures FirstRankIn(rows, rows[i].chunkId) == Some(i + 1)
  {
    if i < |rows| - 1 {
      FirstRankOfRow(rows[..|rows| - 1], i);
    } else {
      assert rows == rows[..i] + [rows[i]];
      NewIfDistinct(rows[..i], rows[i]);
    }
  }

  // How many rows each query is asked for.
  function CandidateLimit(limit: nat): nat {
    if limit * 4 < 100 then limit * 4 else 100
  }

  // What a query answers: its rows in the order of the database, cut at the number asked for.
  function Taken(rows: seq<Row>, take: nat): seq<Row> {
    if |rows| <= take then rows else rows[..take]
  }

  function LexicalAnswer(rows: seq<Row>, mode: Mode, limit: nat): (answer: seq<Row>)
    ensures mode == Semantic ==> answer == []
    ensures mode != Semantic ==>
              && answer <= rows && |answer| <= 4 * limit && |answer| <= 100
              && (|answer| == |rows| || |answer| == 4 * limit || |answer| == 100)
  {
    if mode == Semantic then [] else Taken(rows, CandidateLimit(limit))
  }

  function SemanticAnswer(rows: seq<Row>, mode: Mode, limit: nat): (answer: seq<Row>)
    ensures mode == Lexical ==> answer == []
    ensures mode != Lexical ==>
              && answer <= rows && |answer| <= 4 * limit && |answer| <= 100
              && (|answer| == |rows| || |answer| == 4 * limit || |answer| == 100)
  {
    if mode == Lexical then [] else Taken(rows, CandidateLimit(limit))
  }

  // ---------- What a result says of its row ----------

  // A result quotes and cites a row, which its metadata places on a page of its own extraction.
  ghost predicate Quotes(r: SearchResult, row: Row) {
    && r.chunkId == row.chunkId && r.excerpt == row.content
    && r.citation.caseId == row.caseId && r.citation.documentId == row.documentId
    && r.citation.extractionId == row.sourceId && r.citation.contentHash == row.contentHash
    && row.metadata.Some? && row.metadata.value.sourceExtractionId == row.sourceId
    && row.metadata.value.locator == Some(r.citation.locator)
    && 1 <= r.citation.locator.pageNumber && 0 <= r.citation.locator.startOffset < r.citation.locator.endOffset
  }

  // It quotes the row of the lexical list, or of the semantic one where there is none.
  ghost predicate QuotesItsRow(lexical: seq<Row>, semantic: seq<Row>, r: SearchResult) {
    if Holds(lexical, r.chunkId) then exists k: nat :: IsLastRow(lexical, r.chunkId, k) && Quotes(r, lexical[k])
    else exists k: nat :: IsFirstRow(semantic, r.chunkId, k) && Quotes(r, semantic[k])
  }

  ghost predicate NamesItsLists(lexical: seq<Row>, semantic: seq<Row>, r: SearchResult) {
    && (r.matchedBy == Hybrid <==> Holds(lexical, r.chunkId) && Holds(semantic, r.chunkId))
    && (r.matchedBy == Lexical <==> Holds(lexical, r.chunkId) && !Holds(semantic, r.chunkId))
    && (r.matchedBy == Semantic <==> !Holds(lexical, r.chunkId) && Holds(semantic, r.chunkId))
  }

  // In a mode of one list the score is the row's own; in the hybrid mode it is fused from the places,
  // which are counted from 0 here.
  ghost predicate ScoresItsRow(rows: seq<Row>, r: SearchResult) {
    exists k: nat :: IsLastRow(rows, r.chunkId, k) && r.score == ToEightPlaces(rows[k].score)
  }

  ghost predicate FusesItsPlaces(lexical: seq<Row>, semantic: seq<Row>, r: SearchResult) {
    && (forall k: nat, l: nat :: IsLastRow(lexical, r.chunkId, k) && IsLastRow(semantic, r.chunkId, l) ==>
          r.score == ToEightPlaces(1.0 / (61 + k) as real + 1.0 / (61 + l) as real))
    && (forall k: nat :: IsLastRow(lexical, r.chunkId, k) && !Holds(semantic, r.chunkId) ==>
          r.score == ToEightPlaces(1.0 / (61 + k) as real))
    && (forall l: nat :: !Holds(lexical, r.chunkId) && IsLastRow(semantic, r.chunkId, l) ==>
          r.score == ToEightPlaces(1.0 / (61 + l) as real))
  }

  ghost predicate TellsTheRows(lexical: seq<Row>, semantic: seq<Row>, mode: Mode, r: SearchResult) {
    && QuotesItsRow(lexical, semantic, r)
    && NamesItsLists(lexical, semantic, r)
    && (mode == Lexical ==> ScoresItsRow(lexical, r))
    && (mode == Semantic ==> ScoresItsRow(semantic, r))
    && (mode == Hybrid ==> FusesItsPlaces(lexical, semantic, r))
  }

  lemma RankIsLastRow(rows: seq<Row>, id: ChunkId)
    ensures RankIn(rows, id).Some? <==> Holds(rows, id)
    ensures RankIn(rows, id).Some? ==> IsLastRow(rows, id, RankIn(rows, id).value - 1)
    ensures forall k: nat :: IsLastRow(rows, id, k) ==> RankIn(rows, id) == Some(k + 1)
  {
  }

  lemma FirstRankIsFirstRow(rows: seq<Row>, id: ChunkId)
    requires Holds(rows, id)
    ensures FirstRankIn(rows, id).Some? && IsFirstRow(rows, id, FirstRankIn(rows, id).value - 1)
  {
    RankIsLastRow(rows, id);
  }

  lemma ResultQuotes(c: Candidate, mode: Mode, r: SearchResult)
    requires CandidateResult(c, mode) == Some(r)
    ensures Quotes(r, c.row)
  {
  }

  lemma ResultQuotesItsRow(lexical: seq<Row>, semantic: seq<Row>, mode: Mode, r: SearchResult)
    requires ResultAt(lexical, semantic, mode, r)
    ensures QuotesItsRow(lexical, semantic, r)
  {
    ResultQuotes(CandidateFor(lexical, semantic, r.chunkId), mode, r);
    RankIsLastRow(lexical, r.chunkId);
    if !Holds(lexical, r.chunkId) {
      RankIsLastRow(semantic, r.chunkId);
      FirstRankIsFirstRow(semantic, r.chunkId);
    }
  }

  lemma ResultNamesItsLists(lexical: seq<Row>, semantic: seq<Row>, mode: Mode, r: SearchResult)
    requires ResultAt(lexical, semantic, mode, r)
    ensures NamesItsLists(lexical, semantic, r)
  {
    RankIsLastRow(lexical, r.chunkId);
    RankIsLastRow(semantic, r.chunkId);
  }

  lemma ResultScoresItsRow(lexical: seq<Row>, semantic: seq<Row>, mode: Mode, r: SearchResult)
    requires ResultAt(lexical, semantic, mode, r)
    ensures mode == Lexical && semantic == [] ==> ScoresItsRow(lexical, r)
    ensures mode == Semantic && lexical == [] ==> ScoresItsRow(semantic, r)
  {
    RankIsLastRow(lexical, r.chunkId);
    RankIsLastRow(semantic, r.chunkId);
  }

  lemma ScoreOfCandidate(c: Candidate, r: SearchResult)
    requires CandidateResult(c, Hybrid) == Some(r)
    ensures r.score == ToEightPlaces(Weight(c.lexicalRank) + Weight(c.semanticRank))
  {
  }

  lemma ScoreOfRanks(lexical: seq<Row>, semantic: seq<Row>, r: SearchResult, l: Option<nat>, s: Option<nat>)
    requires ResultAt(lexical, semantic, Hybrid, r)
    requires l == RankIn(lexical, r.chunkId) && s == RankIn(semantic, r.chunkId)
    ensures r.score == ToEightPlaces(Weight(l) + Weight(s))
  {
    ScoreOfCandidate(CandidateFor(lexical, semantic, r.chunkId), r);
  }

  lemma ResultFusesItsPlaces(lexical: seq<Row>, semantic: seq<Row>, r: SearchResult)
    requires ResultAt(lexical, semantic, Hybrid, r)
    ensures FusesItsPlaces(lexical, semantic, r)
  {
    RankIsLastRow(lexical, r.chunkId);
    RankIsLastRow(semantic, r.chunkId);
    var l, s := RankIn(lexical, r.chunkId), RankIn(semantic, r.chunkId);
    ScoreOfRanks(lexical, semantic, r, l, s);
  }

  // Every result quotes its row, names the lists that hold it, and carries the score of its mode.
  lemma ResultTellsTheRows(lexical: seq<Row>, semantic: seq<Row>, mode: Mode, r: SearchResult)
    requires ResultAt(lexical, semantic, mode, r)
    requires (mode == Lexical ==> semantic == []) && (mode == Semantic ==> lexical == [])
    ensures TellsTheRows(lexical, semantic, mode, r)
  {
    ResultQuotesItsRow(lexical, semantic, mode, r);
    ResultNamesItsLists(lexical, semantic, mode, r);
    ResultScoresItsRow(lexical, semantic, mode, r);
    if mode == Hybrid {
      ResultFusesItsPlaces(lexical, semantic, r);
    }
  }

  lemma ResultsTellTheRows(lexical: seq<Row>, semantic: seq<Row>, mode: Mode, results: seq<SearchResult>)
    requires Presented(lexical, semantic, mode, results)
    requires (mode == Lexical ==> semantic == []) && (mode == Semantic ==> lexical == [])
    ensures forall i :: 0 <= i < |results| ==> TellsTheRows(lexical, semantic, mode, results[i])
  {
    forall i | 0 <= i < |results| ensures TellsTheRows(lexical, semantic, mode, results[i]) {
      ResultTellsTheRows(lexical, semantic, mode, results[i]);
    }
  }

  lemma OneListSearch(all: seq<Row>, rows: seq<Row>, lexical: seq<Row>, semantic: seq<Row>, merged: seq<Candidate>,
                      mode: Mode, limit: nat, sorted: seq<Candidate>, results: seq<SearchResult>)
    requires rows == Taken(all, CandidateLimit(limit)) && OneList(rows, lexical, semantic)
    requires Merges(lexical, semantic, merged) && (DistinctRows(rows) ==> IdsOf(merged) == Ids(rows))
    requires sorted == Sort(Ahead, merged) && results == Cut(Present(sorted, mode), limit)
    ensures DistinctRows(all) ==> ResultIds(results) == CutIds(Cited(rows), limit)
  {
    if DistinctRows(all) {
      assert DistinctRows(rows);
      OneListResults(rows, lexical, semantic, merged, mode, limit);
    }
  }

  method Search(lexicalRows: seq<Row>, semanticRows: seq<Row>, mode: Mode, limit: nat)
    returns (results: seq<SearchResult>)
    ensures var lexical, semantic := LexicalAnswer(lexicalRows, mode, limit), SemanticAnswer(semanticRows, mode, limit);
            && |results| <= limit
            && Presented(lexical, semantic, mode, results)
            && Complete(lexical, semantic, limit, results)
            && forall i :: 0 <= i < |results| ==> TellsTheRows(lexical, semantic, mode, results[i])
    ensures mode == Lexical && DistinctRows(lexicalRows) ==>
              ResultIds(results) == CutIds(Cited(Taken(lexicalRows, CandidateLimit(limit))), limit)
    ensures mode == Semantic && DistinctRows(semanticRows) ==>
              ResultIds(results) == CutIds(Cited(Taken(semanticRows, CandidateLimit(limit))), limit)
  {
    var lexical, semantic := LexicalAnswer(lexicalRows, mode, limit), SemanticAnswer(semanticRows, mode, limit);
    var merged := MergeRankings(lexical, semantic);
    var sorted := Sort(Ahead, merged);
    results := Cut(Present(sorted, mode), limit);
    SortedCutIsComplete(lexical, semantic, merged, mode, limit, sorted, results);
    ResultsTellTheRows(lexical, semantic, mode, results);
    if mode == Lexical {
      OneListSearch(lexicalRows, lexical, lexical, [], merged, mode, limit, sorted, results);
    } else if mode == Semantic {
      OneListSearch(semanticRows, semantic, [], semantic, merged, mode, limit, sorted, results);
    }
  }

  function CutIds(ids: seq<ChunkId>, limit: nat): seq<ChunkId> {
    if |ids| <= limit then ids else ids[..limit]
  }

  // A citable chunk ahead of one that was shown is shown before it.
  lemma ShownBefore(lexical: seq<Row>, semantic: seq<Row>, mode: Mode, limit: nat, results: seq<SearchResult>,
                    a: ChunkId, j: nat)
    requires Presented(lexical, semantic, mode, results) && Complete(lexical, semantic, limit, results)
    requires j < |results| <= limit && Before(lexical, semantic, a, results[j].chunkId)
    requires MapCitation(CandidateFor(lexical, semantic, a).row).Some?
    ensures exists i :: 0 <= i < j && results[i].chunkId == a
  {
    var b := results[j].chunkId;
    assert !Before(lexical, semantic, b, a);
    assert IsPresent(results, a);
    var i :| 0 <= i < |results| && results[i].chunkId == a;
    assert forall k :: j < k < |results| ==> Before(lexical, semantic, b, results[k].chunkId);
  }

  // In the results of a search, a dominating chunk stands before the one it dominates, and a
  // chunk that made the cut is not dominated by a citable one that did not.
  lemma DominanceInResults(lexical: seq<Row>, semantic: seq<Row>, mode: Mode, limit: nat, results: seq<SearchResult>,
                           a: ChunkId, j: nat)
    requires Presented(lexical, semantic, mode, results) && Complete(lexical, semantic, limit, results)
    requires j < |results| <= limit && Known(lexical, semantic, a)
    requires MapCitation(CandidateFor(lexical, semantic, a).row).Some?
    requires var ca, cb := CandidateFor(lexical, semantic, a), CandidateFor(lexical, semantic, results[j].chunkId);
             NotBehind(ca.lexicalRank, cb.lexicalRank) && NotBehind(ca.semanticRank, cb.semanticRank)
    ensures exists i :: 0 <= i < j && results[i].chunkId == a
  {
    var b := results[j].chunkId;
    assert ResultAt(lexical, semantic, mode, results[j]);
    DominanceDecides(CandidateFor(lexical, semantic, a), CandidateFor(lexical, semantic, b));
    ShownBefore(lexical, semantic, mode, limit, results, a, j);
  }

  predicate AmongFirst61(rank: Option<nat>) {
    rank.Some? && rank.value <= 61
  }

  // A citable chunk among the first 61 of both lists stands before every result found by one list.
  lemma AgreementInResults(lexical: seq<Row>, semantic: seq<Row>, mode: Mode, limit: nat, results: seq<SearchResult>,
                           a: ChunkId, j: nat)
    requires Presented(lexical, semantic, mode, results) && Complete(lexical, semantic, limit, results)
    requires j < |results| <= limit && results[j].matchedBy != Hybrid
    requires AmongFirst61(RankIn(lexical, a)) && AmongFirst61(RankIn(semantic, a))
    requires MapCitation(CandidateFor(lexical, semantic, a).row).Some?
    ensures exists i :: 0 <= i < j && results[i].chunkId == a
  {
    assert ResultAt(lexical, semantic, mode, results[j]);
    AgreementBeatsOneList(CandidateFor(lexical, semantic, a), CandidateFor(lexical, semantic, results[j].chunkId));
    ShownBefore(lexical, semantic, mode, limit, results, a, j);
  }

  // Down the results of a hybrid search the scores shown never rise, though they are rounded.
  lemma ShownScoresNeverRise(lexical: seq<Row>, semantic: seq<Row>, results: seq<SearchResult>, i: nat, j: nat)
    requires Presented(lexical, semantic, Hybrid, results) && i < j < |results|
    ensures results[i].score >= results[j].score
  {
    assert ResultAt(lexical, semantic, Hybrid, results[i]) && ResultAt(lexical, semantic, Hybrid, results[j]);
    assert Before(lexical, semantic, results[i].chunkId, results[j].chunkId);
    EightPlacesKeepOrder(ReciprocalRank(CandidateFor(lexical, semantic, results[j].chunkId)),
                         ReciprocalRank(CandidateFor(lexical, semantic, results[i].chunkId)));
  }

  // No chunk appears twice.
  lemma ResultsAreDistinct(lexical: seq<Row>, semantic: seq<Row>, mode: Mode, results: seq<SearchResult>,
                           i: nat, j: nat)
    requires Presented(lexical, semantic, mode, results) && i < j < |results|
    ensures results[i].chunkId != results[j].chunkId
  {
    assert Before(lexical, semantic, results[i].chunkId, results[j].chunkId);
  }
}
