# LexOS: verified models of the core protocols and algorithms

LexOS keeps court cases for law offices. This project models the parts of it on which the rest
depends for correctness, and proves what they promise for every input and every run. Each module
follows one source file or one protocol.

- `Knowledge` normalises a document and keeps a map back to its source text; `Chunker` cuts the result
  into overlapping chunks whose offsets cite the source.
- `RefreshSessions` holds the transactions on refresh sessions, and `RefreshProtocol` the protocol they
  make: logins, refreshes in two steps (a read, and later one atomic commit), logouts, blocks and
  password resets, interleaved in any order.
- `VirusScanner` and `FileInspector` are streaming classes over uploads (`Streams` holds the byte
  sequences they share); both are compared with whole-file definitions, the second with the
  well-formed byte sequences of UTF-8.
- `HighlightRanges` finds the query words of an excerpt and `Highlight` marks them; `RankFusion` merges
  two ranked lists.
- `Base32`, `Cnj`, `CpfCnpj` and `CalendarDate` are codecs and check digits (`Decimal` holds the
  decimal text they share, `Words` the 32-bit words of the first, `Modulo97` and `Modulo11` the
  arithmetic of the check digits). `Numbers` says what rounding to a Number of ECMAScript can do.
- `Timeline` reads a case's events page by page while the data changes.
- `CostAmounts` and `CaseBudget` are the cost ceiling of a case.
- `CaseExport` is the export job, claimed by concurrent workers.
- `LegalHold` is what a retained case keeps.

Where the source updates state step by step the model is a class, or a method with loops, proved
against a specification function or predicate; the theorems are lemmas about that specification.
A committed transaction is one atomic step and a conditional update is a compare-and-set. Texts are
sequences of UTF-16 code units.

## What the proofs found

- **Timeline.** The column keeps microseconds, the cursor milliseconds. A cursor selects exactly the
  rows after its own if and only if the row's date has no fraction of a millisecond
  (`Timeline.CursorMeansAfter`). Otherwise it skips nothing, so that a walk which ended is complete
  whatever the dates (`Timeline.WalkIsComplete`), but it can select rows again. However the data
  changes, a walk is in strict order exactly when no table it reads holds such a row
  (`Timeline.WalkIsAscendingExactly`); which rows those are, `Timeline.AgainExactly` says. Over fixed
  data every walk is the whole list exactly when no row but the last has such a date
  (`Timeline.WalksAreExactExactly`); with one row a page it can stand still (`Timeline.WalkCanStandStill`).
- **Calendar dates.** `Date.UTC` reads the years 0 to 99 as 1900 to 1999. In the form AAAA-MM-DD these
  years are refused; in the full ISO form they are accepted and stored in the wrong century
  (`CalendarDate.IsoTimeIsCutToItsDay`): noon of 1 March 50 becomes 1 March 1950
  (`CalendarDate.YearFiftyBecomes1950`).
- **CPF and CNPJ.** Residues 0 and 1 share the check digit 0, so a few single-digit errors pass.
  `CpfCnpj.CpfSurvivesExactly` and `CpfCnpj.CnpjSurvivesExactly` say exactly which, and
  `CpfCnpj.CpfExceptionsOccur` and `CpfCnpj.CnpjExceptionsOccur` give numbers.
- **Cost ceiling.** Room is checked before a question and the cost charged after it. A limit lowered in
  between turns every positive charge into a refused one (`CaseBudget.EditBetweenCheckAndCharge`), and
  of two questions checked together the second is recorded exactly if both fit
  (`CaseBudget.TwoQuestionsAtOnce`). A free answer on a case whose limit is zero closes the case for
  the next question (`CaseBudget.FreeAnswerClosesFullCase`). That the room is computed in floating point
  is harmless: it covers the worst cost, by two millionths too much at most (`CostAmounts.RoomIsTight`).
- **Export.** A job in processing loses its worker exactly by the worker's crash, or by a failure that
  could not be recorded (`CaseExport.StrandedExactly`). Both happen (`CaseExport.RowsAreStranded`), and
  then nothing moves the job but a cancellation (`CaseExport.AbandonedMovesExactly`).
- **Chunks.** The starts of chunks strictly increase for every valid configuration. Their ends do so, for
  every text, exactly when the overlap is at most half the maximum plus one
  (`Chunker.EndsRiseExactly`); `Chunker.LargeOverlapStalls` gives the text that fails for every larger
  overlap.

## Model

| member | source | states |
|---|---|---|
| Knowledge.NormalizedIsTidyAndStable | packages/shared/src/knowledge.ts:60-104 | normalised text has no NUL or white space but single spaces inside it, and normalising it again changes nothing |
| Knowledge.BlanksAreExact | packages/shared/src/knowledge.ts:58-71 | the characters that become a space are NUL and the 25 code units of white space, CR and LF among them |
| Knowledge.NormalizeWithSourceMap | packages/shared/src/knowledge.ts:60-104 | the loop's content is the normalised source, and its map tiles the source: contiguous tiles, each one character or one whole blank run, so none splits a CR LF |
| Knowledge.SliceCollapsesToContent | packages/shared/src/knowledge.ts:60-104 | the source between the start of one tile and the end of another collapses to exactly the content between them |
| Chunker.SliceNormalizes | packages/shared/src/knowledge.ts:164-190 | normalising the source slice a chunk cites gives the chunk's content without a leading space |
| Chunker.SafeBoundary | packages/shared/src/knowledge.ts:106-124 | a boundary is the end of the text if that is within the limit; else the last space up to the limit, if that leaves more than half; else the limit, or one unit less inside a surrogate pair |
| Chunker.NextChunkStart | packages/shared/src/knowledge.ts:126-142 | after a chunk that ends inside the text the next begins one past the first space at or after the larger of start + 1 and end - overlap, if there is one before the end, and otherwise at the end |
| Chunker.SpansAreGood | packages/shared/src/knowledge.ts:172-190 | the cut has no gap, no span above the maximum, overlaps below the configured one, strictly increasing starts with a guaranteed advance, no boundary inside a surrogate pair, and each end and start where the two rules on spaces put it |
| Chunker.GoodCutIsUnique | packages/shared/src/knowledge.ts:172-190 | these promises on the text and the spans leave one cut only |
| Chunker.ChunksRebuildText | packages/shared/src/knowledge.ts:169-190 | dropping from each chunk what it shares with the one before rebuilds the normalised text exactly |
| Chunker.CutOne | packages/shared/src/knowledge.ts:172-189 | one turn of the loop makes the chunk of the span at start, moves on, and never reaches the "lost its source locator" error |
| Chunker.CutChunks | packages/shared/src/knowledge.ts:169-192 | one chunk for each span of the cut, in order, each citing its span; the cut is a good one |
| Chunker.ChunkKnowledgeText | packages/shared/src/knowledge.ts:144-193 | configurations are refused exactly when out of range or not integers; otherwise every chunk's content, hash, index, page and offsets are right: the cited piece, the source up to its end and the source from its start all normalise to the matching content |
| Chunker.DefaultChunksAdvance | packages/shared/src/knowledge.ts:148-149 | with 800 and 120, consecutive starts are at least 282 apart and overlap by fewer than 120 |
| Chunker.EndsRiseExactly | packages/shared/src/knowledge.ts:106-142 | in a valid configuration every cut of every tidy text has strictly increasing ends if and only if the overlap is at most half the maximum plus one |
| Chunker.LargeOverlapStalls | packages/shared/src/knowledge.ts:106-142 | with any larger overlap the second chunk of a text with two spaces ends where the first does |
| RefreshSessions.AuthDatabase.MarkSuccessfulLogin | apps/api/src/auth/auth.repository.ts:97-114 | stamps the login exactly for an active user of an active organisation, and changes no other row |
| RefreshSessions.AuthDatabase.MarkRefreshSessionRotated | apps/api/src/auth/auth.repository.ts:137-152 | compare-and-set: spends a session exactly if it is neither rotated, revoked nor expired |
| RefreshSessions.AuthDatabase.RevokeTokenFamily | apps/api/src/auth/auth.repository.ts:154-164 | stamps every session of the family not yet revoked, and nothing else |
| RefreshSessions.AuthDatabase.Login | apps/api/src/auth/auth.service.ts:150-179 | a login creates one fresh session exactly when its user and organisation are active at that moment |
| RefreshSessions.AuthDatabase.FindRefreshSession | apps/api/src/auth/auth.service.ts:202-226 | finds the session of a token exactly when there is one, and says whether its user and organisation are active and not deleted |
| RefreshSessions.AuthDatabase.CommitRefresh | apps/api/src/auth/auth.service.ts:219-313 | a commit rotates and creates the successor exactly when what it read was usable and the session is still live; every other outcome stamps the unrevoked sessions of the family with the right reason and touches no other row |
| RefreshSessions.AuthDatabase.LogoutSession | apps/api/src/auth/auth.service.ts:326-358 | revokes the family of the actor's own session |
| RefreshSessions.AuthDatabase.ChangeUserStatus | apps/api/src/users/users.service.ts:177-210 | blocks an active or invited user and stamps all his unrevoked sessions in one step, or reactivates a blocked one; no other row moves |
| RefreshSessions.AuthDatabase.ResetUserPassword | apps/api/src/auth/password-reset.service.ts:110-146 | a request is consumed at most once; then the password of its active user is the new one, his unrevoked sessions are stamped, and no other row moves |
| RefreshSessions.AuthDatabase.FindOpenReset | apps/api/src/auth/password-reset.repository.ts:56-67 | finds a request by its token hash exactly when one is unused, unexpired and of an active user and organisation |
| RefreshSessions.AuthDatabase.Reset | apps/api/src/auth/password-reset.service.ts:101-151 | a reset takes effect exactly when its token stands for an open request; then the owner of that request has the new password and no session left, and otherwise nothing changes |
| RefreshSessions.AuthDatabase.CanActivate | apps/api/src/auth/access-token.guard.ts:89-105 | the guard allows exactly a token of its own, unrevoked, unexpired session with an active user and organisation |
| RefreshProtocol.StepKeepsInv | apps/api/src/auth/auth.service.ts:202-313 | every step keeps one live session and one owner per family and one session per token, and what pending refreshes read stays true of their sessions |
| RefreshProtocol.OneLiveSessionPerFamily | apps/api/src/auth/auth.service.ts:202-313 | at every moment of every interleaving a family has at most one session neither rotated nor revoked |
| RefreshProtocol.RevocationIsPermanent | apps/api/src/auth/auth.service.ts:227-279 | once a failed refresh, logout, block or reset revoked a family, no later step creates a session in it and the guard refuses all its access tokens for ever |
| RefreshProtocol.RacingRefreshes | apps/api/src/auth/auth.service.ts:259-279 | of two refreshes that read the same token the later commit never succeeds, and from then on the family has no live session |
| RefreshProtocol.RacesOccur | apps/api/src/auth/auth.service.ts:259-279 | such races do happen: a run in which the first commit succeeds and the second revokes the family |
| RefreshProtocol.RotationHandsOver | apps/api/src/auth/auth.service.ts:202-313 | undisturbed, a usable token does refresh: the only live session is the new one, no other row moves, and the guard accepts it |
| RefreshProtocol.BlockedUserHasNoSession | apps/api/src/users/users.repository.ts:115-150 | when statuses change by these transactions alone, a blocked user has no unrevoked session at any moment of any interleaving, not even by a refresh read before the block |
| VirusScanner.OverlapIs33 | apps/api/src/files/mock-virus-scanner.ts:7-9 | the overlap is one byte less than the longer marker: 33 |
| Streams.ContainsAcrossBoundary | apps/api/src/files/mock-virus-scanner.ts:15-23 | a marker is in the whole stream exactly if it was in the part seen or is in the kept bytes followed by the chunk |
| VirusScanner.InspectionSession.Inspect | apps/api/src/files/mock-virus-scanner.ts:15-23 | the outcome is the verdict on all bytes seen and the overlap their last min(33, n) |
| VirusScanner.Scan | apps/api/src/files/mock-virus-scanner.ts:11-28 | for every way of cutting a stream, ERROR exactly if it holds the failure marker, else INFECTED exactly if it holds the infected marker, else CLEAN |
| FileInspector.DecoderIsUtf8 | apps/api/src/files/file-stream-inspector.ts:61-79 | the incremental decoder accepts a file exactly if it is a sequence of well-formed UTF-8 characters |
| FileInspector.SummaryOfConcat | apps/api/src/files/file-stream-inspector.ts:45-60 | updating prefix, tail, size and control count by a chunk gives those of the longer file |
| FileInspector.FileStreamInspector.Transform | apps/api/src/files/file-stream-inspector.ts:45-70 | after any chunks the prefix is the first 8192 bytes, the tail the last 2048, and size, control count, digest and decoder those of all bytes; the chunk passes through |
| FileInspector.FileStreamInspector.HasValidStructure | apps/api/src/files/file-stream-inspector.ts:141-152 | the structure verdict is a property of the file's bytes alone |
| FileInspector.RatioIsExact | apps/api/src/files/file-stream-inspector.ts:93-95 | below ten million million bytes the rounded ratio of control bytes passes exactly when at most one byte in a hundred is one |
| FileInspector.FileStreamInspector.Inspect | apps/api/src/files/file-stream-inspector.ts:84-139 | the answer, refusals in their order included, is the verdict on the file's bytes, the client's type in lower case and its extension |
| FileInspector.InspectUpload | apps/api/src/files/file-stream-inspector.ts:29-153 | however an upload is cut into chunks the answer is the same and the bytes come out unchanged |
| FileInspector.JudgeIsExact | apps/api/src/files/file-stream-inspector.ts:84-152 | what each answer means in the bytes: the type by the first 8192 bytes or as plain text, the extension that goes with it, and the end marker within the last 2048 bytes |
| HighlightRanges.FoldText | apps/web/src/domain/highlight.ts:26-37 | folding keeps one unit for each unit, so indices stay valid |
| HighlightRanges.TermsAreQueryWords | apps/web/src/domain/highlight.ts:44-51 | the terms are exactly the maximal words of the folded query with three or more characters |
| HighlightRanges.MatchesAreSound | apps/web/src/domain/highlight.ts:59-63 | every match found is a term standing there, and matches ascend |
| HighlightRanges.MatchesAreComplete | apps/web/src/domain/highlight.ts:59-63 | no match skipped by the global expression hides a word that begins with a term |
| HighlightRanges.MergeRanges | apps/web/src/domain/highlight.ts:77-86 | merging covers the same characters with separated ranges, and leaves separated ranges as they are |
| HighlightRanges.RangesFor | apps/web/src/domain/highlight.ts:58-87 | the ranges are exactly the maximal words that begin with a term, in order; sort and merge have nothing to do |
| Highlight.RenderSegments | apps/web/src/domain/highlight.ts:100-112 | segments concatenate to the excerpt, flags alternate, and the marked ones are exactly the ranges |
| Highlight.HighlightExcerpt | apps/web/src/domain/highlight.ts:89-113 | the marked segments are exactly the words whose folded form begins with a folded query term, and the segments spell the excerpt |
| RankFusion.MapCitation | apps/api/src/search/search.service.ts:23-48 | a citation exists exactly when the metadata gives a page from 1, a non-empty offset range from 0, and the row's own extraction; it carries that place and the row's case, document and hash |
| RankFusion.MergeRankings | apps/api/src/search/search.service.ts:50-73 | every chunk of either list exactly once, with its rank and score in each; a single list keeps its order |
| RankFusion.DominanceDecides | apps/api/src/search/search.service.ts:75-80 | a chunk found, and in each list either ahead of another or the other not there, has the higher score |
| RankFusion.AgreementBeatsOneList | apps/api/src/search/search.service.ts:75-80 | a chunk among the first 61 of both lists outranks every chunk found by one |
| RankFusion.SixtyOneIsSharp | apps/api/src/search/search.service.ts:75-80 | at 62 in both lists the score only ties with a first place in one |
| RankFusion.RoundingKeepsUnequalScores | apps/api/src/search/search.service.ts:75-80 | for ranks up to the hundred rows of a query, rounding the quotients and their sum never reverses or joins two unequal scores |
| RankFusion.SortedIsRanked | apps/api/src/search/search.service.ts:141-144 | the sort gives every candidate once in the strict order of score and identifier |
| RankFusion.CutIsComplete | apps/api/src/search/search.service.ts:145-147 | a citable chunk left out lost its place to limit better ones |
| RankFusion.Search | apps/api/src/search/search.service.ts:130-147 | each query is asked for four times the limit, a hundred at most; results are the best citable candidates in order, at most limit, and each tells its row; in a one-list mode they are the database's order without uncitable rows, cut at the limit |
| RankFusion.ResultTellsTheRows | apps/api/src/search/search.service.ts:82-106 | every result quotes and cites the row of its chunk, the lexical one if there is one; names exactly the lists that hold the chunk; and scores the row's own score, or in the hybrid mode the sum of the reciprocals of 60 plus its places, to eight places |
| RankFusion.DominanceInResults | apps/api/src/search/search.service.ts:140-147 | in the results a dominating citable chunk stands before the one it dominates |
| RankFusion.AgreementInResults | apps/api/src/search/search.service.ts:140-147 | a citable chunk among the first 61 of both lists stands before every result found by one list |
| RankFusion.ShownScoresNeverRise | apps/api/src/search/search.service.ts:103 | rounded to eight places, the scores of a hybrid search never rise down the list |
| RankFusion.EightPlacesAreExact | apps/api/src/search/search.service.ts:103 | a score shown is a whole number of hundred millionths |
| RankFusion.ResultsAreDistinct | apps/api/src/search/search.service.ts:140-147 | no chunk appears twice |
| Base32.AlphabetIsStandard | packages/shared/src/totp.ts:27 | indexing the alphabet and looking a character up in it are inverse, and nothing else is in it |
| Words.ShiftInAppends | packages/shared/src/totp.ts:35 | although the accumulator wraps at 32 bits, shifting bits in appends them to the live ones as long as no more than 32 are live |
| Words.TakeTop | packages/shared/src/totp.ts:38 | the unsigned shift and mask take the top live bits and leave the rest |
| Base32.EncodeBase32 | packages/shared/src/totp.ts:30-46 | the text spells the bits of the bytes, five to a character with fewer than five zero bits of padding, in ceil(8n/5) characters; at most twelve bits are ever live |
| Base32.EncodingIsUnique | packages/shared/src/totp.ts:30-46 | section 6 of RFC 4648 leaves one such text |
| Base32.DecodeBase32 | packages/shared/src/totp.ts:48-66 | accepts exactly texts whose characters are white space, equals signs or spelt in the alphabet in upper case, and returns the whole octets of their bits |
| Base32.CleanIsExact | packages/shared/src/totp.ts:49-57 | a text is over the alphabet once cleaned exactly when each of its characters may stand there |
| Base32.CleanOfConcat | packages/shared/src/totp.ts:49 | cleaning keeps the upper case of each character in its order, but for white space and equals signs |
| Base32.DecodingInvertsEncoding | packages/shared/src/totp.ts:30-66 | the only octets an encoding can decode to are the bytes encoded |
| Base32.CleanUndecorates | packages/shared/src/totp.ts:49 | case, white space and equals signs do not change what is decoded |
| Base32.RoundTrip | packages/shared/src/totp.ts:30-66 | encode, decorate in any such way, decode: the bytes come back |
| Cnj.NormalizeIsIdempotent | packages/shared/src/cnj.ts:36-55 | normalising twice changes nothing, and normalising keeps the digits |
| Cnj.NormalFormIsExact | packages/shared/src/cnj.ts:36-55 | twenty digits are written with the punctuation of a case number; any other text loses the white space at its ends and nothing else |
| Cnj.ParseOfTwenty | packages/shared/src/cnj.ts:57-71 | a text with twenty digits always parses, into its six parts |
| Cnj.ParsesExactly | packages/shared/src/cnj.ts:57-71 | a text parses exactly when it has twenty digits, and each part is its run of them |
| Cnj.ValidIsCongruent | packages/shared/src/cnj.ts:81-89 | valid exactly with twenty digits, a pair in 02..98 and remainder 1 modulo 97 with the pair at the end |
| Cnj.SingleErrorIsDetected | packages/shared/src/cnj.ts:73-89 | changing any one of the twenty digits of a valid number is rejected |
| Cnj.TranspositionIsDetected | packages/shared/src/cnj.ts:73-89 | exchanging any two unequal digits, neighbours or not, is rejected |
| Cnj.ExactlyOneCheckPair | packages/shared/src/cnj.ts:86-88 | each body of eighteen digits accepts exactly one pair, in 02..98 |
| CpfCnpj.CpfDigit | packages/shared/src/cpf-cnpj.ts:17-24 | the loop's digit is that of the weighted sum |
| CpfCnpj.CheckCpf | packages/shared/src/cpf-cnpj.ts:27-34 | the validator accepts exactly eleven unequal digits with both check digits right |
| CpfCnpj.CpfIsExact | packages/shared/src/cpf-cnpj.ts:17-34 | valid exactly with eleven digits, not all equal, whose last two complete 10 d0 + 9 d1 + ... and 11 d0 + 10 d1 + ... to a multiple of 11, or stand at 0 for a missing ten |
| CpfCnpj.CnpjIsExact | packages/shared/src/cpf-cnpj.ts:36-53 | valid exactly with fourteen digits, not all equal, whose last two complete 5 d0 + 4 d1 + ... and 6 d0 + 5 d1 + ... in the same way |
| CpfCnpj.CpfUsesTheSameRule | packages/shared/src/cpf-cnpj.ts:22-23 | ten times the sum modulo 11 and eleven minus the remainder are the same check digit |
| CpfCnpj.SameDigit | packages/shared/src/cpf-cnpj.ts:36-40 | two residues give one check digit exactly if they are equal or are 0 and 1 |
| CpfCnpj.CpfSurvivesExactly | packages/shared/src/cpf-cnpj.ts:17-34 | a changed digit of a valid CPF passes exactly at position 0 or 5, when every residue it moves swaps 0 and 1, and the digits are not all equal |
| CpfCnpj.CnpjSurvivesExactly | packages/shared/src/cpf-cnpj.ts:36-53 | a changed digit of a valid CNPJ passes exactly at position 0, 4 or 8, when both residues swap 0 and 1, and the digits are not all equal |
| CpfCnpj.SingleErrorIsDetected | packages/shared/src/cpf-cnpj.ts:17-53 | a single changed digit is rejected at every other position |
| CpfCnpj.CpfExceptionsOccur | packages/shared/src/cpf-cnpj.ts:17-34 | both exceptional positions of a CPF do occur |
| CpfCnpj.CnpjExceptionsOccur | packages/shared/src/cpf-cnpj.ts:36-53 | all three exceptional positions of a CNPJ do occur |
| CalendarDate.ClosedFormCountsYears | apps/api/src/http/calendar-date.ts:36 | the closed form by which the Date object numbers 1 January counts the days of the years in between |
| CalendarDate.EpochIsDayZero | apps/api/src/http/calendar-date.ts:36 | MakeDay numbers 1 January 1970 as day 0 |
| CalendarDate.DayRoundTrip | apps/api/src/http/calendar-date.ts:36-43 | every day number is a day that exists, and MakeDay of that day gives the number back |
| CalendarDate.CivilRoundTrip | apps/api/src/http/calendar-date.ts:36-43 | MakeDay of a day that exists reads back as that day |
| CalendarDate.NumbersFollowTheCalendar | apps/api/src/http/calendar-date.ts:36-43 | the next day number is the next day of the Gregorian calendar |
| CalendarDate.DateOnlyIsAcceptedExactly | apps/api/src/http/calendar-date.ts:31-48 | AAAA-MM-DD is accepted exactly when the day exists and the year is at least 100; the midnight returned writes back to the same text |
| CalendarDate.EveryDayCanBeWritten | apps/api/src/http/calendar-date.ts:31-48 | the text of every day from the year 100 to 9999 is accepted and gives that day's midnight |
| CalendarDate.IsoTimeIsCutToItsDay | apps/api/src/http/calendar-date.ts:53-65 | outside AAAA-MM-DD exactly the texts of the ISO pattern with a valid date are accepted; they become midnight of their UTC day exactly outside the years 0 to 99, which become 1900 or later |
| CalendarDate.YearFiftyBecomes1950 | apps/api/src/http/calendar-date.ts:53-65 | noon of 1 March of the year 50 is accepted and stored as 1 March 1950 |
| Timeline.CursorMeansAfter | apps/api/src/timeline/timeline.repository.ts:61-72 | a row's cursor selects exactly the rows after it if and only if its date has no fraction of a millisecond |
| Timeline.RemainingIsExact | apps/api/src/timeline/timeline.repository.ts:77-104 | the query gives exactly the rows of the case after the cursor whose source is not deleted, each once, dates ascending, undated last, ids between equals |
| Timeline.PageIsTheFirstRows | apps/api/src/timeline/timeline.service.ts:100-117 | a page is the first limit rows that remain, and has a next one exactly when more are left |
| Timeline.WalkIsAscending | apps/api/src/timeline/timeline.service.ts:93-118 | where dates have no fraction of a millisecond a walk is strictly in order, so none repeats, however the data changes between pages |
| Timeline.WalkIsAscendingExactly | apps/api/src/timeline/timeline.service.ts:93-118 | however the data changes between pages, a walk is strictly in order if and only if no table it reads holds a row that the cursor selects again |
| Timeline.AgainExactly | apps/api/src/timeline/timeline.repository.ts:61-72 | the rows a cursor selects again are those within the fraction of a millisecond it cut off, its own row among them |
| Timeline.WalkIsShown | apps/api/src/timeline/timeline.service.ts:93-118 | every row of a walk was shown when it was read |
| Timeline.WalkIsComplete | apps/api/src/timeline/timeline.service.ts:93-118 | a walk that ended has read every row that stayed in place, whatever its date |
| Timeline.FixedWalkIsTheList | apps/api/src/timeline/timeline.service.ts:93-118 | over fixed data k pages end the walk exactly if they have room for all rows, and then it is the whole sorted list |
| Timeline.WalksAreExactExactly | apps/api/src/timeline/timeline.service.ts:93-118 | over fixed data every walk, whatever its limit, is the whole sorted list if and only if no row but the last has a date with a fraction of a millisecond |
| Timeline.RowIsRepeatedExactly | apps/api/src/timeline/timeline.repository.ts:61-72 | a row at the end of a page is read again exactly if its date has a fraction of a millisecond |
| Timeline.WalkCanStandStill | apps/api/src/timeline/timeline.service.ts:93-118 | with such a date on the first row and one row a page, the second page is the first again |
| CostAmounts.MicrosMeaning | apps/api/src/assistant/anthropic-grounded-language-model.provider.ts:154-158 | gluing the digits and padding to six places reads whole units and decimal places |
| CostAmounts.FixedAmountIsTheSame | apps/api/src/assistant/assistant.service.ts:81-84 | writing an amount with six places does not change it |
| CostAmounts.CostTextRoundTrip | apps/api/src/assistant/anthropic-grounded-language-model.provider.ts:159-163 | the text of a cost stands for that cost, already has six places, and passes the parser exactly below a million million |
| CostAmounts.RoomCoversExactlyTheQuotas | apps/api/src/assistant/assistant.service.ts:54-62 | however the room's floating-point steps were rounded, the floored cost is within it at every price exactly for calls within 32000 input and 8192 output tokens |
| CostAmounts.RoomIsTight | apps/api/src/assistant/assistant.service.ts:54-62 | the rounded room is at least the cost of a call that uses both quotas up, and at most two millionths above it |
| CostAmounts.ChargedIsTheCost | apps/api/src/assistant/anthropic-grounded-language-model.provider.ts:153-164 | within the quotas the reported text is accepted, is charged as the sum of the two floored parts, and fits the room computed from the same prices |
| CostAmounts.AcceptedCostIsExact | apps/api/src/assistant/anthropic-grounded-language-model.provider.ts:153-164 | whatever the tokens, an accepted text is charged as tokens times price per million, each part floored, and it is accepted exactly below a million million |
| CostAmounts.PriceShape | packages/config/src/index.ts:164 | a price has one to nine digits and, after a dot if there is one, one to six more |
| CaseBudget.CaseRow.UpdateProcessingBudget | apps/api/src/cases/cases.repository.ts:253-295 | sets the limit exactly when the case is there and the limit covers what is committed, and closes the case exactly when nothing is reserved and a positive limit is spent; otherwise the row stays as it is |
| CaseBudget.CaseRow.AssertAssistantBudgetAvailable | apps/api/src/cases/cases.service.ts:528-564 | room is refused for a missing case, and for a closed one or less left under the limit than asked for; it is given otherwise |
| CaseBudget.CaseRow.ChargeAssistantCost | apps/api/src/cases/cases.repository.ts:381-421 | adds the amount to what was spent exactly when it still fits under the limit, and closes the case when nothing is left; otherwise the row stays as it is, the rollback of the table constraint included |
| CaseBudget.CaseRow.Answer | apps/api/src/assistant/assistant.service.ts:302-454 | a question is refused exactly when the case is missing, closed or without room; an answered one spends what its input and output tokens cost at the configured prices, and every other outcome changes nothing |
| CaseBudget.EditIsExact | apps/api/src/cases/cases.repository.ts:277-294 | an edit is taken exactly when the limit covers what is committed, spends nothing, and closes the case exactly when a positive limit is all spent |
| CaseBudget.ChargeIsRecordedExactly | packages/database/prisma/migrations/20260813220000_delivery_10_processing_cost_controls/migration.sql:11-19 | a charge is recorded exactly if it still fits at that moment, and then only what was spent moves |
| CaseBudget.AnswerIsAlwaysRecorded | apps/api/src/assistant/assistant.service.ts:302-306 | within the quotas a question with room and an output spends exactly the cost of its tokens, never more than the room, and every other question spends nothing |
| CaseBudget.RunKeepsLimit | apps/api/src/cases/cases.service.ts:64-71 | spent plus reserved stays within the limit over every run of edits, questions, processing and deletion |
| CaseBudget.NoAnswerIsLost | apps/api/src/assistant/assistant.service.ts:450-454 | no question of such a run ends in the database refusing its cost |
| CaseBudget.SpendingIsConserved | apps/api/src/cases/cases.repository.ts:381-421 | without processing jobs, what is spent over a run is exactly what the tokens of the questions that found room cost |
| CaseBudget.ReachedLimitStaysClosed | apps/api/src/cases/cases.service.ts:537-543 | once the limit is reached, steps other than edits and jobs charge nothing and leave the row as it is, but for its deletion |
| CaseBudget.EditBetweenCheckAndCharge | apps/api/src/cases/cases.repository.ts:277-280 | lowering the limit to what is committed between check and charge makes every positive charge fail |
| CaseBudget.TwoQuestionsAtOnce | apps/api/src/cases/cases.repository.ts:381-421 | of two questions checked together the first is recorded, the second exactly if both fit |
| CaseBudget.FreeAnswerClosesFullCase | apps/api/src/cases/cases.repository.ts:404-418 | a free answer closes the case for the next question exactly when nothing is left under the limit |
| CaseExport.JobRow.Claim | apps/worker/src/export/case-export.repository.ts:75-92 | the claim takes the row exactly if status and version are still those read |
| CaseExport.JobRow.Cancel | apps/worker/src/processing/processing.repository.ts:1041-1117 | cancels exactly a row that is queued, retrying or in processing and still is as it was read |
| CaseExport.JobRow.Process | apps/worker/src/export/case-export.processor.ts:67-131 | an undisturbed delivery of a claimable job leaves it completed, or failed or retrying by the attempt rule, with version up two and attempts up one; any other delivery changes nothing |
| CaseExport.RunKeepsInv | apps/worker/src/export/case-export.repository.ts:63-159 | over every interleaving at most one worker is between a claim and its end, and a row in processing is that worker's claim |
| CaseExport.OneWorkerAtATime | apps/worker/src/export/case-export.repository.ts:63-100 | from a fresh job, two active workers are one |
| CaseExport.StepIsATransition | apps/worker/src/processing/job-state-machine.ts:3-14 | every step leaves the row or makes one allowed transition and raises the version by one; attempts rise exactly with a successful claim; terminal rows never change |
| CaseExport.TransitionsAreExact | apps/worker/src/processing/job-state-machine.ts:3-14 | the table allows exactly the changes of status that happen in some run of a fresh job |
| CaseExport.CountersAreExact | apps/worker/src/export/case-export.repository.ts:82-89 | over a run the version counts the status changes and the attempts the successful claims |
| CaseExport.TerminalIsForever | apps/worker/src/processing/job-state-machine.ts:7-9 | completed, failed and cancelled rows stay as they are |
| CaseExport.SettlesOnlyItsOwnClaim | apps/worker/src/export/case-export.repository.ts:104-159 | completing and failing act on the row exactly if it is still the worker's own claim |
| CaseExport.RacingClaims | apps/worker/src/export/case-export.repository.ts:56-92 | of two workers that read the same row one claims it |
| CaseExport.AbandonedUntilCancelled | apps/worker/src/export/case-export.repository.ts:72-74 | a row in processing whose worker is gone stays so over every run without a cancellation |
| CaseExport.AbandonedMovesExactly | apps/worker/src/export/case-export.repository.ts:72-74 | such a row moves exactly by a cancellation that read it as it is |
| CaseExport.StrandedExactly | apps/worker/src/export/case-export.processor.ts:67-131 | a row in processing loses its worker exactly by the worker's crash or by its failure that could not be recorded |
| CaseExport.RowsAreStranded | apps/worker/src/export/case-export.processor.ts:67-131 | both ways lead there from a fresh job |
| LegalHold.Repositories.SoftDeleteCase | apps/api/src/cases/cases.repository.ts:305-316 | deletes exactly a live case of the organisation that is not held; no other row moves |
| LegalHold.Repositories.SetLegalHold | apps/api/src/cases/cases.repository.ts:346-368 | holds or releases exactly a live case; no other row moves |
| LegalHold.Repositories.SoftDeleteDocument | apps/api/src/documents/documents.repository.ts:144-177 | deletes exactly a live document of the organisation whose case, if any, is not held, and its file exactly if no other live document of the organisation names it; no other row moves |
| LegalHold.Repositories.SoftDeletePerson | apps/api/src/persons/persons.repository.ts:125-148 | deletes exactly a live person of the organisation whom no participant row of that organisation puts in a held case; no other row moves |
| LegalHold.RunKeepsInv | apps/api/src/documents/documents.repository.ts:167-175 | in every reachable state a live document's file is live, held cases are not deleted, and rows name rows of their own organization |
| LegalHold.HoldKeepsTheCase | apps/api/src/cases/cases.repository.ts:305-316 | while a case stays held, it, its live documents, their files and its live participants' persons stay live and in place |
| LegalHold.OnlyReleaseEndsAHold | apps/api/src/cases/cases.repository.ts:346-368 | until an explicit release the hold lasts and keeps all that |
| LegalHold.FileGoesWithItsLastDocument | apps/api/src/documents/documents.repository.ts:167-175 | deleting a document drops its file exactly when no other live document uses it, and touches nothing else |
| LegalHold.DeletionsAreExact | apps/api/src/persons/persons.repository.ts:131-147 | of a live case, document or person, a deletion takes effect exactly when its case, or none of the cases its participant rows name, is held |

## Left out

- Cryptography and randomness: hashes are opaque values and hashing a parameter, identifiers are fresh
  numbers; the access token's signature is not modelled.
- Isolation anomalies of the database: a transaction is one step, except the refresh read, the claim read
  and the check before a question, which are steps of their own.
- Highlight.HighlightExcerpt: text outside the basic plane, where the regular expressions work on code
  points; folding a unit and the letter-or-digit class are parameters.
- RankFusion.Search: the sort compares exact scores, so two chunks whose exact scores are equal are
  ordered by identifier where the source may see a difference of rounding; identifiers are numbers in the
  order localeCompare gives them; the one-list order is stated for lists that name each chunk once, as
  the queries return them; the audit record and the status are left out.
- FileInspector.FileStreamInspector.Inspect: the table of magic numbers and the conversion to lower case
  are parameters.
- Base32.DecodeBase32: white space and upper case are parameters, required only to treat ASCII as usual
  in the round trip; TOTP codes are left out.
- Cnj.NormalizeIsIdempotent: the white space that trim removes is a parameter that holds no digit.
- CalendarDate.IsoTimeIsCutToItsDay: how a Date object reads the text of a full time is a parameter, from
  a text to milliseconds.
- Timeline.WalkIsComplete: the cursor's JSON and base64url form is left out; a malformed one is refused
  with INVALID_CURSOR (apps/api/src/http/pagination.ts:93-104), although a comment says that it counts as
  the first page (apps/api/src/timeline/timeline.service.ts:26-28). Event confirmation changes no field a
  walk depends on.
- CaseBudget.CaseRow.Answer: retrieval, generation and the parsing of claims are one outcome value.
- CaseBudget.RunKeepsLimit: questions are handled one at a time and processing jobs only respect the
  table constraint; provider calls that fail cost the office but are charged to no case, as the source
  says.
- CaseExport.RunKeepsInv: the PDF, object storage and queue are left out; an error anywhere in the work
  is one step.
- LegalHold.HoldKeepsTheCase: audit records and the messages of the early checks are left out.
- RefreshProtocol.RevocationIsPermanent: invitations, roles, permissions and second factors do not touch
  sessions and are one unspecified step that keeps them.
- Controllers, data transfer objects, views, e-mail, prompts, embeddings, text extraction and
  configuration parsing are left out.
