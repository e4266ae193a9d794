/** Legal holds: what stays in place while a case is retained, and which deletions its guards refuse. */
module LegalHold {
  import opened Wrappers

  type Id = nat

  datatype Case = Case(organization: Id, held: bool, deleted: bool)
  datatype Document = Document(organization: Id, caseId: Option<Id>, fileId: Id, deleted: bool)
  datatype StoredFile = StoredFile(organization: Id, deleted: bool)
  datatype Person = Person(organization: Id, deleted: bool)
  datatype Participant = Participant(organization: Id, caseId: Id, personId: Id)

  // The five tables; a deletion only marks a row.
  datatype Tables = Tables(
    cases: map<Id, Case>, documents: map<Id, Document>, files: map<Id, StoredFile>,
    persons: map<Id, Person>, participants: map<Id, Participant>)

  // ---------- Guards ----------

  predicate CaseIsHeld(s: Tables, id: Id) {
    id in s.cases && s.cases[id].held
  }

  predicate LiveCase(s: Tables, organization: Id, id: Id) {
    id in s.cases && s.cases[id].organization == organization && !s.cases[id].deleted
  }

  predicate LiveDocument(s: Tables, organization: Id, id: Id) {
    id in s.documents && s.documents[id].organization == organization && !s.documents[id].deleted
  }

  predicate LiveFile(s: Tables, organization: Id, id: Id) {
    id in s.files && s.files[id].organization == organization && !s.files[id].deleted
  }

  predicate LivePerson(s: Tables, organization: Id, id: Id) {
    id in s.persons && s.persons[id].organization == organization && !s.persons[id].deleted
  }

  predicate DocumentInHeldCase(s: Tables, organization: Id, id: Id) {
    && id in s.documents && s.documents[id].organization == organization
    && s.documents[id].caseId.Some? && CaseIsHeld(s, s.documents[id].caseId.value)
  }

  predicate PersonInHeldCase(s: Tables, organization: Id, id: Id) {
    exists p :: p in s.participants && s.participants[p].organization == organization
                && s.participants[p].personId == id && CaseIsHeld(s, s.participants[p].caseId)
  }

  predicate FileIsUsed(s: Tables, organization: Id, fileId: Id) {
    exists d :: d in s.documents && LiveDocument(s, organization, d) && s.documents[d].fileId == fileId
  }

  // ---------- What each operation does ----------

  function AfterCaseDelete(s: Tables, organization: Id, id: Id): Tables {
    if LiveCase(s, organization, id) && !s.cases[id].held
    then s.(cases := s.cases[id := s.cases[id].(deleted := true)]) else s
  }

  function AfterSetHold(s: Tables, organization: Id, id: Id, hold: bool): Tables {
    if LiveCase(s, organization, id) then s.(cases := s.cases[id := s.cases[id].(held := hold)]) else s
  }

  predicate MayDeleteDocument(s: Tables, organization: Id, id: Id) {
    LiveDocument(s, organization, id) && !DocumentInHeldCase(s, organization, id)
  }

  function MarkDocument(s: Tables, id: Id): Tables
    requires id in s.documents
  {
    s.(documents := s.documents[id := s.documents[id].(deleted := true)])
  }

  function DropUnusedFile(s: Tables, organization: Id, fileId: Id): Tables {
    if !FileIsUsed(s, organization, fileId) && LiveFile(s, organization, fileId)
    then s.(files := s.files[fileId := s.files[fileId].(deleted := true)]) else s
  }

  function AfterDocumentDelete(s: Tables, organization: Id, id: Id, fileId: Id): Tables {
    if MayDeleteDocument(s, organization, id) then DropUnusedFile(MarkDocument(s, id), organization, fileId) else s
  }

  predicate MayDeletePerson(s: Tables, organization: Id, id: Id) {
    LivePerson(s, organization, id) && !PersonInHeldCase(s, organization, id)
  }

  function AfterPersonDelete(s: Tables, organization: Id, id: Id): Tables {
    if MayDeletePerson(s, organization, id)
    then s.(persons := s.persons[id := s.persons[id].(deleted := true)]) else s
  }

  function AfterIntake(s: Tables, organization: Id, caseId: Id, fileId: Id, documentId: Id): Tables {
    s.(files := s.files[fileId := StoredFile(organization, false)],
       documents := s.documents[documentId := Document(organization, Some(caseId), fileId, false)])
  }

  function AfterJoin(s: Tables, organization: Id, caseId: Id, personId: Id, id: Id): Tables {
    s.(participants := s.participants[id := Participant(organization, caseId, personId)])
  }

  // ---------- The repositories ----------

  // Between two states of a table only one row may have changed, and none came or went.
  ghost predicate OnlyMoves<T(!new)>(before: map<Id, T>, after: map<Id, T>, id: Id) {
    after.Keys == before.Keys && forall x :: x in before && x != id ==> after[x] == before[x]
  }

  // A live document other than this one uses the file.
  ghost predicate UsedByAnother(s: Tables, organization: Id, id: Id, fileId: Id) {
    exists d :: d in s.documents && d != id && LiveDocument(s, organization, d) && s.documents[d].fileId == fileId
  }

  class Repositories {
    var cases: map<Id, Case>
    var documents: map<Id, Document>
    var files: map<Id, StoredFile>
    var persons: map<Id, Person>
    var participants: map<Id, Participant>

    constructor ()
      ensures State() == Tables(map[], map[], map[], map[], map[])
    {
      cases, documents, files, persons, participants := map[], map[], map[], map[], map[];
    }

    function State(): Tables
      reads this
    {
      Tables(cases, documents, files, persons, participants)
    }

    method SoftDeleteCase(organization: Id, id: Id) returns (removed: bool)
      modifies `cases
      ensures State() == AfterCaseDelete(old(State()), organization, id)
      ensures removed <==>
                id in old(cases) && old(cases)[id].organization == organization
                && !old(cases)[id].deleted && !old(cases)[id].held
      ensures cases == if removed then old(cases)[id := old(cases)[id].(deleted := true)] else old(cases)
    {
      if id !in cases || cases[id].organization != organization || cases[id].deleted || cases[id].held {
        return false;
      }
      cases := cases[id := cases[id].(deleted := true)];
      removed := true;
    }

    method SetLegalHold(organization: Id, id: Id, hold: bool) returns (found: bool)
      modifies `cases
      ensures State() == AfterSetHold(old(State()), organization, id, hold)
      ensures found <==> id in old(cases) && old(cases)[id].organization == organization && !old(cases)[id].deleted
      ensures cases == if found then old(cases)[id := old(cases)[id].(held := hold)] else old(cases)
    {
      if id !in cases || cases[id].organization != organization || cases[id].deleted {
        return false;
      }
      cases := cases[id := cases[id].(held := hold)];
      found := true;
    }

    method SoftDeleteDocument(organization: Id, id: Id, fileId: Id) returns (removed: bool)
      modifies `documents, `files
      ensures State() == AfterDocumentDelete(old(State()), organization, id, fileId)
      ensures removed <==>
                && id in old(documents) && old(documents)[id].organization == organization
                && !old(documents)[id].deleted
                && forall c :: c in cases && old(documents)[id].caseId == Some(c) ==> !cases[c].held
      ensures documents == if removed then old(documents)[id := old(documents)[id].(deleted := true)]
                           else old(documents)
      ensures files == if removed && fileId in old(files) && old(files)[fileId].organization == organization
                          && (!exists d :: d in old(documents) && d != id && old(documents)[d].fileId == fileId
                                && old(documents)[d].organization == organization && !old(documents)[d].deleted)
                       then old(files)[fileId := old(files)[fileId].(deleted := true)] else old(files)
    {
      if DocumentInHeldCase(State(), organization, id) {
        return false;
      }
      if id !in documents || documents[id].organization != organization || documents[id].deleted {
        return false;
      }
      documents := documents[id := documents[id].(deleted := true)];
      if !FileIsUsed(State(), organization, fileId) {
        if fileId in files && files[fileId].organization == organization && !files[fileId].deleted {
          files := files[fileId := files[fileId].(deleted := true)];
        }
      }
      DropIsExact(old(State()), organization, id, fileId);
      removed := true;
    }

    method SoftDeletePerson(organization: Id, id: Id) returns (removed: bool)
      modifies `persons
      ensures State() == AfterPersonDelete(old(State()), organization, id)
      ensures removed <==>
                && id in old(persons) && old(persons)[id].organization == organization && !old(persons)[id].deleted
                && !exists p, c :: p in participants && c in cases
                                   && participants[p] == Participant(organization, c, id) && cases[c].held
      ensures persons == if removed then old(persons)[id := old(persons)[id].(deleted := true)] else old(persons)
    {
      PersonGuardIsExact(State(), organization, id);
      if PersonInHeldCase(State(), organization, id) {
        return false;
      }
      if id !in persons || persons[id].organization != organization || persons[id].deleted {
        return false;
      }
      persons := persons[id := persons[id].(deleted := true)];
      removed := true;
    }
  }

  // ---------- Steps and runs ----------

  // New rows take ids that no row has.
  datatype Step =
    | OpenCase(organization: Id, id: Id)
    | AddPerson(organization: Id, id: Id)
    | Join(organization: Id, caseId: Id, personId: Id, id: Id)
    | Intake(organization: Id, caseId: Id, fileId: Id, documentId: Id)
    | SetHold(organization: Id, id: Id, hold: bool)
    | DeleteCase(organization: Id, id: Id)
    | DeleteDocument(organization: Id, id: Id, fileId: Id)
    | DeletePerson(organization: Id, id: Id)

  predicate CaseOf(s: Tables, organization: Id, id: Id) {
    id in s.cases && s.cases[id].organization == organization
  }

  predicate PersonOf(s: Tables, organization: Id, id: Id) {
    id in s.persons && s.persons[id].organization == organization
  }

  // The foreign keys include the organization, so a row only ever names rows of its own.
  predicate Possible(s: Tables, step: Step) {
    match step
    case OpenCase(organization, id) => id !in s.cases
    case AddPerson(organization, id) => id !in s.persons
    case Join(organization, caseId, personId, id) =>
      id !in s.participants && CaseOf(s, organization, caseId) && PersonOf(s, organization, personId)
    case Intake(organization, caseId, fileId, documentId) =>
      fileId !in s.files && documentId !in s.documents && CaseOf(s, organization, caseId)
    case _ => true
  }

  function Next(s: Tables, step: Step): Tables {
    match step
    case OpenCase(organization, id) => s.(cases := s.cases[id := Case(organization, false, false)])
    case AddPerson(organization, id) => s.(persons := s.persons[id := Person(organization, false)])
    case Join(organization, caseId, personId, id) => AfterJoin(s, organization, caseId, personId, id)
    case Intake(organization, caseId, fileId, documentId) => AfterIntake(s, organization, caseId, fileId, documentId)
    case SetHold(organization, id, hold) => AfterSetHold(s, organization, id, hold)
    case DeleteCase(organization, id) => AfterCaseDelete(s, organization, id)
    case DeleteDocument(organization, id, fileId) => AfterDocumentDelete(s, organization, id, fileId)
    case DeletePerson(organization, id) => AfterPersonDelete(s, organization, id)
  }

  function Run(s: Tables, steps: seq<Step>): Tables {
    if steps == [] then s else Next(Run(s, steps[..|steps| - 1]), steps[|steps| - 1])
  }

  ghost predicate Possibles(s: Tables, steps: seq<Step>) {
    forall k :: 0 <= k < |steps| ==> Possible(Run(s, steps[..k]), steps[k])
  }

  // ---------- What every step keeps ----------

  ghost predicate HeldCasesAreLive(s: Tables) {
    forall c :: c in s.cases && s.cases[c].held ==> !s.cases[c].deleted
  }

  // A live document's file is there, in its organization, and live.
  ghost predicate FileBehind(s: Tables, d: Id)
    requires d in s.documents
  {
    LiveFile(s, s.documents[d].organization, s.documents[d].fileId)
  }

  ghost predicate LiveDocumentsHaveFiles(s: Tables) {
    forall d :: d in s.documents && !s.documents[d].deleted ==> FileBehind(s, d)
  }

  ghost predicate DocumentsNameTheirCase(s: Tables) {
    forall d :: d in s.documents && s.documents[d].caseId.Some? ==>
      CaseOf(s, s.documents[d].organization, s.documents[d].caseId.value)
  }

  ghost predicate ParticipantsNameTheirRows(s: Tables) {
    forall p :: p in s.participants ==>
      && CaseOf(s, s.participants[p].organization, s.participants[p].caseId)
      && PersonOf(s, s.participants[p].organization, s.participants[p].personId)
  }

  ghost predicate Inv(s: Tables) {
    HeldCasesAreLive(s) && LiveDocumentsHaveFiles(s) && DocumentsNameTheirCase(s) && ParticipantsNameTheirRows(s)
  }

  // Rows never leave their table or move to another organization, case, file or person.
  ghost predicate CasesStay(s: Tables, t: Tables) {
    forall c :: c in s.cases ==> c in t.cases && t.cases[c].organization == s.cases[c].organization
  }

  ghost predicate DocumentRowsStay(s: Tables, t: Tables) {
    forall d :: d in s.documents ==>
      d in t.documents && t.documents[d].(deleted := s.documents[d].deleted) == s.documents[d]
  }

  ghost predicate PersonRowsStay(s: Tables, t: Tables) {
    forall p :: p in s.persons ==> p in t.persons && t.persons[p].organization == s.persons[p].organization
  }

  ghost predicate ParticipantsStay(s: Tables, t: Tables) {
    forall p :: p in s.participants ==> p in t.participants && t.participants[p] == s.participants[p]
  }

  lemma StepKeepsCases(s: Tables, step: Step)
    requires Possible(s, step)
    ensures CasesStay(s, Next(s, step))
  {
  }

  lemma StepKeepsDocumentRows(s: Tables, step: Step)
    requires Possible(s, step)
    ensures DocumentRowsStay(s, Next(s, step))
  {
    match step
    case DeleteDocument(organization, id, fileId) =>
      if MayDeleteDocument(s, organization, id) {
        var marked := MarkDocument(s, id);
        assert DropUnusedFile(marked, organization, fileId).documents == marked.documents;
      }
    case Intake(_, _, _, _) =>
    case _ => assert Next(s, step).documents == s.documents;
  }

  lemma StepKeepsPersonRows(s: Tables, step: Step)
    requires Possible(s, step)
    ensures PersonRowsStay(s, Next(s, step)) && ParticipantsStay(s, Next(s, step))
  {
  }

  // A file is dropped only when no live document uses it.
  lemma DropKeepsFiles(s: Tables, organization: Id, fileId: Id)
    requires LiveDocumentsHaveFiles(s)
    ensures LiveDocumentsHaveFiles(DropUnusedFile(s, organization, fileId))
  {
    var t := DropUnusedFile(s, organization, fileId);
    forall d | d in t.documents && !t.documents[d].deleted ensures FileBehind(t, d) {
      assert FileBehind(s, d);
      if t.documents[d].fileId == fileId && t.documents[d].organization == organization {
        assert LiveDocument(s, organization, d) && FileIsUsed(s, organization, fileId);
      }
    }
  }

  lemma StepKeepsFiles(s: Tables, step: Step)
    requires Inv(s) && Possible(s, step)
    ensures LiveDocumentsHaveFiles(Next(s, step))
  {
    if step.DeleteDocument? {
      if MayDeleteDocument(s, step.organization, step.id) {
        var marked := MarkDocument(s, step.id);
        forall d | d in marked.documents && !marked.documents[d].deleted ensures FileBehind(marked, d) {
          assert FileBehind(s, d);
        }
        DropKeepsFiles(marked, step.organization, step.fileId);
      }
    } else {
      var t := Next(s, step);
      forall d | d in t.documents && !t.documents[d].deleted ensures FileBehind(t, d) {
        assert d in s.documents ==> FileBehind(s, d);
      }
    }
  }

  lemma StepKeepsDocumentKeys(s: Tables, step: Step)
    requires Inv(s) && Possible(s, step)
    ensures DocumentsNameTheirCase(Next(s, step))
  {
    StepKeepsCases(s, step);
    var t := Next(s, step);
    forall d | d in t.documents && t.documents[d].caseId.Some?
      ensures CaseOf(t, t.documents[d].organization, t.documents[d].caseId.value)
    {
      assert d in s.documents ==> CaseOf(s, s.documents[d].organization, t.documents[d].caseId.value);
    }
  }

  lemma StepKeepsParticipantKeys(s: Tables, step: Step)
    requires Inv(s) && Possible(s, step)
    ensures ParticipantsNameTheirRows(Next(s, step))
  {
    StepKeepsCases(s, step);
    StepKeepsPersonRows(s, step);
    var t := Next(s, step);
    forall p | p in t.participants
      ensures CaseOf(t, t.participants[p].organization, t.participants[p].caseId)
      ensures PersonOf(t, t.participants[p].organization, t.participants[p].personId)
    {
      assert p in s.participants ==> CaseOf(s, s.participants[p].organization, s.participants[p].caseId);
    }
  }

  lemma StepKeepsInv(s: Tables, step: Step)
    requires Inv(s) && Possible(s, step)
    ensures Inv(Next(s, step))
  {
    StepKeepsFiles(s, step);
    StepKeepsDocumentKeys(s, step);
    StepKeepsParticipantKeys(s, step);
  }

  lemma PossiblePrefix(s: Tables, steps: seq<Step>, n: nat)
    requires Possibles(s, steps) && n <= |steps|
    ensures Possibles(s, steps[..n])
  {
    forall k | 0 <= k < n ensures Possible(Run(s, steps[..n][..k]), steps[..n][k]) {
      assert steps[..n][..k] == steps[..k];
    }
  }

  /** In every reachable state the file behind a live document is live, and a held case is not deleted. */
  lemma {:induction false} RunKeepsInv(s: Tables, steps: seq<Step>)
    requires Inv(s) && Possibles(s, steps)
    ensures Inv(Run(s, steps))
  {
    if steps != [] {
      var n := |steps| - 1;
      PossiblePrefix(s, steps, n);
      RunKeepsInv(s, steps[..n]);
      StepKeepsInv(Run(s, steps[..n]), steps[n]);
    }
  }

  // ---------- What a hold keeps ----------

  // The live documents of a case with their files.
  ghost predicate DocumentsStay(s: Tables, t: Tables, c: Id) {
    forall d :: d in s.documents && s.documents[d].caseId == Some(c) && !s.documents[d].deleted ==>
      d in t.documents && t.documents[d] == s.documents[d] && FileBehind(t, d)
  }

  // The live persons who take part in a case.
  ghost predicate PersonsStay(s: Tables, t: Tables, c: Id) {
    forall p :: p in s.participants && s.participants[p].caseId == c &&
                LivePerson(s, s.participants[p].organization, s.participants[p].personId) ==>
      && p in t.participants && t.participants[p] == s.participants[p]
      && LivePerson(t, s.participants[p].organization, s.participants[p].personId)
  }

  ghost predicate Kept(s: Tables, t: Tables, c: Id) {
    && c in s.cases && c in t.cases && !t.cases[c].deleted
    && DocumentsStay(s, t, c) && PersonsStay(s, t, c)
  }

  lemma StepKeepsDocuments(s: Tables, step: Step, c: Id)
    requires Inv(s) && Possible(s, step) && CaseIsHeld(s, c)
    ensures DocumentsStay(s, Next(s, step), c)
  {
    var t := Next(s, step);
    StepKeepsDocumentRows(s, step);
    StepKeepsFiles(s, step);
    forall d | d in s.documents && s.documents[d].caseId == Some(c) && !s.documents[d].deleted
      ensures d in t.documents && t.documents[d] == s.documents[d] && FileBehind(t, d)
    {
      assert step.DeleteDocument? && step.id == d && s.documents[d].organization == step.organization
             ==> DocumentInHeldCase(s, step.organization, d);
    }
  }

  lemma StepKeepsPersons(s: Tables, step: Step, c: Id)
    requires Inv(s) && Possible(s, step) && CaseIsHeld(s, c)
    ensures PersonsStay(s, Next(s, step), c)
  {
    var t := Next(s, step);
    StepKeepsPersonRows(s, step);
    forall p | p in s.participants && s.participants[p].caseId == c &&
               LivePerson(s, s.participants[p].organization, s.participants[p].personId)
      ensures p in t.participants && t.participants[p] == s.participants[p]
      ensures LivePerson(t, s.participants[p].organization, s.participants[p].personId)
    {
      var q := s.participants[p];
      assert PersonInHeldCase(s, q.organization, q.personId);
    }
  }

  lemma StepKeepsHeld(s: Tables, step: Step, c: Id)
    requires Inv(s) && Possible(s, step) && CaseIsHeld(s, c)
    ensures Kept(s, Next(s, step), c)
  {
    StepKeepsDocuments(s, step, c);
    StepKeepsPersons(s, step, c);
  }

  lemma KeptIsTransitive(s: Tables, t: Tables, u: Tables, c: Id)
    requires Kept(s, t, c) && Kept(t, u, c)
    ensures Kept(s, u, c)
  {
    forall d | d in s.documents && s.documents[d].caseId == Some(c) && !s.documents[d].deleted
      ensures d in u.documents && u.documents[d] == s.documents[d] && FileBehind(u, d)
    {
      assert t.documents[d] == s.documents[d];
    }
    forall p | p in s.participants && s.participants[p].caseId == c &&
               LivePerson(s, s.participants[p].organization, s.participants[p].personId)
      ensures p in u.participants && u.participants[p] == s.participants[p]
      ensures LivePerson(u, s.participants[p].organization, s.participants[p].personId)
    {
      assert t.participants[p] == s.participants[p];
    }
  }

  // The case is held before every step of the run.
  ghost predicate HeldThroughout(s: Tables, steps: seq<Step>, c: Id) {
    forall k :: 0 <= k < |steps| ==> CaseIsHeld(Run(s, steps[..k]), c)
  }

  lemma HeldPrefix(s: Tables, steps: seq<Step>, c: Id, n: nat)
    requires HeldThroughout(s, steps, c) && n <= |steps|
    ensures HeldThroughout(s, steps[..n], c)
  {
    forall k | 0 <= k < n ensures CaseIsHeld(Run(s, steps[..n][..k]), c) {
      assert steps[..n][..k] == steps[..k];
    }
  }

  /** Over every run during which a case stays held, the case, its live documents, the files behind them
      and the live persons who take part in it all stay live and in place. */
  lemma {:induction false} HoldKeepsTheCase(s: Tables, steps: seq<Step>, c: Id)
    requires Inv(s) && Possibles(s, steps) && CaseIsHeld(s, c) && HeldThroughout(s, steps, c)
    ensures Kept(s, Run(s, steps), c)
  {
    if steps != [] {
      var n := |steps| - 1;
      PossiblePrefix(s, steps, n);
      HeldPrefix(s, steps, c, n);
      HoldKeepsTheCase(s, steps[..n], c);
      RunKeepsInv(s, steps[..n]);
      StepKeepsHeld(Run(s, steps[..n]), steps[n], c);
      KeptIsTransitive(s, Run(s, steps[..n]), Run(s, steps), c);
    }
  }

  // A step that lets go of the hold.
  predicate Releases(step: Step, c: Id) {
    step.SetHold? && step.id == c && !step.hold
  }

  lemma StepKeepsHold(s: Tables, step: Step, c: Id)
    requires Possible(s, step) && CaseIsHeld(s, c) && !Releases(step, c)
    ensures CaseIsHeld(Next(s, step), c)
  {
  }

  lemma {:induction false} HoldLasts(s: Tables, steps: seq<Step>, c: Id)
    requires Possibles(s, steps) && CaseIsHeld(s, c)
    requires forall k :: 0 <= k < |steps| ==> !Releases(steps[k], c)
    ensures CaseIsHeld(Run(s, steps), c)
  {
    if steps != [] {
      var n := |steps| - 1;
      PossiblePrefix(s, steps, n);
      HoldLasts(s, steps[..n], c);
      StepKeepsHold(Run(s, steps[..n]), steps[n], c);
    }
  }

  /** A hold ends only by an explicit release: until one, everything it keeps stays. */
  lemma OnlyReleaseEndsAHold(s: Tables, steps: seq<Step>, c: Id)
    requires Inv(s) && Possibles(s, steps) && CaseIsHeld(s, c)
    requires forall k :: 0 <= k < |steps| ==> !Releases(steps[k], c)
    ensures CaseIsHeld(Run(s, steps), c) && Kept(s, Run(s, steps), c)
  {
    HoldLasts(s, steps, c);
    forall k | 0 <= k < |steps| ensures CaseIsHeld(Run(s, steps[..k]), c) {
      PossiblePrefix(s, steps, k);
      HoldLasts(s, steps[..k], c);
    }
    HoldKeepsTheCase(s, steps, c);
  }

  // ---------- What the guards let through ----------

  // Once a document is marked, its file is in use exactly if another document uses it.
  lemma DropIsExact(s: Tables, organization: Id, id: Id, fileId: Id)
    requires id in s.documents
    ensures FileIsUsed(MarkDocument(s, id), organization, fileId) <==> UsedByAnother(s, organization, id, fileId)
  {
    var marked := MarkDocument(s, id);
    if FileIsUsed(marked, organization, fileId) {
      var d :| d in marked.documents && LiveDocument(marked, organization, d) && marked.documents[d].fileId == fileId;
      assert d != id && LiveDocument(s, organization, d);
    }
    if UsedByAnother(s, organization, id, fileId) {
      var d :| d in s.documents && d != id && LiveDocument(s, organization, d) && s.documents[d].fileId == fileId;
      assert d in marked.documents && LiveDocument(marked, organization, d);
    }
  }

  /** Deleting a document drops its file exactly when no other live document uses it, and touches
      nothing else. */
  lemma FileGoesWithItsLastDocument(s: Tables, organization: Id, id: Id)
    requires Inv(s) && MayDeleteDocument(s, organization, id)
    ensures var file, t := s.documents[id].fileId, AfterDocumentDelete(s, organization, id, s.documents[id].fileId);
            && !LiveDocument(t, organization, id)
            && (LiveFile(t, organization, file) <==> UsedByAnother(s, organization, id, file))
            && OnlyMoves(s.documents, t.documents, id) && OnlyMoves(s.files, t.files, file)
            && t.cases == s.cases && t.persons == s.persons && t.participants == s.participants
  {
    assert FileBehind(s, id);
    DropIsExact(s, organization, id, s.documents[id].fileId);
  }

  /** The hold is the only thing in the way: of a live case, document or person, each deletion takes
      effect exactly when no held case is concerned. */
  lemma DeletionsAreExact(s: Tables, organization: Id, id: Id, fileId: Id)
    ensures LiveCase(s, organization, id) ==>
              (AfterCaseDelete(s, organization, id).cases[id].deleted <==> !s.cases[id].held)
    ensures LiveDocument(s, organization, id) ==>
              (AfterDocumentDelete(s, organization, id, fileId).documents[id].deleted <==>
               forall c :: c in s.cases && s.documents[id].caseId == Some(c) ==> !s.cases[c].held)
    ensures LivePerson(s, organization, id) ==>
              (AfterPersonDelete(s, organization, id).persons[id].deleted <==>
               !exists p, c :: p in s.participants && c in s.cases
                               && s.participants[p] == Participant(organization, c, id) && s.cases[c].held)
  {
    PersonGuardIsExact(s, organization, id);
  }

  // The guard of a person refuses exactly for a participant row that names a held case.
  lemma PersonGuardIsExact(s: Tables, organization: Id, id: Id)
    ensures PersonInHeldCase(s, organization, id) <==>
            exists p, c :: p in s.participants && c in s.cases
                           && s.participants[p] == Participant(organization, c, id) && s.cases[c].held
  {
    if PersonInHeldCase(s, organization, id) {
      var p :| p in s.participants && s.participants[p].organization == organization
               && s.participants[p].personId == id && CaseIsHeld(s, s.participants[p].caseId);
      assert s.participants[p] == Participant(organization, s.participants[p].caseId, id);
    }
  }
}
