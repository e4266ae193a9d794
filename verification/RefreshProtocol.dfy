/**
 The refresh-token protocol as steps, interleaved in any order. Each committed transaction is one
 atomic step. A refresh is two: a read of its session, and later a commit that acts on what was
 read.
 */
module RefreshProtocol {
  import opened Wrappers
  import opened RefreshSessions

  // ---------- Interleaved requests ----------

  // The rows, and the refreshes that have read but not yet committed.
  datatype System = System(store: Store, readings: map<Id, Reading>)

  datatype Step =
    | LoginStep(organization: Id, user: Id, at: Time, id: Id, family: Id, hash: Hash, expiresAt: Time)
    | ReadStep(request: Id, hash: Hash, reading: Reading)
    | CommitStep(request: Id)
    | LogoutStep(actor: AccessToken, at: Time)
    | StatusStep(organization: Id, user: Id, block: bool, at: Time)
    | ResetStep(resetId: Id, found: ResetRequest, passwordHash: Hash, at: Time)
    // Anything else that leaves the sessions alone: invitations, organisations, reset requests.
    | OtherStep(store: Store)

  ghost predicate FamilyUnused(s: Store, family: Id) {
    forall id :: id in s.sessions ==> s.sessions[id].family != family
  }

  // When a step can happen. Random identifiers never repeat; a password reset names the user
  // and organisation of the request row it found.
  ghost predicate Enabled(s: System, step: Step) {
    match step
    case LoginStep(_, _, _, id, family, hash, _) =>
      id !in s.store.sessions && FamilyUnused(s.store, family) && !s.store.HashTaken(hash)
    case ReadStep(request, hash, reading) => request !in s.readings && Reads(s.store, hash, reading)
    case CommitStep(request) =>
      request in s.readings && s.readings[request].nextId !in s.store.sessions
      && !s.store.HashTaken(s.readings[request].nextHash)
    case ResetStep(id, found, _, _) =>
      id in s.store.resets ==>
        s.store.resets[id].organization == found.organization && s.store.resets[id].user == found.user
    case OtherStep(store) => store.sessions == s.store.sessions
    case _ => true
  }

  function After(s: System, step: Step): System
    requires step.CommitStep? ==> step.request in s.readings
  {
    match step
    case LoginStep(organization, user, at, id, family, hash, expiresAt) =>
      s.(store := AfterLogin(s.store, organization, user, at, id, family, hash, expiresAt))
    case ReadStep(request, _, reading) => s.(readings := s.readings[request := reading])
    case CommitStep(request) =>
      System(AfterRefresh(s.store, s.readings[request]), s.readings - {request})
    case LogoutStep(actor, at) => s.(store := AfterLogout(s.store, actor, at))
    case StatusStep(organization, user, block, at) =>
      s.(store := AfterStatusChange(s.store, organization, user, block, at))
    case ResetStep(id, found, passwordHash, at) => s.(store := AfterReset(s.store, id, found, passwordHash, at))
    case OtherStep(store) => s.(store := store)
  }

  ghost predicate Next(s: System, step: Step, s': System) {
    Enabled(s, step) && s' == After(s, step)
  }

  // ---------- The invariant ----------

  ghost predicate OneOwnerPerFamily(s: Store) {
    forall a, b :: a in s.sessions && b in s.sessions && s.sessions[a].family == s.sessions[b].family ==>
      s.sessions[a].user == s.sessions[b].user && s.sessions[a].organization == s.sessions[b].organization
  }

  ghost predicate OneLivePerFamily(s: Store) {
    forall a, b :: (a in s.sessions && b in s.sessions && s.sessions[a].family == s.sessions[b].family
                    && s.sessions[a].Live() && s.sessions[b].Live()) ==> a == b
  }

  ghost predicate OneSessionPerHash(s: Store) {
    forall a, b :: a in s.sessions && b in s.sessions && s.sessions[a].tokenHash == s.sessions[b].tokenHash ==> a == b
  }

  // What was read is still there, and was never livelier than it is now.
  ghost predicate ReadingHolds(s: Store, r: Reading) {
    && r.id in s.sessions
    && s.sessions[r.id].family == r.session.family
    && s.sessions[r.id].tokenHash == r.session.tokenHash
    && s.sessions[r.id].user == r.session.user
    && s.sessions[r.id].organization == r.session.organization
    && s.sessions[r.id].expiresAt == r.session.expiresAt
    && (s.sessions[r.id].Live() ==> r.session.Live())
  }

  ghost predicate Inv(s: System) {
    && OneOwnerPerFamily(s.store)
    && OneLivePerFamily(s.store)
    && OneSessionPerHash(s.store)
    && (forall request :: request in s.readings ==> ReadingHolds(s.store, s.readings[request]))
  }

  // The sessions of s' are those of s, later: same identity, stamps never taken back.
  ghost predicate SessionsGrow(s: Store, s': Store) {
    forall id :: id in s.sessions ==> id in s'.sessions && Later(s.sessions[id], s'.sessions[id])
  }

  ghost predicate Later(a: Session, b: Session) {
    && b.(rotatedAt := a.rotatedAt, revokedAt := a.revokedAt, reason := a.reason) == a
    && (a.rotatedAt.Some? ==> b.rotatedAt == a.rotatedAt)
    && (a.revokedAt.Some? ==> b.revokedAt == a.revokedAt && b.reason == a.reason)
  }

  lemma FamilyRevocationGrows(s: Store, family: Id, at: Time, why: Reason)
    ensures SessionsGrow(s, s.RevokeFamily(family, at, why))
  {
  }

  lemma UserRevocationGrows(s: Store, organization: Id, user: Id, at: Time, why: Reason)
    ensures SessionsGrow(s, s.RevokeUser(organization, user, at, why))
  {
  }

  lemma StatusChangeGrows(s: Store, organization: Id, user: Id, block: bool, at: Time)
    ensures SessionsGrow(s, AfterStatusChange(s, organization, user, block, at))
  {
    UserRevocationGrows(s, organization, user, at, UserBlocked);
  }

  lemma ResetGrows(s: Store, id: Id, found: ResetRequest, passwordHash: Hash, at: Time)
    ensures SessionsGrow(s, AfterReset(s, id, found, passwordHash, at))
  {
    UserRevocationGrows(s, found.organization, found.user, at, PasswordReset);
  }

  lemma StepKeepsSessions(s: System, step: Step, s': System)
    requires Inv(s) && Next(s, step, s')
    ensures SessionsGrow(s.store, s'.store)
  {
    match step {
      case LoginStep(_, _, _, _, _, _, _) =>
      case ReadStep(_, _, _) =>
      case CommitStep(request) => CommitKeepsSessions(s.store, s.readings[request]);
      case LogoutStep(actor, at) =>
        if Owns(s.store, actor) {
          FamilyRevocationGrows(s.store, s.store.sessions[actor.session].family, at, Logout);
        }
      case StatusStep(organization, user, block, at) => StatusChangeGrows(s.store, organization, user, block, at);
      case ResetStep(id, found, passwordHash, at) => ResetGrows(s.store, id, found, passwordHash, at);
      case OtherStep(_) =>
    }
  }

  lemma CommitKeepsSessions(s: Store, r: Reading)
    requires ReadingHolds(s, r) && r.nextId !in s.sessions
    ensures SessionsGrow(s, AfterRefresh(s, r))
  {
  }

  ghost predicate RowsInv(s: Store) {
    OneOwnerPerFamily(s) && OneLivePerFamily(s) && OneSessionPerHash(s)
  }

  // Revocations only: no session comes or goes, and none comes back to life.
  lemma RevokingKeepsRows(s: Store, s': Store)
    requires RowsInv(s) && SessionsGrow(s, s') && s'.sessions.Keys == s.sessions.Keys
    ensures RowsInv(s')
  {
  }

  lemma ReadingsHoldLater(s: Store, s': Store, r: Reading)
    requires ReadingHolds(s, r) && SessionsGrow(s, s')
    ensures ReadingHolds(s', r)
  {
    assert Later(s.sessions[r.id], s'.sessions[r.id]);
  }

  lemma CommitKeepsRows(s: Store, r: Reading)
    requires RowsInv(s) && ReadingHolds(s, r) && r.nextId !in s.sessions && !s.HashTaken(r.nextHash)
    requires SessionsGrow(s, AfterRefresh(s, r))
    ensures RowsInv(AfterRefresh(s, r))
  {
    if !Succeeds(s, r) {
      RevokingKeepsRows(s, AfterRefresh(s, r));
    }
  }

  lemma StepKeepsRows(s: System, step: Step, s': System)
    requires Inv(s) && Next(s, step, s')
    ensures RowsInv(s'.store)
  {
    StepKeepsSessions(s, step, s');
    match step {
      case LoginStep(_, _, _, _, _, _, _) =>
      case CommitStep(request) => CommitKeepsRows(s.store, s.readings[request]);
      case ReadStep(_, _, _) =>
      case LogoutStep(_, _) => RevokingKeepsRows(s.store, s'.store);
      case StatusStep(_, _, _, _) => RevokingKeepsRows(s.store, s'.store);
      case ResetStep(_, _, _, _) => RevokingKeepsRows(s.store, s'.store);
      case OtherStep(_) =>
    }
  }

  lemma StepKeepsInv(s: System, step: Step, s': System)
    requires Inv(s) && Next(s, step, s')
    ensures Inv(s')
  {
    StepKeepsRows(s, step, s');
    StepKeepsSessions(s, step, s');
    forall request | request in s'.readings ensures ReadingHolds(s'.store, s'.readings[request]) {
      if request in s.readings {
        ReadingsHoldLater(s.store, s'.store, s.readings[request]);
      }
    }
  }

  // ---------- Revoked families ----------

  ghost predicate Names(s: Store, family: Id, id: Id) {
    id in s.sessions && s.sessions[id].family == family
  }

  // The family exists and every one of its sessions is revoked.
  ghost predicate Dead(s: Store, family: Id) {
    && (exists id :: Names(s, family, id))
    && (forall id :: Names(s, family, id) ==> s.sessions[id].revokedAt.Some?)
  }

  // No session of the family is added, and none comes back.
  lemma DeadStaysDead(s: System, step: Step, s': System, family: Id)
    requires Inv(s) && Next(s, step, s') && Dead(s.store, family)
    ensures Dead(s'.store, family)
    ensures forall id :: Names(s'.store, family, id) ==> Names(s.store, family, id)
  {
    StepKeepsSessions(s, step, s');
    var id :| Names(s.store, family, id);
    assert Names(s'.store, family, id);
    forall id | Names(s'.store, family, id) ensures Names(s.store, family, id) {
      if step.CommitStep? && id == s.readings[step.request].nextId {
        var r := s.readings[step.request];
        assert ReadingHolds(s.store, r);
        assert Names(s.store, r.session.family, r.id);
      }
    }
  }

  // The steps that revoke a family: a refresh that fails, a logout, a block, a reset.
  ghost predicate Revokes(s: System, step: Step, family: Id) {
    match step
    case CommitStep(request) =>
      request in s.readings && s.readings[request].session.family == family && !Succeeds(s.store, s.readings[request])
    case LogoutStep(actor, _) => Owns(s.store, actor) && s.store.sessions[actor.session].family == family
    case StatusStep(organization, user, block, _) =>
      block && MayChangeStatus(s.store, organization, user, block) && OwnedBy(s.store, family, organization, user)
    case ResetStep(id, found, _, _) =>
      MayConsume(s.store, id, found) && OwnedBy(s.store, family, found.organization, found.user)
    case _ => false
  }

  ghost predicate OwnedBy(s: Store, family: Id, organization: Id, user: Id) {
    exists id :: Names(s, family, id) && s.sessions[id].organization == organization && s.sessions[id].user == user
  }

  lemma RevokingStepKills(s: System, step: Step, s': System, family: Id)
    requires Inv(s) && Next(s, step, s') && Revokes(s, step, family)
    ensures Dead(s'.store, family)
  {
    StepKeepsSessions(s, step, s');
    var id: Id;
    match step {
      case CommitStep(request) =>
        assert ReadingHolds(s.store, s.readings[request]);
        id := s.readings[request].id;
      case LogoutStep(actor, _) => id := actor.session;
      case StatusStep(organization, user, _, _) =>
        id :| Names(s.store, family, id) && s.store.sessions[id].organization == organization
              && s.store.sessions[id].user == user;
      case ResetStep(_, found, _, _) =>
        id :| Names(s.store, family, id) && s.store.sessions[id].organization == found.organization
              && s.store.sessions[id].user == found.user;
    }
    assert Names(s.store, family, id);
    assert Names(s'.store, family, id);
    forall other | Names(s'.store, family, other) ensures s'.store.sessions[other].revokedAt.Some? {
      assert Names(s.store, family, other);
    }
  }

  // ---------- Whole runs ----------

  ghost predicate IsRun(states: seq<System>, steps: seq<Step>) {
    && |states| == |steps| + 1
    && states[0].store.sessions == map[] && states[0].readings == map[]
    && forall i :: 0 <= i < |steps| ==> StepAt(states, steps, i)
  }

  ghost predicate StepAt(states: seq<System>, steps: seq<Step>, i: nat)
    requires i < |steps| && |states| == |steps| + 1
  {
    Next(states[i], steps[i], states[i + 1])
  }

  lemma {:induction false} RunKeepsInv(states: seq<System>, steps: seq<Step>, i: nat)
    requires IsRun(states, steps) && i < |states|
    ensures Inv(states[i])
  {
    if i > 0 {
      RunKeepsInv(states, steps, i - 1);
      assert StepAt(states, steps, i - 1);
      StepKeepsInv(states[i - 1], steps[i - 1], states[i]);
    }
  }

  // In every interleaving, at every moment, a family has at most one usable refresh token.
  lemma OneLiveSessionPerFamily(states: seq<System>, steps: seq<Step>, i: nat, a: Id, b: Id)
    requires IsRun(states, steps) && i < |states|
    requires a in states[i].store.sessions && b in states[i].store.sessions
    requires states[i].store.sessions[a].family == states[i].store.sessions[b].family
    requires states[i].store.sessions[a].Live() && states[i].store.sessions[b].Live()
    ensures a == b
  {
    RunKeepsInv(states, steps, i);
  }

  lemma {:induction false} SessionsGrowOverRun(states: seq<System>, steps: seq<Step>, i: nat, j: nat)
    requires IsRun(states, steps) && i <= j < |states|
    ensures SessionsGrow(states[i].store, states[j].store)
    decreases j - i
  {
    if i < j {
      SessionsGrowOverRun(states, steps, i, j - 1);
      RunKeepsInv(states, steps, j - 1);
      assert StepAt(states, steps, j - 1);
      StepKeepsSessions(states[j - 1], steps[j - 1], states[j]);
    }
  }

  lemma {:induction false} DeadForever(states: seq<System>, steps: seq<Step>, i: nat, j: nat, family: Id)
    requires IsRun(states, steps) && i <= j < |states| && Dead(states[i].store, family)
    ensures Dead(states[j].store, family)
    ensures forall id :: Names(states[j].store, family, id) ==> Names(states[i].store, family, id)
    decreases j - i
  {
    if i < j {
      DeadForever(states, steps, i, j - 1, family);
      RunKeepsInv(states, steps, j - 1);
      assert StepAt(states, steps, j - 1);
      DeadStaysDead(states[j - 1], steps[j - 1], states[j], family);
    }
  }

  // Once a replay, an expiry, a logout, a block or a reset has revoked a family, no session is
  // ever created in it again, and the guard refuses every access token of the family for ever.
  lemma RevocationIsPermanent(states: seq<System>, steps: seq<Step>, i: nat, j: nat, family: Id)
    requires IsRun(states, steps) && i < j < |states| && Revokes(states[i], steps[i], family)
    ensures Dead(states[j].store, family)
    ensures forall id :: Names(states[j].store, family, id) ==> Names(states[i + 1].store, family, id)
    ensures forall token: AccessToken, now: Time :: Names(states[j].store, family, token.session)
              ==> !GuardAllows(states[j].store, token, now)
  {
    RunKeepsInv(states, steps, i);
    assert StepAt(states, steps, i);
    RevokingStepKills(states[i], steps[i], states[i + 1], family);
    DeadForever(states, steps, i + 1, j, family);
  }

  // Readings of one token are readings of one session, whenever each was made.
  lemma SameTokenSameSession(states: seq<System>, steps: seq<Step>, i: nat, j: nat, first: Reading, second: Reading)
    requires IsRun(states, steps) && i <= j < |states|
    requires ReadingHolds(states[i].store, first) && ReadingHolds(states[j].store, second)
    requires first.session.tokenHash == second.session.tokenHash
    ensures first.id == second.id
  {
    SessionsGrowOverRun(states, steps, i, j);
    assert Later(states[i].store.sessions[first.id], states[j].store.sessions[first.id]);
    RunKeepsInv(states, steps, j);
    assert OneSessionPerHash(states[j].store);
  }

  // Two refreshes with the same token, however they overlap: at most one succeeds, and when
  // both have committed the family has no live session, then or later.
  lemma RacingRefreshes(states: seq<System>, steps: seq<Step>, i: nat, j: nat)
    requires IsRun(states, steps) && i < j < |steps|
    requires steps[i].CommitStep? && steps[i].request in states[i].readings
    requires steps[j].CommitStep? && steps[j].request in states[j].readings
    requires states[i].readings[steps[i].request].session.tokenHash
             == states[j].readings[steps[j].request].session.tokenHash
    ensures !Succeeds(states[j].store, states[j].readings[steps[j].request])
    ensures forall k :: j < k < |states| ==> Dead(states[k].store, states[j].readings[steps[j].request].session.family)
  {
    var first, second := states[i].readings[steps[i].request], states[j].readings[steps[j].request];
    RunKeepsInv(states, steps, i);
    RunKeepsInv(states, steps, j);
    SameTokenSameSession(states, steps, i, j, first, second);
    assert StepAt(states, steps, i);
    SpentAfterCommit(states[i].store, first);
    SessionsGrowOverRun(states, steps, i + 1, j);
    assert ReadingHolds(states[j].store, second);
    assert Revokes(states[j], steps[j], second.session.family);
    forall k | j < k < |states| ensures Dead(states[k].store, second.session.family) {
      RevocationIsPermanent(states, steps, j, k, second.session.family);
    }
  }

  // Whatever its outcome, a commit leaves the session it had read unable to refresh again.
  lemma SpentAfterCommit(s: Store, r: Reading)
    requires ReadingHolds(s, r) && r.nextId !in s.sessions
    ensures r.id in AfterRefresh(s, r).sessions && !AfterRefresh(s, r).sessions[r.id].Live()
  {
  }

  // Undisturbed, a usable token does refresh: its session is spent, the family's only live
  // session is the new one, every other row is untouched, and the new access token is accepted.
  lemma RotationHandsOver(s: Store, hash: Hash, r: Reading, now: Time)
    requires Inv(System(s, map[])) && Reads(s, hash, r)
    requires r.session.Live() && r.identityActive && r.session.expiresAt > r.occurredAt
    requires r.nextId !in s.sessions && !s.HashTaken(r.nextHash)
    ensures Succeeds(s, r)
    ensures var s' := AfterRefresh(s, r);
            && (forall id :: Names(s', r.session.family, id) && s'.sessions[id].Live() <==> id == r.nextId)
            && (forall id :: id in s.sessions && id != r.id ==> id in s'.sessions && s'.sessions[id] == s.sessions[id])
            && s'.users == s.users && s'.resets == s.resets && s'.organizations == s.organizations
            && (now < r.nextExpiresAt ==>
                GuardAllows(s', AccessToken(r.session.user, r.session.organization, r.nextId), now))
  {
    assert Names(s, r.session.family, r.id);
  }

  // ---------- Blocked users ----------

  // Users stay in their organisation, and none becomes blocked.
  ghost predicate BlocksNobody(s: Store, t: Store) {
    forall u :: u in s.users ==>
      && u in t.users && t.users[u].organization == s.users[u].organization
      && (t.users[u].status == Blocked ==> s.users[u].status == Blocked)
  }

  // A session belongs to a user of its organisation, and is revoked once he is blocked.
  ghost predicate Entitled(s: Store, id: Id)
    requires id in s.sessions
  {
    var session := s.sessions[id];
    && session.user in s.users && s.users[session.user].organization == session.organization
    && (s.users[session.user].status == Blocked ==> session.revokedAt.Some?)
  }

  ghost predicate AllEntitled(s: Store) {
    forall id :: id in s.sessions ==> Entitled(s, id)
  }

  lemma LoginKeepsEntitled(s: Store, organization: Id, user: Id, at: Time, id: Id, family: Id,
                           hash: Hash, expiresAt: Time)
    requires AllEntitled(s) && id !in s.sessions
    ensures AllEntitled(AfterLogin(s, organization, user, at, id, family, hash, expiresAt))
  {
    var t := AfterLogin(s, organization, user, at, id, family, hash, expiresAt);
    forall other | other in t.sessions ensures Entitled(t, other) {
      assert other in s.sessions ==> Entitled(s, other);
    }
  }

  lemma CommitKeepsEntitled(s: Store, r: Reading)
    requires AllEntitled(s) && ReadingHolds(s, r) && r.nextId !in s.sessions
    ensures AllEntitled(AfterRefresh(s, r))
  {
    var t := AfterRefresh(s, r);
    assert Entitled(s, r.id);
    forall id | id in t.sessions ensures Entitled(t, id) {
      assert id in s.sessions ==> Entitled(s, id);
    }
  }

  lemma StatusChangeKeepsEntitled(s: Store, organization: Id, user: Id, block: bool, at: Time)
    requires AllEntitled(s)
    ensures AllEntitled(AfterStatusChange(s, organization, user, block, at))
  {
    var t := AfterStatusChange(s, organization, user, block, at);
    forall id | id in t.sessions ensures Entitled(t, id) {
      assert Entitled(s, id);
    }
  }

  lemma ResetKeepsEntitled(s: Store, id: Id, found: ResetRequest, passwordHash: Hash, at: Time)
    requires AllEntitled(s)
    ensures AllEntitled(AfterReset(s, id, found, passwordHash, at))
  {
    var t := AfterReset(s, id, found, passwordHash, at);
    forall other | other in t.sessions ensures Entitled(t, other) {
      assert Entitled(s, other);
    }
  }

  lemma OtherKeepsEntitled(s: Store, t: Store)
    requires AllEntitled(s) && BlocksNobody(s, t) && t.sessions == s.sessions
    ensures AllEntitled(t)
  {
    forall id | id in t.sessions ensures Entitled(t, id) {
      assert Entitled(s, id);
    }
  }

  lemma RevocationKeepsEntitled(s: Store, family: Id, at: Time, why: Reason)
    requires AllEntitled(s)
    ensures AllEntitled(s.RevokeFamily(family, at, why))
  {
    var t := s.RevokeFamily(family, at, why);
    forall id | id in t.sessions ensures Entitled(t, id) {
      assert Entitled(s, id);
    }
  }

  lemma StepKeepsEntitled(s: System, step: Step, s': System)
    requires Inv(s) && Next(s, step, s') && AllEntitled(s.store)
    requires step.OtherStep? ==> BlocksNobody(s.store, step.store)
    ensures AllEntitled(s'.store)
  {
    match step {
      case LoginStep(organization, user, at, id, family, hash, expiresAt) =>
        LoginKeepsEntitled(s.store, organization, user, at, id, family, hash, expiresAt);
      case ReadStep(_, _, _) =>
      case CommitStep(request) => CommitKeepsEntitled(s.store, s.readings[request]);
      case LogoutStep(actor, at) =>
        if Owns(s.store, actor) {
          RevocationKeepsEntitled(s.store, s.store.sessions[actor.session].family, at, Logout);
        }
      case StatusStep(organization, user, block, at) =>
        StatusChangeKeepsEntitled(s.store, organization, user, block, at);
      case ResetStep(id, found, passwordHash, at) => ResetKeepsEntitled(s.store, id, found, passwordHash, at);
      case OtherStep(store) => OtherKeepsEntitled(s.store, store);
    }
  }

  // Blocking happens by the block step alone.
  ghost predicate BlocksByStep(states: seq<System>, steps: seq<Step>)
    requires |states| == |steps| + 1
  {
    forall i :: 0 <= i < |steps| && steps[i].OtherStep? ==> BlocksNobody(states[i].store, steps[i].store)
  }

  lemma {:induction false} RunKeepsEntitled(states: seq<System>, steps: seq<Step>, i: nat)
    requires IsRun(states, steps) && BlocksByStep(states, steps) && i < |states|
    ensures AllEntitled(states[i].store)
  {
    if i > 0 {
      RunKeepsEntitled(states, steps, i - 1);
      RunKeepsInv(states, steps, i - 1);
      assert StepAt(states, steps, i - 1);
      StepKeepsEntitled(states[i - 1], steps[i - 1], states[i]);
    }
  }

  /** At every moment of every interleaving a blocked user has no unrevoked session, not even by a refresh
      that had read it before the block. */
  lemma BlockedUserHasNoSession(states: seq<System>, steps: seq<Step>, i: nat, id: Id)
    requires IsRun(states, steps) && BlocksByStep(states, steps) && i < |states| && id in states[i].store.sessions
    ensures var store, user := states[i].store, states[i].store.sessions[id].user;
            user in store.users && (store.users[user].status == Blocked ==> store.sessions[id].revokedAt.Some?)
  {
    RunKeepsEntitled(states, steps, i);
    assert Entitled(states[i].store, id);
  }

  // ---------- A race ----------

  // A login, two requests that both read its session, and the first commit.
  function RaceSession(): Session { Session(1, 1, 20, 30, 100, None, None, None) }

  function RaceReading(nextId: Id, nextHash: Hash): Reading {
    Reading(10, RaceSession(), true, 1, nextId, nextHash, 200)
  }

  function RaceStore(lastLoginAt: Option<Time>, sessions: map<Id, Session>): Store {
    Store(map[1 := true], map[1 := User(1, Active, false, 0, lastLoginAt)], sessions, map[])
  }

  lemma RaceLogin(s: System, t: System)
    requires s == System(RaceStore(None, map[]), map[])
    requires t == System(RaceStore(Some(0), map[10 := RaceSession()]), map[])
    ensures Next(s, LoginStep(1, 1, 0, 10, 20, 30, 100), t)
  {
  }

  lemma RaceRead(s: System, request: Id, r: Reading, t: System)
    requires s.store == RaceStore(Some(0), map[10 := RaceSession()]) && request !in s.readings
    requires r == RaceReading(r.nextId, r.nextHash)
    requires t == s.(readings := s.readings[request := r])
    ensures Next(s, ReadStep(request, 30, r), t)
  {
  }

  lemma RaceCommit(s: System, t: System)
    requires s == System(RaceStore(Some(0), map[10 := RaceSession()]),
                         map[7 := RaceReading(11, 31), 8 := RaceReading(12, 32)])
    requires t == System(RaceStore(Some(0), map[10 := RaceSession().(rotatedAt := Some(1)),
                                                11 := Successor(RaceReading(11, 31))]),
                         map[8 := RaceReading(12, 32)])
    ensures Succeeds(s.store, s.readings[7]) && Next(s, CommitStep(7), t)
  {
    assert s.readings - {7} == map[8 := RaceReading(12, 32)];
  }

  lemma RaceReplay(s: System)
    requires s == System(RaceStore(Some(0), map[10 := RaceSession().(rotatedAt := Some(1)),
                                                11 := Successor(RaceReading(11, 31))]),
                         map[8 := RaceReading(12, 32)])
    ensures Enabled(s, CommitStep(8)) && Revokes(s, CommitStep(8), 20)
  {
  }

  lemma FiveSteps(states: seq<System>, steps: seq<Step>)
    requires |states| == 6 && |steps| == 5 && states[0].store.sessions == map[] && states[0].readings == map[]
    requires Next(states[0], steps[0], states[1]) && Next(states[1], steps[1], states[2])
             && Next(states[2], steps[2], states[3])
    requires Next(states[3], steps[3], states[4]) && Next(states[4], steps[4], states[5])
    ensures IsRun(states, steps)
  {
    forall i | 0 <= i < |steps| ensures StepAt(states, steps, i) {
      assert i == 0 || i == 1 || i == 2 || i == 3 || i == 4;
    }
  }

  /** Such races do occur: there is a run in which the first commit succeeds and hands the family over,
      and the second revokes it. */
  lemma RacesOccur() returns (states: seq<System>, steps: seq<Step>)
    ensures IsRun(states, steps) && |steps| == 5
    ensures steps[3].CommitStep? && steps[4].CommitStep?
    ensures steps[3].request in states[3].readings && steps[4].request in states[4].readings
    ensures states[3].readings[steps[3].request].session.tokenHash
            == states[4].readings[steps[4].request].session.tokenHash
    ensures Succeeds(states[3].store, states[3].readings[steps[3].request])
    ensures Revokes(states[4], steps[4], states[4].readings[steps[4].request].session.family)
  {
    var first, second := RaceReading(11, 31), RaceReading(12, 32);
    var before := RaceStore(Some(0), map[10 := RaceSession()]);
    var after := RaceStore(Some(0), map[10 := RaceSession().(rotatedAt := Some(1)), 11 := Successor(first)]);
    var s0, s1 := System(RaceStore(None, map[]), map[]), System(before, map[]);
    var s2, s3 := System(before, map[7 := first]), System(before, map[7 := first, 8 := second]);
    var s4 := System(after, map[8 := second]);
    RaceLogin(s0, s1);
    RaceRead(s1, 7, first, s2);
    RaceRead(s2, 8, second, s3);
    RaceCommit(s3, s4);
    RaceReplay(s4);
    states := [s0, s1, s2, s3, s4, After(s4, CommitStep(8))];
    steps := [LoginStep(1, 1, 0, 10, 20, 30, 100), ReadStep(7, 30, first), ReadStep(8, 30, second),
              CommitStep(7), CommitStep(8)];
    FiveSteps(states, steps);
  }
}
