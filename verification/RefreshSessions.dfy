/**
 The transactions on refresh sessions: login, rotation by compare-and-set, replay detection,
 family revocation, logout, blocking and password reset, with the guard that reads the outcome.
 */
module RefreshSessions {
  import opened Wrappers

  type Id = nat      // UUIDs
  type Hash = nat    // SHA-256 of an opaque token
  type Time = int

  datatype UserStatus = Invited | Active | Blocked | Inactive

  datatype User = User(organization: Id, status: UserStatus, deleted: bool, passwordHash: Hash,
                       lastLoginAt: Option<Time>)

  datatype Reason = ReplayDetected | Expired | UserBlocked | Logout | PasswordReset

  datatype Session = Session(organization: Id, user: Id, family: Id, tokenHash: Hash, expiresAt: Time,
                             rotatedAt: Option<Time>, revokedAt: Option<Time>, reason: Option<Reason>)
  {
    // Neither spent by a rotation nor revoked: the one session of its family that can refresh.
    predicate Live() { rotatedAt.None? && revokedAt.None? }

    function Revoked(at: Time, why: Reason): Session {
      if revokedAt.None? then this.(revokedAt := Some(at), reason := Some(why)) else this
    }
  }

  datatype ResetRequest = ResetRequest(organization: Id, user: Id, tokenHash: Hash, expiresAt: Time,
                                       usedAt: Option<Time>)

  // The rows the protocol reads and writes. An organisation maps to "active and not deleted".
  datatype Store = Store(organizations: map<Id, bool>, users: map<Id, User>, sessions: map<Id, Session>,
                         resets: map<Id, ResetRequest>)
  {
    predicate OrganizationActive(id: Id) { id in organizations && organizations[id] }

    predicate UserActive(id: Id) { id in users && users[id].status == Active && !users[id].deleted }

    // One conditional update of many rows: revoke what is not yet revoked.
    function RevokeFamily(family: Id, at: Time, why: Reason): Store {
      this.(sessions := map id | id in sessions ::
        if sessions[id].family == family then sessions[id].Revoked(at, why) else sessions[id])
    }

    function RevokeUser(organization: Id, user: Id, at: Time, why: Reason): Store {
      this.(sessions := map id | id in sessions ::
        if sessions[id].organization == organization && sessions[id].user == user
        then sessions[id].Revoked(at, why) else sessions[id])
    }

    ghost predicate HashTaken(hash: Hash) {
      exists id :: id in sessions && sessions[id].tokenHash == hash
    }
  }

  // What a refresh remembers between its read and its commit.
  datatype Reading = Reading(id: Id, session: Session, identityActive: bool, occurredAt: Time,
                             nextId: Id, nextHash: Hash, nextExpiresAt: Time)

  datatype AccessToken = AccessToken(user: Id, organization: Id, session: Id)

  // ---------- The rows as a class that the repositories update in place ----------

  class AuthDatabase {
    var organizations: map<Id, bool>
    var users: map<Id, User>
    var sessions: map<Id, Session>
    var resets: map<Id, ResetRequest>

    function Rows(): Store
      reads this
    {
      Store(organizations, users, sessions, resets)
    }

    constructor (store: Store)
      ensures Rows() == store
    {
      organizations, users, sessions, resets := store.organizations, store.users, store.sessions, store.resets;
    }

    method MarkSuccessfulLogin(organization: Id, user: Id, at: Time) returns (updated: bool)
      modifies this`users
      ensures updated == MayLogIn(old(Rows()), organization, user)
      ensures updated <==>
                && user in old(users) && old(users)[user].organization == organization
                && old(users)[user].status == Active && !old(users)[user].deleted
                && organization in organizations && organizations[organization]
      ensures users == if updated then old(users)[user := old(users)[user].(lastLoginAt := Some(at))] else old(users)
    {
      updated := user in users && users[user].organization == organization && users[user].status == Active
        && !users[user].deleted && organization in organizations && organizations[organization];
      if updated {
        users := users[user := users[user].(lastLoginAt := Some(at))];
      }
    }

    method CreateRefreshSession(id: Id, session: Session)
      modifies this`sessions
      ensures sessions == old(sessions)[id := session]
    {
      sessions := sessions[id := session];
    }

    method MarkRefreshSessionRotated(id: Id, at: Time) returns (rotated: bool)
      modifies this`sessions
      ensures rotated == (id in old(sessions) && old(sessions)[id].Live() && old(sessions)[id].expiresAt > at)
      ensures sessions == if rotated then old(sessions)[id := old(sessions)[id].(rotatedAt := Some(at))]
                          else old(sessions)
    {
      rotated := id in sessions && sessions[id].rotatedAt.None? && sessions[id].revokedAt.None?
                 && sessions[id].expiresAt > at;
      if rotated {
        sessions := sessions[id := sessions[id].(rotatedAt := Some(at))];
      }
    }

    method RevokeTokenFamily(family: Id, at: Time, why: Reason)
      modifies this`sessions
      ensures Rows() == old(Rows()).RevokeFamily(family, at, why)
      ensures FamilyRevoked(old(Rows()), Rows(), family, at, why)
    {
      sessions := map id | id in sessions ::
        if sessions[id].family == family && sessions[id].revokedAt.None?
        then sessions[id].(revokedAt := Some(at), reason := Some(why)) else sessions[id];
      RevokeFamilyStamps(old(Rows()), family, at, why);
    }

    method RevokeSessions(organization: Id, user: Id, at: Time, why: Reason)
      modifies this`sessions
      ensures Rows() == old(Rows()).RevokeUser(organization, user, at, why)
      ensures UserRevoked(old(Rows()), Rows(), organization, user, at, why)
    {
      sessions := map id | id in sessions ::
        if sessions[id].organization == organization && sessions[id].user == user && sessions[id].revokedAt.None?
        then sessions[id].(revokedAt := Some(at), reason := Some(why)) else sessions[id];
      RevokeUserStamps(old(Rows()), organization, user, at, why);
    }

    method ChangeStatus(organization: Id, user: Id, from: set<UserStatus>, to: UserStatus) returns (changed: bool)
      modifies this`users
      ensures changed == (user in old(users) && old(users)[user].organization == organization
                          && !old(users)[user].deleted && old(users)[user].status in from)
      ensures users == if changed then old(users)[user := old(users)[user].(status := to)] else old(users)
    {
      changed := user in users && users[user].organization == organization && !users[user].deleted
                 && users[user].status in from;
      if changed {
        users := users[user := users[user].(status := to)];
      }
    }

    method ConsumeReset(id: Id, organization: Id, at: Time) returns (consumed: bool)
      modifies this`resets
      ensures consumed == (id in old(resets) && old(resets)[id].organization == organization
                           && old(resets)[id].usedAt.None?)
      ensures resets == if consumed then old(resets)[id := old(resets)[id].(usedAt := Some(at))] else old(resets)
    {
      consumed := id in resets && resets[id].organization == organization && resets[id].usedAt.None?;
      if consumed {
        resets := resets[id := resets[id].(usedAt := Some(at))];
      }
    }

    method SetPassword(organization: Id, user: Id, passwordHash: Hash)
      modifies this`users
      ensures users == if user in old(users) && old(users)[user].organization == organization
                          && old(users)[user].status == Active
                       then old(users)[user := old(users)[user].(passwordHash := passwordHash)] else old(users)
    {
      if user in users && users[user].organization == organization && users[user].status == Active {
        users := users[user := users[user].(passwordHash := passwordHash)];
      }
    }

    // ---------- The services: one transaction each ----------

    method Login(organization: Id, user: Id, at: Time, id: Id, family: Id, hash: Hash, expiresAt: Time)
      returns (granted: bool)
      modifies this
      ensures granted <==>
                && user in old(users) && old(users)[user].organization == organization
                && old(users)[user].status == Active && !old(users)[user].deleted
                && organization in old(organizations) && old(organizations)[organization]
      ensures !granted ==> Rows() == old(Rows())
      ensures granted ==> users == old(users)[user := old(users)[user].(lastLoginAt := Some(at))]
      ensures granted ==> sessions == old(sessions)[id := Session(organization, user, family, hash, expiresAt,
                                                                  None, None, None)]
      ensures organizations == old(organizations) && resets == old(resets)
      ensures Rows() == AfterLogin(old(Rows()), organization, user, at, id, family, hash, expiresAt)
    {
      granted := MarkSuccessfulLogin(organization, user, at);
      if granted {
        CreateRefreshSession(id, Session(organization, user, family, hash, expiresAt, None, None, None));
      }
    }

    // The first half of a refresh: the session a token stands for, and its owner as he is now.
    method FindRefreshSession(hash: Hash, at: Time, nextId: Id, nextHash: Hash, nextExpiresAt: Time)
      returns (found: Option<Reading>)
      ensures found.None? <==> forall id :: id in sessions ==> sessions[id].tokenHash != hash
      ensures found.Some? ==> Reads(Rows(), hash, found.value)
      ensures found.Some? ==>
                var r := found.value;
                && r.id in sessions && r.session == sessions[r.id] && r.session.tokenHash == hash
                && r.occurredAt == at
                && r.nextId == nextId && r.nextHash == nextHash && r.nextExpiresAt == nextExpiresAt
                && (r.identityActive <==>
                      && r.session.user in users && users[r.session.user].status == Active
                      && !users[r.session.user].deleted
                      && r.session.organization in organizations && organizations[r.session.organization])
    {
      if id :| id in sessions && sessions[id].tokenHash == hash {
        var session := sessions[id];
        var active := session.user in users && users[session.user].status == Active && !users[session.user].deleted
                      && session.organization in organizations && organizations[session.organization];
        return Some(Reading(id, session, active, at, nextId, nextHash, nextExpiresAt));
      }
      found := None;
    }

    method CommitRefresh(reading: Reading) returns (succeeded: bool)
      modifies this
      ensures succeeded == Succeeds(old(Rows()), reading)
      ensures succeeded <==>
                && reading.session.rotatedAt.None? && reading.session.revokedAt.None? && reading.identityActive
                && reading.session.expiresAt > reading.occurredAt
                && reading.id in old(sessions) && old(sessions)[reading.id].rotatedAt.None?
                && old(sessions)[reading.id].revokedAt.None? && old(sessions)[reading.id].expiresAt > reading.occurredAt
      ensures organizations == old(organizations) && users == old(users) && resets == old(resets)
      ensures succeeded ==> OneMoreSession(old(Rows()), Rows(), reading)
      ensures !succeeded ==>
                FamilyRevoked(old(Rows()), Rows(), reading.session.family, reading.occurredAt,
                              if reading.session.rotatedAt.Some? || reading.session.revokedAt.Some? then ReplayDetected
                              else if !reading.identityActive then UserBlocked
                              else if reading.session.expiresAt <= reading.occurredAt then Expired
                              else ReplayDetected)
      ensures Rows() == AfterRefresh(old(Rows()), reading)
    {
      var session := reading.session;
      var replayed := session.rotatedAt.Some? || session.revokedAt.Some?;
      var expired := session.expiresAt <= reading.occurredAt;
      if replayed {
        RevokeTokenFamily(session.family, reading.occurredAt, ReplayDetected);
        return false;
      }
      if !reading.identityActive || expired {
        RevokeTokenFamily(session.family, reading.occurredAt, if reading.identityActive then Expired else UserBlocked);
        return false;
      }
      var rotated := MarkRefreshSessionRotated(reading.id, reading.occurredAt);
      if !rotated {
        RevokeTokenFamily(session.family, reading.occurredAt, ReplayDetected);
        return false;
      }
      CreateRefreshSession(reading.nextId, Successor(reading));
      return true;
    }

    method LogoutSession(actor: AccessToken, at: Time) returns (done: bool)
      modifies this
      ensures done <==>
                && actor.session in old(sessions) && old(sessions)[actor.session].organization == actor.organization
                && old(sessions)[actor.session].user == actor.user
      ensures !done ==> Rows() == old(Rows())
      ensures done ==> FamilyRevoked(old(Rows()), Rows(), old(sessions)[actor.session].family, at, Logout)
      ensures organizations == old(organizations) && users == old(users) && resets == old(resets)
      ensures Rows() == AfterLogout(old(Rows()), actor, at)
    {
      done := actor.session in sessions && sessions[actor.session].organization == actor.organization
        && sessions[actor.session].user == actor.user;
      if done {
        RevokeTokenFamily(sessions[actor.session].family, at, Logout);
      }
    }

    method ChangeUserStatus(organization: Id, user: Id, block: bool, at: Time) returns (changed: bool)
      modifies this
      ensures changed <==>
                && user in old(users) && old(users)[user].organization == organization && !old(users)[user].deleted
                && (if block then old(users)[user].status == Active || old(users)[user].status == Invited
                    else old(users)[user].status == Blocked)
      ensures !changed ==> Rows() == old(Rows())
      ensures organizations == old(organizations) && resets == old(resets)
      ensures changed ==> users == old(users)[user := old(users)[user].(status := if block then Blocked else Active)]
      ensures changed && block ==> UserRevoked(old(Rows()), Rows(), organization, user, at, UserBlocked)
      ensures !(changed && block) ==> sessions == old(sessions)
      ensures Rows() == AfterStatusChange(old(Rows()), organization, user, block, at)
    {
      changed := ChangeStatus(organization, user, if block then {Active, Invited} else {Blocked},
                              if block then Blocked else Active);
      if changed && block {
        RevokeSessions(organization, user, at, UserBlocked);
      }
    }

    method ResetUserPassword(id: Id, found: ResetRequest, passwordHash: Hash, at: Time) returns (applied: bool)
      modifies this
      ensures applied <==>
                id in old(resets) && old(resets)[id].organization == found.organization && old(resets)[id].usedAt.None?
      ensures !applied ==> Rows() == old(Rows())
      ensures organizations == old(organizations)
      ensures applied ==>
                users == if found.user in old(users) && old(users)[found.user].organization == found.organization
                            && old(users)[found.user].status == Active
                         then old(users)[found.user := old(users)[found.user].(passwordHash := passwordHash)]
                         else old(users)
      ensures applied ==> resets == old(resets)[id := old(resets)[id].(usedAt := Some(at))]
      ensures applied ==> UserRevoked(old(Rows()), Rows(), found.organization, found.user, at, PasswordReset)
      ensures Rows() == AfterReset(old(Rows()), id, found, passwordHash, at)
    {
      applied := ConsumeReset(id, found.organization, at);
      if applied {
        SetPassword(found.organization, found.user, passwordHash);
        RevokeSessions(found.organization, found.user, at, PasswordReset);
      }
    }

    // The open request a token stands for, whose user and organisation are active.
    method FindOpenReset(tokenHash: Hash, now: Time) returns (found: Option<Id>)
      ensures found.Some? ==> IsOpen(Rows(), found.value, tokenHash, now)
      ensures found.None? ==> forall id :: id in resets ==> !IsOpen(Rows(), id, tokenHash, now)
      ensures found.Some? ==>
                && found.value in resets && resets[found.value].tokenHash == tokenHash
                && resets[found.value].usedAt.None? && resets[found.value].expiresAt > now
                && var request := resets[found.value];
                   && request.user in users && users[request.user].organization == request.organization
                   && users[request.user].status == Active && !users[request.user].deleted
                   && request.organization in organizations && organizations[request.organization]
      ensures found.None? ==> forall id ::
                && id in resets && resets[id].tokenHash == tokenHash
                && resets[id].usedAt.None? && resets[id].expiresAt > now ==>
                !(resets[id].user in users && users[resets[id].user].organization == resets[id].organization
                  && users[resets[id].user].status == Active && !users[resets[id].user].deleted
                  && resets[id].organization in organizations && organizations[resets[id].organization])
    {
      if id :| id in resets && IsOpen(Rows(), id, tokenHash, now) {
        return Some(id);
      }
      found := None;
    }

    // A reset with no other request between the lookup and the transaction.
    method Reset(tokenHash: Hash, passwordHash: Hash, now: Time, usedAt: Time) returns (applied: bool)
      modifies this
      ensures applied <==> exists id :: id in old(resets) && IsOpen(old(Rows()), id, tokenHash, now)
      ensures !applied ==> Rows() == old(Rows())
      ensures applied ==> exists id :: id in old(resets) && IsOpen(old(Rows()), id, tokenHash, now)
                                       && ResetDone(old(Rows()), Rows(), id, passwordHash, usedAt)
    {
      var found := FindOpenReset(tokenHash, now);
      if found.None? {
        return false;
      }
      applied := ResetUserPassword(found.value, resets[found.value], passwordHash, usedAt);
    }

    method CanActivate(token: AccessToken, now: Time) returns (allowed: bool)
      ensures allowed == GuardAllows(Rows(), token, now)
      ensures allowed <==>
                && token.session in sessions && sessions[token.session].organization == token.organization
                && sessions[token.session].user == token.user
                && sessions[token.session].revokedAt.None? && sessions[token.session].expiresAt > now
                && token.user in users && users[token.user].status == Active && !users[token.user].deleted
                && token.organization in organizations && organizations[token.organization]
    {
      if token.session !in sessions {
        return false;
      }
      var session := sessions[token.session];
      if session.organization != token.organization || session.user != token.user || session.revokedAt.Some?
         || session.expiresAt <= now {
        return false;
      }
      if session.user !in users || users[session.user].status != Active || users[session.user].deleted {
        return false;
      }
      return session.organization in organizations && organizations[session.organization];
    }
  }

  // ---------- The same transactions as functions of the rows ----------

  predicate MayLogIn(s: Store, organization: Id, user: Id) {
    s.UserActive(user) && s.users[user].organization == organization && s.OrganizationActive(organization)
  }

  function AfterLogin(s: Store, organization: Id, user: Id, at: Time, id: Id, family: Id,
                      hash: Hash, expiresAt: Time): Store {
    if !MayLogIn(s, organization, user) then s
    else s.(users := s.users[user := s.users[user].(lastLoginAt := Some(at))],
            sessions := s.sessions[id := Session(organization, user, family, hash, expiresAt, None, None, None)])
  }

  // The read step: the session and whether its owner and organisation are active now.
  predicate Reads(s: Store, hash: Hash, r: Reading) {
    && r.id in s.sessions && s.sessions[r.id] == r.session && r.session.tokenHash == hash
    && r.identityActive == (s.UserActive(r.session.user) && s.OrganizationActive(r.session.organization))
  }

  function Successor(r: Reading): Session {
    Session(r.session.organization, r.session.user, r.session.family, r.nextHash, r.nextExpiresAt, None, None, None)
  }

  // A refresh succeeds exactly when what it read was usable and its session is still live.
  predicate Succeeds(s: Store, r: Reading) {
    && r.session.Live() && r.identityActive && r.session.expiresAt > r.occurredAt
    && r.id in s.sessions && s.sessions[r.id].Live() && s.sessions[r.id].expiresAt > r.occurredAt
  }

  function FailureReason(r: Reading): Reason {
    if !r.session.Live() then ReplayDetected
    else if !r.identityActive then UserBlocked
    else if r.session.expiresAt <= r.occurredAt then Expired
    else ReplayDetected
  }

  function AfterRefresh(s: Store, r: Reading): Store {
    if Succeeds(s, r)
    then s.(sessions := s.sessions[r.id := s.sessions[r.id].(rotatedAt := Some(r.occurredAt))]
                        [r.nextId := Successor(r)])
    else s.RevokeFamily(r.session.family, r.occurredAt, FailureReason(r))
  }

  // The rows after a rotation: the session read is spent, its successor is there, and nothing else moved.
  ghost predicate OneMoreSession(s: Store, t: Store, r: Reading) {
    && r.id in s.sessions && t.sessions.Keys == s.sessions.Keys + {r.nextId}
    && (forall id :: id in s.sessions && id != r.id && id != r.nextId ==> t.sessions[id] == s.sessions[id])
    && (r.id != r.nextId ==> t.sessions[r.id] == s.sessions[r.id].(rotatedAt := Some(r.occurredAt)))
    && t.sessions[r.nextId] == Session(r.session.organization, r.session.user, r.session.family,
                                       r.nextHash, r.nextExpiresAt, None, None, None)
  }

  // Every session named is revoked, with this stamp if it was not revoked before, and no other moved.
  ghost predicate StampedAt(a: Session, b: Session, named: bool, at: Time, why: Reason) {
    if named && a.revokedAt.None? then b == a.(revokedAt := Some(at), reason := Some(why)) else b == a
  }

  ghost predicate FamilyRevoked(s: Store, t: Store, family: Id, at: Time, why: Reason) {
    && t.sessions.Keys == s.sessions.Keys
    && forall id :: id in s.sessions ==>
          StampedAt(s.sessions[id], t.sessions[id], s.sessions[id].family == family, at, why)
  }

  ghost predicate UserRevoked(s: Store, t: Store, organization: Id, user: Id, at: Time, why: Reason) {
    && t.sessions.Keys == s.sessions.Keys
    && forall id :: id in s.sessions ==>
         StampedAt(s.sessions[id], t.sessions[id],
                   s.sessions[id].organization == organization && s.sessions[id].user == user, at, why)
  }

  lemma RevokeFamilyStamps(s: Store, family: Id, at: Time, why: Reason)
    ensures FamilyRevoked(s, s.RevokeFamily(family, at, why), family, at, why)
  {
  }

  lemma RevokeUserStamps(s: Store, organization: Id, user: Id, at: Time, why: Reason)
    ensures UserRevoked(s, s.RevokeUser(organization, user, at, why), organization, user, at, why)
  {
  }

  // A reset request that can be used now.
  predicate IsOpen(s: Store, id: Id, tokenHash: Hash, now: Time) {
    && id in s.resets && s.resets[id].tokenHash == tokenHash
    && s.resets[id].usedAt.None? && s.resets[id].expiresAt > now
    && s.UserActive(s.resets[id].user) && s.users[s.resets[id].user].organization == s.resets[id].organization
    && s.OrganizationActive(s.resets[id].organization)
  }

  // The rows after a reset: the request is used, its owner has the new password and no session left,
  // and nothing else moved.
  ghost predicate ResetDone(s: Store, t: Store, id: Id, passwordHash: Hash, at: Time)
    requires id in s.resets
  {
    var request := s.resets[id];
    && t.organizations == s.organizations
    && t.resets == s.resets[id := request.(usedAt := Some(at))]
    && request.user in s.users
    && t.users == s.users[request.user := s.users[request.user].(passwordHash := passwordHash)]
    && UserRevoked(s, t, request.organization, request.user, at, PasswordReset)
  }

  predicate Owns(s: Store, actor: AccessToken) {
    actor.session in s.sessions && s.sessions[actor.session].organization == actor.organization
    && s.sessions[actor.session].user == actor.user
  }

  function AfterLogout(s: Store, actor: AccessToken, at: Time): Store {
    if Owns(s, actor) then s.RevokeFamily(s.sessions[actor.session].family, at, Logout) else s
  }

  predicate MayChangeStatus(s: Store, organization: Id, user: Id, block: bool) {
    user in s.users && s.users[user].organization == organization && !s.users[user].deleted
    && s.users[user].status in (if block then {Active, Invited} else {Blocked})
  }

  function AfterStatusChange(s: Store, organization: Id, user: Id, block: bool, at: Time): Store {
    if !MayChangeStatus(s, organization, user, block) then s
    else
      var s' := s.(users := s.users[user := s.users[user].(status := if block then Blocked else Active)]);
      if block then s'.RevokeUser(organization, user, at, UserBlocked) else s'
  }

  predicate MayConsume(s: Store, id: Id, found: ResetRequest) {
    id in s.resets && s.resets[id].organization == found.organization && s.resets[id].usedAt.None?
  }

  function AfterReset(s: Store, id: Id, found: ResetRequest, passwordHash: Hash, at: Time): Store {
    if !MayConsume(s, id, found) then s
    else
      var users := if found.user in s.users && s.users[found.user].organization == found.organization
                      && s.users[found.user].status == Active
                   then s.users[found.user := s.users[found.user].(passwordHash := passwordHash)] else s.users;
      s.(users := users, resets := s.resets[id := s.resets[id].(usedAt := Some(at))])
       .RevokeUser(found.organization, found.user, at, PasswordReset)
  }

  predicate GuardAllows(s: Store, token: AccessToken, now: Time) {
    && Owns(s, token)
    && s.sessions[token.session].revokedAt.None?
    && s.sessions[token.session].expiresAt > now
    && s.UserActive(token.user) && s.OrganizationActive(token.organization)
  }
}
