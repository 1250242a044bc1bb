/** Properties of the authentication steps: what each path of `login` and
    `verify_token` guarantees, the invariants every step keeps, and the
    one-time-token lifecycle across several steps. */
module AuthProperties {
  import opened Wrappers
  import opened Models
  import opened Decorators
  import opened Forms
  import opened Auth

  /** A pending second factor names an existing, active user. */
  predicate PendingUserActive(users: Users, s: Session) {
    s.twoFactorUserId.Some? ==>
      GetById(users, s.twoFactorUserId.value).Some? && GetById(users, s.twoFactorUserId.value).value.isActive
  }

  /** With unique ids, looking up a row's id finds that row. */
  lemma GetByIdOfRow(users: Users, u: User)
    requires UniqueIdentity(users)
    requires u in users
    ensures GetById(users, u.id) == Some(u)
  {
    var v := GetById(users, u.id).value;
    var i :| 0 <= i < |users| && users[i] == u;
    var j :| 0 <= j < |users| && users[j] == v;
    assert i == j;
  }

  /** `login_user` followed by `current_user`: an active row becomes the
      authenticated principal with its own role; an inactive one leaves the
      client exactly as authenticated (or not) as before. */
  lemma LoginUserAuthenticates(users: Users, s: Session, u: User)
    requires GetById(users, u.id) == Some(u)
    ensures u.isActive ==> CurrentUser(users, LoginUser(s, u)) == Authenticated(u.id, u.role)
    ensures !u.isActive ==> CurrentUser(users, LoginUser(s, u)) == CurrentUser(users, s)
  {
  }

  /** Appending a row does not change what an existing id finds. */
  lemma GetByIdAfterAppend(users: Users, u: User, id: nat)
    requires GetById(users, id).Some?
    ensures GetById(users + [u], id) == GetById(users, id)
  {
    var r := users + [u];
    var k := FirstMatch(users, HasId(id)).value;
    var k' := FirstMatch(r, HasId(id));
    assert HasId(id)(r[k]);
    assert forall j :: 0 <= j < k ==> r[j] == users[j];
  }

  /** An update that never turns an active row inactive keeps every session's
      pending user active. */
  lemma PendingActiveAfterUpdate(users: Users, v: User, t: Session)
    requires PendingUserActive(users, t)
    requires GetById(users, v.id).Some? && GetById(users, v.id).value.isActive ==> v.isActive
    ensures PendingUserActive(UpdateUser(users, v), t)
  {
    if t.twoFactorUserId.Some? {
      GetByIdAfterUpdate(users, v, t.twoFactorUserId.value);
    }
  }

  // ---------------------------------------------------------------- login

  /** Admin path: a correct password for the first admin whose username or NIA
      is the identifier logs that admin in at once, as an admin, activating the
      account if it was inactive; every failed-attempt counter is dropped and
      no second factor is involved. */
  lemma AdminLoginSucceeds(users: Users, s: Session, f: LoginForm)
    requires UniqueIdentity(users)
    requires CurrentUser(users, s).Anonymous? && LoginFormValid(f) && f.roleSelection == ADMIN
    requires CredentialsAccepted(users, AdminLookup(f.username), f.password)
    ensures var r := Login(users, s, Some(f));
      var u := FindUser(users, AdminLookup(f.username)).value;
      && r.outcome == AdminLoggedIn(u.id)
      && r.session == s.(userId := Some(u.id), failedLoginAttempts := map[])
      && GetById(r.users, u.id) == Some(u.(isActive := true))
      && CurrentUser(r.users, r.session) == Authenticated(u.id, ADMIN)
  {
    var u := FindUser(users, AdminLookup(f.username)).value;
    GetByIdOfRow(users, u);
    GetByIdAfterUpdate(users, u.(isActive := true), u.id);
    assert u.(isActive := true) == u || !u.isActive;
  }

  /** The admin path never records a pending second factor. */
  lemma AdminPathNeverPending(users: Users, s: Session, f: LoginForm)
    requires f.roleSelection == ADMIN
    ensures Login(users, s, Some(f)).session.twoFactorUserId == s.twoFactorUserId
  {
  }

  /** Member path: a correct password on an inactive account is refused with no
      pending second factor and no login, yet the failed-attempt map is dropped
      anyway because the reset comes before the activity check. */
  lemma InactiveMemberRefused(users: Users, s: Session, f: LoginForm)
    requires CurrentUser(users, s).Anonymous? && LoginFormValid(f) && f.roleSelection == ANGGOTA
    requires CredentialsAccepted(users, MemberLookup(f.username), f.password)
    requires !FindUser(users, MemberLookup(f.username)).value.isActive
    ensures var r := Login(users, s, Some(f));
      && r.outcome == AccountNotActive
      && r.users == users
      && r.session == s.(failedLoginAttempts := map[])
      && CurrentUser(r.users, r.session).Anonymous?
  {
  }

  /** Member path: a correct password on an active account records the member
      as the pending second factor and does not log in. */
  lemma ActiveMemberAwaitsToken(users: Users, s: Session, f: LoginForm)
    requires CurrentUser(users, s).Anonymous? && LoginFormValid(f) && f.roleSelection == ANGGOTA
    requires CredentialsAccepted(users, MemberLookup(f.username), f.password)
    requires FindUser(users, MemberLookup(f.username)).value.isActive
    ensures var r := Login(users, s, Some(f));
      var u := FindUser(users, MemberLookup(f.username)).value;
      && r.outcome == AwaitingAccessToken(u.id)
      && r.users == users
      && r.session == s.(failedLoginAttempts := map[], twoFactorUserId := Some(u.id))
      && CurrentUser(r.users, r.session).Anonymous?
  {
  }

  /** A failed primary check, on either path, leaves the table alone, adds one
      to exactly the counter `"role:identifier"` and changes nothing else in the
      session; the brute-force severity is used exactly when the new count is
      at least 3. */
  lemma FailedLoginCountsOneKey(users: Users, s: Session, f: LoginForm)
    requires CurrentUser(users, s).Anonymous? && LoginFormValid(f)
    requires f.roleSelection == ADMIN ==> !CredentialsAccepted(users, AdminLookup(f.username), f.password)
    requires f.roleSelection == ANGGOTA ==> !CredentialsAccepted(users, MemberLookup(f.username), f.password)
    ensures var r := Login(users, s, Some(f));
      var key := f.roleSelection + ":" + f.username;
      var before := if key in s.failedLoginAttempts then s.failedLoginAttempts[key] else 0;
      && r.users == users
      && r.outcome.InvalidCredentials?
      && r.session == s.(failedLoginAttempts := s.failedLoginAttempts[key := before + 1])
      && (r.outcome.severity == BruteForceSuspected <==> before + 1 >= 3)
  {
    var r := Login(users, s, Some(f));
    var key := f.roleSelection + ":" + f.username;
    assert r.session.failedLoginAttempts == s.failedLoginAttempts[key := r.session.failedLoginAttempts[key]];
  }

  /** Three failed logins in a row on one identifier, from a session with no
      count for it yet, warn of brute force on the third and not before. */
  lemma BruteForceOnThirdFailure(users: Users, s: Session, f: LoginForm)
    requires CurrentUser(users, s).Anonymous? && LoginFormValid(f)
    requires f.roleSelection == ADMIN ==> !CredentialsAccepted(users, AdminLookup(f.username), f.password)
    requires f.roleSelection == ANGGOTA ==> !CredentialsAccepted(users, MemberLookup(f.username), f.password)
    requires f.roleSelection + ":" + f.username !in s.failedLoginAttempts
    ensures var r1 := Login(users, s, Some(f));
      var r2 := Login(r1.users, r1.session, Some(f));
      var r3 := Login(r2.users, r2.session, Some(f));
      && r1.outcome == InvalidCredentials(LoginFailed)
      && r2.outcome == InvalidCredentials(LoginFailed)
      && r3.outcome == InvalidCredentials(BruteForceSuspected)
  {
    var key := f.roleSelection + ":" + f.username;
    FailedLoginCountsOneKey(users, s, f);
    var r1 := Login(users, s, Some(f));
    assert r1.session.userId == s.userId;
    FailedLoginCountsOneKey(users, r1.session, f);
    var r2 := Login(r1.users, r1.session, Some(f));
    assert r2.session.userId == s.userId;
    FailedLoginCountsOneKey(users, r2.session, f);
  }

  /** Any successful primary check drops the whole failed-attempt map, not just
      the counter of the identifier that succeeded. */
  lemma CorrectPasswordClearsAllCounters(users: Users, s: Session, f: LoginForm)
    requires CurrentUser(users, s).Anonymous? && LoginFormValid(f)
    requires f.roleSelection == ADMIN ==> CredentialsAccepted(users, AdminLookup(f.username), f.password)
    requires f.roleSelection == ANGGOTA ==> CredentialsAccepted(users, MemberLookup(f.username), f.password)
    ensures Login(users, s, Some(f)).session.failedLoginAttempts == map[]
  {
  }

  /** Only an existing, active member whose username was given can become the
      pending second factor of a session. */
  lemma OnlyActiveMembersBecomePending(users: Users, s: Session, form: Option<LoginForm>)
    requires UniqueIdentity(users)
    ensures var r := Login(users, s, form);
      r.session.twoFactorUserId != s.twoFactorUserId ==>
        && r.session.twoFactorUserId.Some?
        && var u := GetById(users, r.session.twoFactorUserId.value);
        && u.Some? && u.value.isActive && u.value.role == ANGGOTA
        && u.value.username == form.value.username
        && CheckPassword(u.value, form.value.password)
  {
    var r := Login(users, s, form);
    if r.session.twoFactorUserId != s.twoFactorUserId {
      var u := FindUser(users, MemberLookup(form.value.username)).value;
      GetByIdOfRow(users, u);
    }
  }

  // ---------------------------------------------------------- verify_token

  /** The pending user of an anonymous session that submitted a code. */
  predicate SubmittedFor(users: Users, s: Session, u: User) {
    && CurrentUser(users, s).Anonymous?
    && s.twoFactorUserId.Some?
    && GetById(users, s.twoFactorUserId.value) == Some(u)
  }

  /** A token that is missing or already used never authenticates, whatever the
      code and the time: the check precedes both the expiry and the code check. */
  lemma UsedTokenNeverAuthenticates(users: Users, s: Session, u: User, now: nat, code: string)
    requires SubmittedFor(users, s, u)
    requires u.accessTokenHash.None? || u.accessTokenUsed
    ensures VerifyToken(users, s, now, Some(code)) == AuthStep(users, s, TokenUnavailable)
  {
  }

  /** An unused token strictly past its expiration is refused and cleared: hash
      and expiration become NULL, the used flag and the session (so the pending
      second factor) stay as they were. */
  lemma ExpiredTokenIsCleared(users: Users, s: Session, u: User, now: nat, code: string)
    requires SubmittedFor(users, s, u)
    requires u.accessTokenHash.Some? && !u.accessTokenUsed
    requires u.accessTokenExpiration.Some? && now > u.accessTokenExpiration.value
    ensures var r := VerifyToken(users, s, now, Some(code));
      && r.outcome == TokenExpired
      && r.session == s
      && GetById(r.users, u.id) == Some(u.(accessTokenHash := None, accessTokenExpiration := None))
  {
    GetByIdAfterUpdate(users, u.(accessTokenHash := None, accessTokenExpiration := None), u.id);
  }

  /** Once an expired token was cleared, every later attempt of that session
      fails on the missing hash, whatever the code and the time. */
  lemma ExpiredTokenStaysDead(users: Users, s: Session, u: User, now: nat, code: string,
                              later: nat, code2: string)
    requires SubmittedFor(users, s, u)
    requires u.accessTokenHash.Some? && !u.accessTokenUsed
    requires u.accessTokenExpiration.Some? && now > u.accessTokenExpiration.value
    ensures var r := VerifyToken(users, s, now, Some(code));
      VerifyToken(r.users, r.session, later, Some(code2)).outcome == TokenUnavailable
  {
    var cleared := u.(accessTokenHash := None, accessTokenExpiration := None);
    ExpiredTokenIsCleared(users, s, u, now, code);
    if s.userId.Some? {
      GetByIdAfterUpdate(users, cleared, s.userId.value);
    }
  }

  /** The expiration instant itself is still in time: a correct code submitted
      exactly at the expiration is accepted. */
  lemma TokenValidAtExpirationInstant(users: Users, s: Session, u: User, code: string)
    requires SubmittedFor(users, s, u)
    requires u.accessTokenHash.Some? && !u.accessTokenUsed && u.accessTokenExpiration.Some?
    requires CheckAccessToken(u, code)
    ensures VerifyToken(users, s, u.accessTokenExpiration.value, Some(code)).outcome == TokenAccepted
  {
  }

  /** A correct code on a present, unused, unexpired token marks it used, clears
      the pending second factor and logs the member in, provided (as every step
      keeps it so) the pending user is active. */
  lemma CorrectCodeLogsIn(users: Users, s: Session, u: User, now: nat, code: string)
    requires SubmittedFor(users, s, u) && PendingUserActive(users, s)
    requires u.accessTokenHash.Some? && !u.accessTokenUsed
    requires u.accessTokenExpiration.None? || now <= u.accessTokenExpiration.value
    requires CheckAccessToken(u, code)
    ensures var r := VerifyToken(users, s, now, Some(code));
      && r.outcome == TokenAccepted
      && r.session == s.(userId := Some(u.id), twoFactorUserId := None)
      && GetById(r.users, u.id) == Some(u.(accessTokenUsed := true))
      && CurrentUser(r.users, r.session) == Authenticated(u.id, u.role)
  {
    GetByIdAfterUpdate(users, u.(accessTokenUsed := true), u.id);
  }

  /** A wrong code changes nothing: the table, the session and the pending
      second factor stay. */
  lemma WrongCodeChangesNothing(users: Users, s: Session, u: User, now: nat, code: string)
    requires SubmittedFor(users, s, u)
    requires u.accessTokenHash.Some? && !u.accessTokenUsed
    requires u.accessTokenExpiration.None? || now <= u.accessTokenExpiration.value
    requires !CheckAccessToken(u, code)
    ensures VerifyToken(users, s, now, Some(code)) == AuthStep(users, s, TokenRejected)
  {
  }

  /** A code that was accepted once is never accepted again: any session that
      later has the same member pending fails on the used flag, until an admin
      issues a new token. */
  lemma AcceptedTokenCannotBeReplayed(users: Users, s: Session, u: User, now: nat, code: string,
                                      t: Session, later: nat, code2: string)
    requires SubmittedFor(users, s, u)
    requires VerifyToken(users, s, now, Some(code)).outcome == TokenAccepted
    requires var r := VerifyToken(users, s, now, Some(code));
      CurrentUser(r.users, t).Anonymous? && t.twoFactorUserId == Some(u.id)
    ensures var r := VerifyToken(users, s, now, Some(code));
      VerifyToken(r.users, t, later, Some(code2)).outcome == TokenUnavailable
  {
    GetByIdAfterUpdate(users, u.(accessTokenUsed := true), u.id);
  }

  // -------------------------------------------------- approve and reissue

  /** Approving an inactive user activates it and installs a fresh, unused
      token for `code` that expires 300 seconds after `now`; approving an
      active user changes nothing. */
  lemma ApproveInstallsFreshToken(users: Users, admin: Session, userId: nat, code: string, now: nat)
    requires AdminGuard(users, admin) == Allow
    requires GetById(users, userId).Some?
    ensures var r := ApproveUser(users, admin, userId, code, now);
      var u := GetById(users, userId).value;
      && (u.isActive ==> r == AdminStep(users, AlreadyActive))
      && (!u.isActive ==>
            && r.outcome == Approved
            && var v := GetById(r.users, userId).value;
            && v.isActive && !v.accessTokenUsed
            && v.accessTokenExpiration == Some(now + 300)
            && (forall t :: CheckAccessToken(v, t) <==> t == code)
            && v.username == u.username && v.nia == u.nia && v.role == u.role
            && v.passwordHash == u.passwordHash)
  {
    var u := GetById(users, userId).value;
    var approved := SetAccessToken(u.(isActive := true), code, now, DEFAULT_TOKEN_LIFETIME);
    GetByIdAfterUpdate(users, approved, userId);
  }

  /** Reissuing replaces any token of an existing user: afterwards only the new
      code verifies, so the previously issued one stops working, and the token
      is unused and expires 300 seconds after `now`. */
  lemma ReissueInvalidatesOldCode(users: Users, admin: Session, userId: nat, code: string, now: nat,
                                  oldCode: string)
    requires AdminGuard(users, admin) == Allow
    requires GetById(users, userId).Some?
    requires oldCode != code
    ensures var r := ReissueToken(users, admin, userId, code, now);
      var v := GetById(r.users, userId).value;
      && r.outcome == TokenReissued
      && !CheckAccessToken(v, oldCode) && CheckAccessToken(v, code)
      && !v.accessTokenUsed && v.accessTokenExpiration == Some(now + 300)
      && v.isActive == GetById(users, userId).value.isActive
  {
    var u := GetById(users, userId).value;
    GetByIdAfterUpdate(users, SetAccessToken(u, code, now, DEFAULT_TOKEN_LIFETIME), userId);
  }

  // ----------------------------------------------------------- invariants

  /** The table and session invariant every step keeps: unique keys, and a
      pending second factor naming an existing active user. */
  predicate Invariant(users: Users, s: Session) {
    UniqueIdentity(users) && PendingUserActive(users, s)
  }

  /** Activating a stored row keeps the invariant for any two sessions. */
  lemma ActivationKeepsInvariant(users: Users, u: User, s: Session, t: Session)
    requires Invariant(users, s) && Invariant(users, t) && u in users
    ensures Invariant(UpdateUser(users, u.(isActive := true)), s)
    ensures Invariant(UpdateUser(users, u.(isActive := true)), t)
  {
    GetByIdOfRow(users, u);
    UpdateKeepsUnique(users, u.(isActive := true));
    PendingActiveAfterUpdate(users, u.(isActive := true), s);
    PendingActiveAfterUpdate(users, u.(isActive := true), t);
  }

  /** `login` keeps the invariant for the client's own session and for any
      other client's session `t`. */
  lemma LoginKeepsInvariant(users: Users, s: Session, t: Session, form: Option<LoginForm>)
    requires Invariant(users, s) && Invariant(users, t)
    ensures var r := Login(users, s, form);
      Invariant(r.users, r.session) && Invariant(r.users, t)
  {
    var r := Login(users, s, form);
    if r.outcome.AdminLoggedIn? {
      var u := FindUser(users, AdminLookup(form.value.username)).value;
      ActivationKeepsInvariant(users, u, s, t);
    } else if r.session.twoFactorUserId != s.twoFactorUserId {
      OnlyActiveMembersBecomePending(users, s, form);
    }
  }

  /** `verify_token` keeps the invariant for both sessions: it only touches the
      token columns of the pending user. */
  lemma VerifyTokenKeepsInvariant(users: Users, s: Session, t: Session, now: nat, code: Option<string>)
    requires Invariant(users, s) && Invariant(users, t)
    ensures var r := VerifyToken(users, s, now, code);
      Invariant(r.users, r.session) && Invariant(r.users, t)
  {
    var r := VerifyToken(users, s, now, code);
    if r.outcome == TokenExpired {
      var u := GetById(users, s.twoFactorUserId.value).value;
      var v := u.(accessTokenHash := None, accessTokenExpiration := None);
      GetByIdOfRow(users, u);
      UpdateKeepsUnique(users, v);
      PendingActiveAfterUpdate(users, v, s);
      PendingActiveAfterUpdate(users, v, t);
    } else if r.outcome == TokenAccepted {
      var u := GetById(users, s.twoFactorUserId.value).value;
      var v := u.(accessTokenUsed := true);
      GetByIdOfRow(users, u);
      UpdateKeepsUnique(users, v);
      PendingActiveAfterUpdate(users, v, t);
    }
  }

  /** `approve_user` keeps the invariant for every session. */
  lemma ApproveKeepsInvariant(users: Users, admin: Session, t: Session, id: nat, code: string, now: nat)
    requires Invariant(users, t)
    ensures Invariant(ApproveUser(users, admin, id, code, now).users, t)
  {
    var r := ApproveUser(users, admin, id, code, now);
    if r.outcome == Approved {
      var u := GetById(users, id).value;
      var v := SetAccessToken(u.(isActive := true), code, now, DEFAULT_TOKEN_LIFETIME);
      GetByIdOfRow(users, u);
      UpdateKeepsUnique(users, v);
      PendingActiveAfterUpdate(users, v, t);
    }
  }

  /** `reissue_token` keeps the invariant for every session. */
  lemma ReissueKeepsInvariant(users: Users, admin: Session, t: Session, id: nat, code: string, now: nat)
    requires Invariant(users, t)
    ensures Invariant(ReissueToken(users, admin, id, code, now).users, t)
  {
    var r := ReissueToken(users, admin, id, code, now);
    if r.outcome == TokenReissued {
      var u := GetById(users, id).value;
      var v := SetAccessToken(u, code, now, DEFAULT_TOKEN_LIFETIME);
      GetByIdOfRow(users, u);
      UpdateKeepsUnique(users, v);
      PendingActiveAfterUpdate(users, v, t);
    }
  }

  /** `logout` keeps the invariant: it changes no row and leaves the pending
      second factor where it was. */
  lemma LogoutKeepsInvariant(users: Users, s: Session, t: Session)
    requires Invariant(users, s) && Invariant(users, t)
    ensures var r := Logout(users, s);
      Invariant(r.users, r.session) && Invariant(r.users, t)
  {
  }

  /** `register` keeps the invariant for every session: the new row has a fresh
      id, username and NIA, and appending does not change existing lookups. */
  lemma RegisterKeepsInvariant(users: Users, s: Session, t: Session, form: Option<RegistrationForm>)
    requires Invariant(users, t)
    ensures Invariant(Register(users, s, form).users, t)
  {
    var r := Register(users, s, form);
    if r.outcome.Registered? {
      var u := r.users[|users|];
      assert r.users == users + [u];
      AppendKeepsUnique(users, u);
      if t.twoFactorUserId.Some? {
        GetByIdAfterAppend(users, u, t.twoFactorUserId.value);
      }
    }
  }

  /** A member whose username no other row carries, logging in with the right
      password from a fresh session, is recorded as the pending second factor. */
  lemma UniqueMemberLogin(users: Users, v: User, password: string)
    requires v in users && v.role == ANGGOTA && v.isActive && CheckPassword(v, password)
    requires forall w :: w in users && w.username == v.username ==> w == v
    requires DataRequired(v.username) && DataRequired(password)
    ensures Login(users, EmptySession, Some(LoginForm(v.username, password, ANGGOTA))) ==
      AuthStep(users, EmptySession.(twoFactorUserId := Some(v.id)), AwaitingAccessToken(v.id))
  {
    assert ANGGOTA[0] == 'a';
    assert !Text.Blank(ANGGOTA);
    assert FindUser(users, MemberLookup(v.username)) == Some(v) by {
      assert MemberLookup(v.username)(v);
    }
  }

  /** What registration leaves behind for the rest of the path: the new row is
      the only one with its id and its username, and an admin is still an admin. */
  lemma RegistrationStep(users: Users, admin: Session, f: RegistrationForm)
    requires UniqueIdentity(users) && AdminGuard(users, admin) == Allow
    requires RegistrationValid(users, f)
    ensures var r := Register(users, EmptySession, Some(f));
      && r.outcome.Registered?
      && UniqueIdentity(r.users)
      && AdminGuard(r.users, admin) == Allow
      && var u := r.users[|users|];
      && u.id == r.outcome.newId && u.username == f.username
      && u.role == ANGGOTA && !u.isActive && CheckPassword(u, f.password)
      && GetById(r.users, r.outcome.newId) == Some(u)
      && (forall w :: w in r.users && w.username == f.username ==> w == u)
  {
    var r := Register(users, EmptySession, Some(f));
    var u := r.users[|users|];
    assert r.users == users + [u];
    AppendKeepsUnique(users, u);
    GetByIdOfRow(r.users, u);
    if admin.userId.Some? {
      GetByIdAfterAppend(users, u, admin.userId.value);
    }
  }

  /** Approving an inactive member whose username no other row carries: the
      row gets the new token, and is still the only one with that username. */
  lemma ApprovalStep(users: Users, admin: Session, u: User, code: string, now: nat)
    requires AdminGuard(users, admin) == Allow
    requires GetById(users, u.id) == Some(u) && !u.isActive
    requires forall w :: w in users && w.username == u.username ==> w == u
    ensures var r := ApproveUser(users, admin, u.id, code, now);
      var v := SetAccessToken(u.(isActive := true), code, now, DEFAULT_TOKEN_LIFETIME);
      && r.outcome == Approved
      && v.id == u.id && v.username == u.username && v.role == u.role && v.isActive
      && v.passwordHash == u.passwordHash
      && v.accessTokenHash.Some? && !v.accessTokenUsed
      && v.accessTokenExpiration == Some(now + DEFAULT_TOKEN_LIFETIME) && CheckAccessToken(v, code)
      && GetById(r.users, u.id) == Some(v)
      && (forall w :: w in r.users && w.username == u.username ==> w == v)
  {
    var r := ApproveUser(users, admin, u.id, code, now);
    var v := SetAccessToken(u.(isActive := true), code, now, DEFAULT_TOKEN_LIFETIME);
    GetByIdAfterUpdate(users, v, u.id);
    forall w | w in r.users && w.username == u.username
      ensures w == v
    {
      var k :| 0 <= k < |r.users| && r.users[k] == w;
      assert users[k] in users;
    }
  }

  /** The whole path of a new member: a valid registration, an admin approving
      the new id with `code`, a login with the registered username and
      password, and `code` submitted no later than 300 seconds after the
      approval end with the member logged in under the new id. */
  lemma RegisteredMemberJourney(users: Users, admin: Session, f: RegistrationForm,
                                code: string, now: nat, later: nat)
    requires UniqueIdentity(users)
    requires AdminGuard(users, admin) == Allow
    requires RegistrationValid(users, f)
    requires later <= now + DEFAULT_TOKEN_LIFETIME
    ensures var r1 := Register(users, EmptySession, Some(f));
      && r1.outcome.Registered?
      && var id := r1.outcome.newId;
      && var r2 := ApproveUser(r1.users, admin, id, code, now);
      && r2.outcome == Approved
      && var r3 := Login(r2.users, EmptySession, Some(LoginForm(f.username, f.password, ANGGOTA)));
      && r3.outcome == AwaitingAccessToken(id)
      && var r4 := VerifyToken(r3.users, r3.session, later, Some(code));
      && r4.outcome == TokenAccepted
      && CurrentUser(r4.users, r4.session) == Authenticated(id, ANGGOTA)
  {
    RegistrationStep(users, admin, f);
    var r1 := Register(users, EmptySession, Some(f));
    var u := r1.users[|users|];
    ApprovalStep(r1.users, admin, u, code, now);
    var r2 := ApproveUser(r1.users, admin, u.id, code, now);
    var v := SetAccessToken(u.(isActive := true), code, now, DEFAULT_TOKEN_LIFETIME);
    UniqueMemberLogin(r2.users, v, f.password);
    var r3 := Login(r2.users, EmptySession, Some(LoginForm(f.username, f.password, ANGGOTA)));
    var pending := EmptySession.(twoFactorUserId := Some(u.id));
    assert r3 == AuthStep(r2.users, pending, AwaitingAccessToken(u.id));
    assert SubmittedFor(r2.users, pending, v);
    CorrectCodeLogsIn(r2.users, pending, v, later, code);
  }
}
