/** The authentication routes of `app/routes/auth.py` as pure steps. The `users`
    table is shared by every client; each client has its own session. A member
    step maps (table, session, input, now) to (table', session', outcome); the
    admin actions map (table, admin session, input, now) to (table', outcome).
    Rendering, flash messages, logging text and rate limits are not modelled;
    only the log severity of a failed login is kept, as part of the outcome. */
module Auth {
  import opened Wrappers
  import opened Models
  import opened Decorators
  import opened Forms

  /** The session of one client (Flask keeps it in a signed cookie): the id
      `login_user` stored,
      `session['failed_login_attempts']` (an absent entry reads as the empty
      map) and `session['two_factor_user_id']`. */
  datatype Session = Session(
    userId: Option<nat>,
    failedLoginAttempts: map<string, nat>,
    twoFactorUserId: Option<nat>)

  /** A session with nothing in it. */
  const EmptySession := Session(None, map[], None)

  /** `current_user` as the guards see it: the user loader maps the stored id
      back to a row, and `is_authenticated`, which `UserMixin` (Flask-Login 0.6
      and later) takes from the `is_active` column, holds only for an active
      row. An id without a row, or with an inactive one, reads as anonymous. */
  function CurrentUser(users: Users, s: Session): (p: Principal)
    ensures p.Authenticated? <==>
      s.userId.Some? && GetById(users, s.userId.value).Some? && GetById(users, s.userId.value).value.isActive
    ensures p.Authenticated? ==> p.id == s.userId.value && p.role == GetById(users, p.id).value.role
  {
    match s.userId
    case None => Anonymous
    case Some(id) =>
      match GetById(users, id)
      case None => Anonymous
      case Some(u) => if u.isActive then Authenticated(u.id, u.role) else Anonymous
  }

  /** `login_user(user)`: Flask-Login refuses an inactive user (without `force`)
      and then leaves the session as it was. */
  function LoginUser(s: Session, u: User): (s': Session)
    ensures u.isActive ==> s' == s.(userId := Some(u.id))
    ensures !u.isActive ==> s' == s
  {
    if u.isActive then s.(userId := Some(u.id)) else s
  }

  datatype Dashboard = AdminDashboard | AnggotaDashboard

  /** Where an already-logged-in user is sent: the admin dashboard for role
      `'admin'`, the member dashboard for any other role. */
  function DashboardFor(role: string): Dashboard {
    if role == ADMIN then AdminDashboard else AnggotaDashboard
  }

  /** The log level of a failed login: a plain warning, or the brute-force warning. */
  datatype Severity = LoginFailed | BruteForceSuspected

  /** How many failures on one key make the brute-force warning. */
  const BRUTE_FORCE_THRESHOLD: nat := 3

  datatype LoginOutcome =
    | AlreadyLoggedIn(dashboard: Dashboard)
    | ShowLoginForm
    | AdminLoggedIn(adminId: nat)
    | InvalidCredentials(severity: Severity)
    | AccountNotActive
    | AwaitingAccessToken(memberId: nat)

  datatype TokenOutcome =
    | TokenPageWhileLoggedIn(dashboard: Dashboard)
    | NoPendingLogin
    | PendingUserMissing
    | ShowTokenForm
    | TokenUnavailable
    | TokenExpired
    | TokenAccepted
    | TokenRejected

  /** The result of a step taken by one client. */
  datatype AuthStep<O> = AuthStep(users: Users, session: Session, outcome: O)

  /** The counter key `f"{role}:{identifier}"`. */
  function AttemptKey(role: string, identifier: string): string {
    role + ":" + identifier
  }

  /** The failed-attempt bookkeeping: the counter under `key` grows by one, no
      other counter and nothing else in the session changes, and the brute-force
      severity is chosen exactly when the new count reaches the threshold. */
  function RecordFailedAttempt(s: Session, key: string): (r: (Session, Severity))
    ensures r.0.failedLoginAttempts.Keys == s.failedLoginAttempts.Keys + {key}
    ensures r.0.failedLoginAttempts[key] ==
      (if key in s.failedLoginAttempts then s.failedLoginAttempts[key] else 0) + 1
    ensures forall k :: k in s.failedLoginAttempts && k != key ==>
      r.0.failedLoginAttempts[k] == s.failedLoginAttempts[k]
    ensures r.0.(failedLoginAttempts := s.failedLoginAttempts) == s
    ensures r.1 == BruteForceSuspected <==> r.0.failedLoginAttempts[key] >= BRUTE_FORCE_THRESHOLD
  {
    var attempts := s.failedLoginAttempts;
    var count := (if key in attempts then attempts[key] else 0) + 1;
    (s.(failedLoginAttempts := attempts[key := count]),
     if count >= BRUTE_FORCE_THRESHOLD then BruteForceSuspected else LoginFailed)
  }

  /** The admin lookup: role `'admin'` and the identifier as username or as NIA. */
  function AdminLookup(identifier: string): User -> bool {
    (u: User) => u.role == ADMIN && (u.username == identifier || u.nia == identifier)
  }

  /** The member lookup: the identifier as username, with role `'anggota'`. */
  function MemberLookup(identifier: string): User -> bool {
    (u: User) => u.username == identifier && u.role == ANGGOTA
  }

  /** The first row the lookup finds, provided the password checks against it. */
  predicate CredentialsAccepted(users: Users, lookup: User -> bool, password: string) {
    var found := FindUser(users, lookup);
    found.Some? && CheckPassword(found.value, password)
  }

  /** The admin branch of `login`. A correct password clears every failed-attempt
      counter, activates the account if needed and logs in without a second
      factor; anything else counts a failure. The pending second factor is never
      touched. */
  function AdminLogin(users: Users, s: Session, identifier: string, password: string): (r: AuthStep<LoginOutcome>)
    ensures r.session.twoFactorUserId == s.twoFactorUserId
    ensures r.outcome.AdminLoggedIn? <==> CredentialsAccepted(users, AdminLookup(identifier), password)
    ensures r.outcome.AdminLoggedIn? || r.outcome.InvalidCredentials?
    ensures r.outcome.AdminLoggedIn? ==>
      var u := FindUser(users, AdminLookup(identifier)).value;
      && u.role == ADMIN && (u.username == identifier || u.nia == identifier)
      && r.outcome.adminId == u.id
      && r.session == s.(userId := Some(u.id), failedLoginAttempts := map[])
      && r.users == (if u.isActive then users else UpdateUser(users, u.(isActive := true)))
    ensures r.outcome.InvalidCredentials? ==>
      r.users == users && (r.session, r.outcome.severity) == RecordFailedAttempt(s, AttemptKey(ADMIN, identifier))
  {
    var found := FindUser(users, AdminLookup(identifier));
    if found.Some? && CheckPassword(found.value, password) then
      var u := found.value;
      var users' := if !u.isActive then UpdateUser(users, u.(isActive := true)) else users;
      var s' := LoginUser(s.(failedLoginAttempts := map[]), u.(isActive := true));
      AuthStep(users', s', AdminLoggedIn(u.id))
    else
      var (s', severity) := RecordFailedAttempt(s, AttemptKey(ADMIN, identifier));
      AuthStep(users, s', InvalidCredentials(severity))
  }

  /** The member branch of `login`. A wrong password counts a failure. A correct
      one clears every failed-attempt counter first, then stops at an inactive
      account, and for an active one records the pending second factor without
      logging in. The table never changes. */
  function MemberLogin(users: Users, s: Session, identifier: string, password: string): (r: AuthStep<LoginOutcome>)
    ensures r.users == users
    ensures r.session.userId == s.userId
    ensures r.outcome.InvalidCredentials? <==> !CredentialsAccepted(users, MemberLookup(identifier), password)
    ensures r.outcome.InvalidCredentials? || r.outcome.AccountNotActive? || r.outcome.AwaitingAccessToken?
    ensures r.outcome.InvalidCredentials? ==>
      (r.session, r.outcome.severity) == RecordFailedAttempt(s, AttemptKey(ANGGOTA, identifier))
    ensures !r.outcome.InvalidCredentials? ==>
      var u := FindUser(users, MemberLookup(identifier)).value;
      && u.username == identifier && u.role == ANGGOTA
      && r.session.failedLoginAttempts == map[]
      && (r.outcome.AccountNotActive? <==> !u.isActive)
      && (r.outcome.AccountNotActive? ==> r.session.twoFactorUserId == s.twoFactorUserId)
      && (r.outcome.AwaitingAccessToken? ==> r.outcome.memberId == u.id && r.session.twoFactorUserId == Some(u.id))
  {
    var found := FindUser(users, MemberLookup(identifier));
    if !(found.Some? && CheckPassword(found.value, password)) then
      var (s', severity) := RecordFailedAttempt(s, AttemptKey(ANGGOTA, identifier));
      AuthStep(users, s', InvalidCredentials(severity))
    else
      var u := found.value;
      var s' := s.(failedLoginAttempts := map[]);
      if !u.isActive then AuthStep(users, s', AccountNotActive)
      else AuthStep(users, s'.(twoFactorUserId := Some(u.id)), AwaitingAccessToken(u.id))
  }

  /** `login`. `form` is `None` for a GET; a submitted form that fails its
      validators shows the form again. */
  function Login(users: Users, s: Session, form: Option<LoginForm>): (r: AuthStep<LoginOutcome>)
    ensures CurrentUser(users, s).Authenticated? ==>
      r == AuthStep(users, s, AlreadyLoggedIn(DashboardFor(CurrentUser(users, s).role)))
    ensures r.outcome.ShowLoginForm? ==> r.users == users && r.session == s
    ensures r.outcome.AdminLoggedIn? || r.outcome.InvalidCredentials? ==>
      form.Some? && LoginFormValid(form.value)
    ensures (r.users, r.session) != (users, s) || r.outcome.AccountNotActive? || r.outcome.AwaitingAccessToken? ==>
      form.Some? && LoginFormValid(form.value)
    ensures r.session.twoFactorUserId != s.twoFactorUserId ==>
      && form.Some? && form.value.roleSelection == ANGGOTA
      && r.session.twoFactorUserId.Some?
      && r.outcome == AwaitingAccessToken(r.session.twoFactorUserId.value)
  {
    var p := CurrentUser(users, s);
    if p.Authenticated? then AuthStep(users, s, AlreadyLoggedIn(DashboardFor(p.role)))
    else if form.None? || !LoginFormValid(form.value) then AuthStep(users, s, ShowLoginForm)
    else
      var f := form.value;
      if f.roleSelection == ADMIN then AdminLogin(users, s, f.username, f.password)
      else if f.roleSelection == ANGGOTA then MemberLogin(users, s, f.username, f.password)
      else AuthStep(users, s, ShowLoginForm)
  }

  /** The token check of `verify_token` once a pending user `u` was found and a
      code submitted, in `verify_token`'s order: a missing or used token, then
      expiry (strictly after the expiration instant, clearing hash and
      expiration), then the code itself. */
  function CheckToken(users: Users, s: Session, u: User, now: nat, code: string): (r: AuthStep<TokenOutcome>)
    ensures r.outcome in {TokenUnavailable, TokenExpired, TokenAccepted, TokenRejected}
    ensures r.outcome == TokenUnavailable <==> u.accessTokenHash.None? || u.accessTokenUsed
    ensures r.outcome == TokenExpired <==>
      && u.accessTokenHash.Some? && !u.accessTokenUsed
      && u.accessTokenExpiration.Some? && now > u.accessTokenExpiration.value
    ensures r.outcome == TokenAccepted <==>
      && u.accessTokenHash.Some? && !u.accessTokenUsed
      && (u.accessTokenExpiration.None? || now <= u.accessTokenExpiration.value)
      && CheckAccessToken(u, code)
    ensures r.outcome == TokenRejected <==>
      && u.accessTokenHash.Some? && !u.accessTokenUsed
      && (u.accessTokenExpiration.None? || now <= u.accessTokenExpiration.value)
      && !CheckAccessToken(u, code)
    ensures r.outcome in {TokenUnavailable, TokenRejected} ==> r.users == users && r.session == s
    ensures r.outcome == TokenExpired ==>
      && r.users == UpdateUser(users, u.(accessTokenHash := None, accessTokenExpiration := None))
      && r.session == s
    ensures r.outcome == TokenAccepted ==>
      && r.users == UpdateUser(users, u.(accessTokenUsed := true))
      && r.session == LoginUser(s, u.(accessTokenUsed := true)).(twoFactorUserId := None)
  {
    if u.accessTokenHash.None? || u.accessTokenUsed then AuthStep(users, s, TokenUnavailable)
    else if u.accessTokenExpiration.Some? && now > u.accessTokenExpiration.value then
      var cleared := u.(accessTokenHash := None, accessTokenExpiration := None);
      AuthStep(UpdateUser(users, cleared), s, TokenExpired)
    else if CheckAccessToken(u, code) then
      var used := u.(accessTokenUsed := true);
      AuthStep(UpdateUser(users, used), LoginUser(s, used).(twoFactorUserId := None), TokenAccepted)
    else AuthStep(users, s, TokenRejected)
  }

  /** `verify_token` at time `now`. `code` is `None` for a GET or a submission the
      token form refuses. */
  function VerifyToken(users: Users, s: Session, now: nat, code: Option<string>): (r: AuthStep<TokenOutcome>)
    ensures CurrentUser(users, s).Authenticated? ==>
      r == AuthStep(users, s, TokenPageWhileLoggedIn(DashboardFor(CurrentUser(users, s).role)))
    ensures CurrentUser(users, s).Anonymous? && s.twoFactorUserId.None? ==> r == AuthStep(users, s, NoPendingLogin)
    ensures r.outcome in {TokenUnavailable, TokenExpired, TokenAccepted, TokenRejected} ==>
      && s.twoFactorUserId.Some? && code.Some?
      && GetById(users, s.twoFactorUserId.value).Some?
      && r == CheckToken(users, s, GetById(users, s.twoFactorUserId.value).value, now, code.value)
    ensures !(r.outcome in {TokenExpired, TokenAccepted}) ==> r.users == users && r.session == s
    ensures CurrentUser(users, s).Anonymous? && s.twoFactorUserId.Some? ==>
      match GetById(users, s.twoFactorUserId.value)
      case None => r == AuthStep(users, s, PendingUserMissing)
      case Some(u) =>
        && (code.None? ==> r == AuthStep(users, s, ShowTokenForm))
        && (code.Some? ==> r == CheckToken(users, s, u, now, code.value))
  {
    var p := CurrentUser(users, s);
    if p.Authenticated? then AuthStep(users, s, TokenPageWhileLoggedIn(DashboardFor(p.role)))
    else if s.twoFactorUserId.None? then AuthStep(users, s, NoPendingLogin)
    else match GetById(users, s.twoFactorUserId.value)
      case None => AuthStep(users, s, PendingUserMissing)
      case Some(u) =>
        if code.None? then AuthStep(users, s, ShowTokenForm)
        else CheckToken(users, s, u, now, code.value)
  }

  datatype LogoutOutcome = LogoutNeedsLogin | LoggedOut

  /** `logout`: behind `login_required`; `logout_user` removes the stored user
      id and leaves the other session entries. */
  function Logout(users: Users, s: Session): (r: AuthStep<LogoutOutcome>)
    ensures r.users == users
    ensures r.outcome == LoggedOut <==> CurrentUser(users, s).Authenticated?
    ensures r.outcome == LogoutNeedsLogin ==> r.session == s
    ensures CurrentUser(r.users, r.session).Anonymous?
    ensures r.session.failedLoginAttempts == s.failedLoginAttempts
    ensures r.session.twoFactorUserId == s.twoFactorUserId
  {
    if LoginRequired(CurrentUser(users, s)) != Allow then AuthStep(users, s, LogoutNeedsLogin)
    else AuthStep(users, s.(userId := None), LoggedOut)
  }

  datatype AdminOutcome = Denied(decision: Decision) | UserNotFound | AlreadyActive | Approved | TokenReissued

  /** The result of an admin action: the table afterwards and what the admin sees. */
  datatype AdminStep = AdminStep(users: Users, outcome: AdminOutcome)

  /** `@login_required` stacked over `@requires_role('admin')`. */
  function AdminGuard(users: Users, admin: Session): (d: Decision)
    ensures d == Allow <==> CurrentUser(users, admin).Authenticated? && CurrentUser(users, admin).role == ADMIN
    ensures CurrentUser(users, admin).Anonymous? ==> d == RedirectToLogin
    ensures CurrentUser(users, admin).Authenticated? && d != Allow ==> d == Forbidden
  {
    var p := CurrentUser(users, admin);
    Stack(LoginRequired(p), RequiresRole(p, ADMIN))
  }

  /** `approve_user(user_id)` at time `now`, `code` standing for the random
      `secrets.token_hex(6)`. An active user is left alone; an inactive one is
      activated and given a fresh, unused token valid for the default lifetime. */
  function ApproveUser(users: Users, admin: Session, userId: nat, code: string, now: nat): (r: AdminStep)
    ensures AdminGuard(users, admin) != Allow ==> r == AdminStep(users, Denied(AdminGuard(users, admin)))
    ensures AdminGuard(users, admin) == Allow && GetById(users, userId).None? ==> r == AdminStep(users, UserNotFound)
    ensures AdminGuard(users, admin) == Allow && GetById(users, userId).Some? ==>
      && (r.outcome == Approved <==> !GetById(users, userId).value.isActive)
      && (r.outcome == AlreadyActive <==> GetById(users, userId).value.isActive)
    ensures r.outcome == Approved ==> AdminGuard(users, admin) == Allow
    ensures r.outcome != Approved ==> r.users == users
    ensures r.outcome == AlreadyActive ==> GetById(users, userId).Some? && GetById(users, userId).value.isActive
    ensures r.outcome == Approved ==>
      && GetById(users, userId).Some? && !GetById(users, userId).value.isActive
      && r.users == UpdateUser(users,
           SetAccessToken(GetById(users, userId).value.(isActive := true), code, now, DEFAULT_TOKEN_LIFETIME))
  {
    var guard := AdminGuard(users, admin);
    if guard != Allow then AdminStep(users, Denied(guard))
    else match GetById(users, userId)
      case None => AdminStep(users, UserNotFound)
      case Some(u) =>
        if u.isActive then AdminStep(users, AlreadyActive)
        else
          var approved := SetAccessToken(u.(isActive := true), code, now, DEFAULT_TOKEN_LIFETIME);
          AdminStep(UpdateUser(users, approved), Approved)
  }

  /** `reissue_token(user_id)`: any existing user, active or not, admin or
      member, gets a fresh unused token valid for the default lifetime. */
  function ReissueToken(users: Users, admin: Session, userId: nat, code: string, now: nat): (r: AdminStep)
    ensures AdminGuard(users, admin) != Allow ==> r == AdminStep(users, Denied(AdminGuard(users, admin)))
    ensures AdminGuard(users, admin) == Allow && GetById(users, userId).None? ==> r == AdminStep(users, UserNotFound)
    ensures r.outcome != TokenReissued ==> r.users == users
    ensures r.outcome == TokenReissued <==> AdminGuard(users, admin) == Allow && GetById(users, userId).Some?
    ensures r.outcome == TokenReissued ==>
      r.users == UpdateUser(users, SetAccessToken(GetById(users, userId).value, code, now, DEFAULT_TOKEN_LIFETIME))
  {
    var guard := AdminGuard(users, admin);
    if guard != Allow then AdminStep(users, Denied(guard))
    else match GetById(users, userId)
      case None => AdminStep(users, UserNotFound)
      case Some(u) => AdminStep(UpdateUser(users, SetAccessToken(u, code, now, DEFAULT_TOKEN_LIFETIME)), TokenReissued)
  }

  datatype RegisterOutcome = RegisterWhileLoggedIn | ShowRegistrationForm | Registered(newId: nat)

  datatype RegisterStep = RegisterStep(users: Users, outcome: RegisterOutcome)

  /** `register`: a valid form appends an inactive member whose password is the
      submitted one; the database assigns the next id. */
  function Register(users: Users, s: Session, form: Option<RegistrationForm>): (r: RegisterStep)
    ensures CurrentUser(users, s).Authenticated? ==> r == RegisterStep(users, RegisterWhileLoggedIn)
    ensures !r.outcome.Registered? ==> r.users == users
    ensures r.outcome.Registered? <==>
      CurrentUser(users, s).Anonymous? && form.Some? && RegistrationValid(users, form.value)
    ensures r.outcome.Registered? ==>
      && |r.users| == |users| + 1 && r.users[..|users|] == users
      && var u := r.users[|users|];
      && u.id == r.outcome.newId && (forall v :: v in users ==> v.id < u.id)
      && u.username == form.value.username && u.nia == form.value.nia
      && u.role == ANGGOTA && !u.isActive
      && u.accessTokenHash.None? && !u.accessTokenUsed
      && (forall q :: CheckPassword(u, q) <==> q == form.value.password)
  {
    if CurrentUser(users, s).Authenticated? then RegisterStep(users, RegisterWhileLoggedIn)
    else if form.None? || !RegistrationValid(users, form.value) then RegisterStep(users, ShowRegistrationForm)
    else
      var f := form.value;
      var id := NextId(users);
      var u := NewMember(id, f.username, f.password, f.namaLengkap, f.namaLapangan, f.nia, f.jenjangKeanggotaan);
      assert (users + [u])[..|users|] == users;
      RegisterStep(users + [u], Registered(id))
  }
}
