// What each service call does to the two tables and what it answers, as functions.
// The classes in Services.dfy perform the reads and row writes and are proved equal to these;
// the theorems about runs are proved about these.

module AuthSpec {
  import opened Options
  import opened AuthTypes
  import opened Tokens

  // ----- Queries -----

  /** The UNIQUE constraint on users.email. */
  ghost predicate UniqueEmails(users: UserTable) {
    forall i, j :: i in users && j in users && users[i].email == users[j].email ==> i == j
  }

  predicate HasEmail(users: UserTable, email: string, id: Id) {
    id in users && users[id].email == email
  }

  /** SELECT ... FROM users WHERE email = $1. */
  ghost function ByEmail(users: UserTable, email: string): (r: Option<Id>)
    ensures r.Some? ==> HasEmail(users, email, r.value)
    ensures r.None? ==> forall id :: !HasEmail(users, email, id)
  {
    if exists id :: HasEmail(users, email, id) then
      var id :| HasEmail(users, email, id);
      Some(id)
    else None
  }

  ghost predicate AtMostOneResetPerUser(resets: ResetTable) {
    forall i, j :: i in resets && j in resets && resets[i].userId == resets[j].userId ==> i == j
  }

  predicate IsPending(resets: ResetTable, user: Id, id: Id) {
    id in resets && resets[id].userId == user && resets[id].usedAt.None?
  }

  /** id is an answer to: WHERE user_id = $1 AND used_at IS NULL ORDER BY created_at DESC LIMIT 1. */
  ghost predicate IsLatestPending(resets: ResetTable, user: Id, id: Id) {
    && IsPending(resets, user, id)
    && forall other :: IsPending(resets, user, other) ==> resets[other].createdAt <= resets[id].createdAt
  }

  ghost function LatestPending(resets: ResetTable, user: Id): (r: Option<Id>)
    ensures r.Some? ==> IsLatestPending(resets, user, r.value)
    ensures r.None? ==> forall id :: !IsLatestPending(resets, user, id)
  {
    if exists id :: IsLatestPending(resets, user, id) then
      var id :| IsLatestPending(resets, user, id);
      Some(id)
    else None
  }

  predicate IsActiveSuperAdmin(users: UserTable, id: Id) {
    id in users && users[id].role == SuperAdmin && users[id].isActive
  }

  function ActiveSuperAdmins(users: UserTable): set<Id> {
    set id | id in users && IsActiveSuperAdmin(users, id)
  }

  // ----- Row writes -----

  function WithoutResetsOf(resets: ResetTable, user: Id): ResetTable {
    map id | id in resets && resets[id].userId != user :: resets[id]
  }

  function WithoutExpired(resets: ResetTable, now: Time): ResetTable {
    map id | id in resets && !(resets[id].expiresAt < now) :: resets[id]
  }

  function NewUser(email: string, name: string, passwordHash: string, role: UserRole, now: Time): User {
    User(email, name, passwordHash, role, None, false, 0, None, true, now, now)
  }

  /** INSERT INTO users fails on a taken key or email and on a role outside the enum. */
  ghost predicate CanInsert(users: UserTable, id: Id, email: string, role: UserRole) {
    id !in users && !role.Other? && forall other :: !HasEmail(users, email, other)
  }

  /** The row Login leaves after a wrong password: one more failure, and a lock once there are enough. */
  function AfterWrongPassword(cfg: Config, u: User, now: Time): User {
    var counted := u.(failedAttempts := if u.failedAttempts < INT32_MAX then u.failedAttempts + 1 else u.failedAttempts,
                      updatedAt := if u.failedAttempts < INT32_MAX then now else u.updatedAt);
    if counted.failedAttempts >= cfg.maxFailedAttempts
    then counted.(lockedUntil := Some(now + LOCK_DURATION), updatedAt := now)
    else counted
  }

  function Unlocked(u: User, now: Time): User {
    u.(failedAttempts := 0, lockedUntil := None, updatedAt := now)
  }

  function Patched(lib: Library, u: User, name: Option<string>, role: Option<UserRole>, now: Time): User {
    u.(name := if name.Some? then lib.trim(name.value) else u.name,
       role := if role.Some? then role.value else u.role,
       updatedAt := now)
  }

  // ----- Calls and answers -----

  datatype ErrorCode = Unauthorized | BadRequest | Conflict | NotFound | Internal

  datatype Reply =
    | Fail(code: ErrorCode)
    | Session(token: Token, expiresAt: Time)
    | MfaChallenge(token: Token)
    | SetupRequired(token: Token)
    | ResetToken(token: Token)
    | InviteToken(token: Token)
    | Admitted(claims: Claims)
    | Updated(user: User)
    | Done

  /** A call with its arguments, and with what the random sources hand it:
      generated row ids, OTPs and bcrypt salts. */
  datatype Op =
    | Login(email: string, password: string)
    | VerifyTotp(token: Token, code: string)
    | ConfirmTotp(token: Token, secret: string, code: string)
    | ForgotPassword(email: string, otp: string, newId: Id)
    | VerifyResetEmail(email: string, otp: string)
    | CompletePasswordReset(token: Token, newPassword: string, code: string, salt: int)
    | AcceptInvite(token: Token, name: string, password: string, salt: int)
    | EnsureBootstrapAdmin(newId: Id, salt: int)
    | UpdateUser(id: Id, newName: Option<string>, newRole: Option<UserRole>)
    | Invite(email: string, name: string, role: UserRole, newId: Id)
    | Deactivate(id: Id)
    | DeleteExpired
    | Authorize(token: Token, expected: Purpose)

  function OrDefault(ttl: Time, default: Time): Time {
    if ttl <= 0 then default else ttl
  }

  function SessionTtl(cfg: Config): Time { cfg.jwtExpiryHours * HOUR }
  function MfaTtl(cfg: Config): Time { cfg.mfaExpiryMinutes * MINUTE }
  function OtpTtl(cfg: Config): Time { cfg.passwordResetOtpMinutes * MINUTE }
  function InviteTtl(cfg: Config): Time { cfg.inviteTtlHours * HOUR }
  /** Login falls back to one hour; AcceptInvite uses the configured value as it is. */
  function LoginSetupTtl(cfg: Config): Time { OrDefault(cfg.totpSetupExpiryMinutes * MINUTE, HOUR) }
  function InviteSetupTtl(cfg: Config): Time { cfg.totpSetupExpiryMinutes * MINUTE }
  function ResetTtl(cfg: Config): Time { OrDefault(cfg.passwordResetJwtMinutes * MINUTE, 30 * MINUTE) }

  function IssueSession(env: Env, now: Time, id: Id, u: User): Reply {
    Session(IssueSessionToken(env.lib, id, u.email, u.role, RolePermissions(u.role), now, SessionTtl(env.cfg)),
            now + SessionTtl(env.cfg))
  }

  /** The account a Login names: its e-mail is trimmed, then normalised by FindByEmail. */
  ghost function LoginSubject(env: Env, users: UserTable, email: string): Option<Id> {
    ByEmail(users, env.lib.Normal(env.lib.trim(email)))
  }

  /** The account a ForgotPassword or VerifyResetEmail names: normalised by the service and by FindByEmail. */
  ghost function ResetSubject(env: Env, users: UserTable, email: string): Option<Id> {
    ByEmail(users, env.lib.Normal(env.lib.Normal(email)))
  }

  ghost function LoginSpec(env: Env, db: Db, now: Time, email: string, password: string): (Db, Reply) {
    var subject := LoginSubject(env, db.users, email);
    if subject.None? then (db, Fail(Unauthorized)) else
    var id := subject.value;
    var u := db.users[id];
    if !u.isActive then (db, Fail(Unauthorized))
    else if u.IsLocked(now) then (db, Fail(BadRequest))
    else if !env.lib.passwordMatches(u.passwordHash, password) then
      (db.(users := db.users[id := AfterWrongPassword(env.cfg, u, now)]), Fail(Unauthorized))
    else
      (db.(users := db.users[id := Unlocked(u, now)]),
       if u.AsksForCode() then MfaChallenge(IssueMfaToken(env.lib, id, now, MfaTtl(env.cfg)))
       else SetupRequired(IssuePurposeToken(env.lib, id, u.email, PurposeTotpSetup, now, LoginSetupTtl(env.cfg))))
  }

  /** The account a purpose token opens now, if it is of that purpose and the account exists. */
  function TokenSubject(env: Env, users: UserTable, now: Time, token: Token, purpose: Purpose): Option<Id> {
    if Accepts(env.lib, token, now) && token.claims.purpose == purpose && token.claims.userId in users
    then Some(token.claims.userId) else None
  }

  function VerifyTotpSpec(env: Env, db: Db, now: Time, token: Token, code: string): (Db, Reply) {
    var subject := TokenSubject(env, db.users, now, token, PurposeMfa);
    if subject.None? || !db.users[subject.value].isActive then (db, Fail(Unauthorized)) else
    var u := db.users[subject.value];
    if u.totpSecret.None? || !env.lib.totpValid(env.lib.trim(code), u.totpSecret.value, now)
      then (db, Fail(Unauthorized))
    else (db, IssueSession(env, now, subject.value, u))
  }

  function ConfirmTotpSpec(env: Env, db: Db, now: Time, token: Token, secret: string, code: string): (Db, Reply) {
    var subject := TokenSubject(env, db.users, now, token, PurposeTotpSetup);
    if subject.None? || !db.users[subject.value].isActive then (db, Fail(Unauthorized))
    else if !env.lib.totpValid(env.lib.trim(code), secret, now) then (db, Fail(BadRequest))
    else
      var u := db.users[subject.value].(totpSecret := Some(secret), totpEnabled := true, updatedAt := now);
      (db.(users := db.users[subject.value := u]), IssueSession(env, now, subject.value, u))
  }

  ghost function ForgotPasswordSpec(env: Env, db: Db, now: Time, email: string, otp: string, newId: Id): (Db, Reply) {
    var subject := ResetSubject(env, db.users, email);
    if subject.None? || !db.users[subject.value].isActive then (db, Done) else
    var cleared := WithoutResetsOf(db.resets, subject.value);
    if newId in cleared then (db.(resets := cleared), Fail(Internal))
    else
      var row := PasswordReset(subject.value, env.lib.otpHash(otp), now + OtpTtl(env.cfg), None, now);
      (db.(resets := cleared[newId := row]), Done)
  }

  ghost function VerifyResetEmailSpec(env: Env, db: Db, now: Time, email: string, otp: string): (Db, Reply) {
    var code := env.lib.trim(otp);
    if |code| != 6 then (db, Fail(BadRequest)) else
    var subject := ResetSubject(env, db.users, email);
    if subject.None? then (db, Fail(Unauthorized)) else
    var found := LatestPending(db.resets, subject.value);
    if found.None? then (db, Fail(Unauthorized)) else
    var row := db.resets[found.value];
    if row.IsExpired(now) || row.IsConsumed() || env.lib.otpHash(code) != row.otpHash then (db, Fail(Unauthorized))
    else
      (db.(resets := db.resets[found.value := row.(usedAt := Some(now))]),
       ResetToken(IssuePurposeToken(env.lib, subject.value, db.users[subject.value].email, PurposePasswordReset,
                                    now, ResetTtl(env.cfg))))
  }

  function CompletePasswordResetSpec(env: Env, db: Db, now: Time, token: Token, newPassword: string, code: string,
                                     salt: int): (Db, Reply) {
    var subject := TokenSubject(env, db.users, now, token, PurposePasswordReset);
    if subject.None? then (db, Fail(Unauthorized)) else
    var u := db.users[subject.value];
    if u.totpEnabled && u.totpSecret.Some? && !env.lib.totpValid(env.lib.trim(code), u.totpSecret.value, now)
      then (db, Fail(Unauthorized))
    else if |newPassword| < 10 then (db, Fail(BadRequest))
    else
      var hash := env.lib.hashPassword(newPassword, salt);
      if hash.None? then (db, Fail(Internal))
      else (db.(users := db.users[subject.value := u.(passwordHash := hash.value, updatedAt := now)]), Done)
  }

  function AcceptInviteSpec(env: Env, db: Db, now: Time, token: Token, name: string, password: string,
                            salt: int): (Db, Reply) {
    var claims := Parse(env.lib, token, now);
    if claims.None? || claims.value.purpose != PurposeInvite || |password| < 10 then (db, Fail(BadRequest))
    else if claims.value.userId !in db.users then (db, Fail(BadRequest)) else
    var id := claims.value.userId;
    var u := db.users[id];
    if u.isActive then (db, Fail(Conflict)) else
    var hash := env.lib.hashPassword(password, salt);
    if hash.None? then (db, Fail(Internal))
    else
      var u' := Unlocked(u.(name := env.lib.trim(env.lib.trim(name)), passwordHash := hash.value), now);
      (db.(users := db.users[id := u']),
       SetupRequired(IssuePurposeToken(env.lib, id, u.email, PurposeTotpSetup, now, InviteSetupTtl(env.cfg))))
  }

  ghost function EnsureBootstrapAdminSpec(env: Env, db: Db, now: Time, newId: Id, salt: int): (Db, Reply) {
    if env.cfg.bootstrapAdminEmail == "" || env.cfg.bootstrapAdminPassword == "" then (db, Done)
    else if |ActiveSuperAdmins(db.users)| > 0 then (db, Done) else
    var hash := env.lib.hashPassword(env.cfg.bootstrapAdminPassword, salt);
    var email := env.lib.Normal(env.cfg.bootstrapAdminEmail);
    if hash.None? || !CanInsert(db.users, newId, email, SuperAdmin) then (db, Fail(Internal))
    else
      var u := NewUser(email, env.lib.trim(env.cfg.bootstrapAdminName), hash.value, SuperAdmin, now);
      (db.(users := db.users[newId := u]), Done)
  }

  function UpdateUserSpec(env: Env, users: UserTable, now: Time, id: Id, newName: Option<string>,
                          newRole: Option<UserRole>): (UserTable, Reply) {
    if id !in users then (users, Fail(NotFound)) else
    var u := users[id];
    if newRole.Some? && newRole.value != SuperAdmin && u.role == SuperAdmin && |ActiveSuperAdmins(users)| <= 1
      then (users, Fail(BadRequest))
    else if newName.None? && newRole.None? then (users, Updated(u))
    else if newRole.Some? && newRole.value.Other? then (users, Fail(Internal))
    else
      var u' := Patched(env.lib, u, newName, newRole, now);
      (users[id := u'], Updated(u'))
  }

  ghost function InviteSpec(env: Env, users: UserTable, now: Time, email: string, name: string, role: UserRole,
                            newId: Id): (UserTable, Reply) {
    var asked := env.lib.Normal(email);
    var key := env.lib.Normal(asked);
    if role == SuperAdmin || asked == "" then (users, Fail(BadRequest))
    else if ByEmail(users, key).Some? then (users, Fail(Conflict))
    else if !CanInsert(users, newId, key, role) then (users, Fail(Internal))
    else
      var u := NewUser(key, env.lib.trim(env.lib.trim(name)), "!", role, now).(isActive := false);
      (users[newId := u],
       InviteToken(IssuePurposeToken(env.lib, newId, key, PurposeInvite, now, InviteTtl(env.cfg))))
  }

  function DeactivateSpec(users: UserTable, now: Time, id: Id): (UserTable, Reply) {
    if id !in users then (users, Fail(NotFound)) else
    var u := users[id];
    if u.role == SuperAdmin && |ActiveSuperAdmins(users)| <= 1 then (users, Fail(BadRequest))
    else (users[id := u.(isActive := false, updatedAt := now)], Done)
  }

  function AuthorizeSpec(env: Env, now: Time, token: Token, expected: Purpose): Reply {
    var claims := RequirePurpose(env.lib, token, expected, now);
    if claims.None? then Fail(Unauthorized) else Admitted(claims.value)
  }

  ghost function Step(env: Env, db: Db, now: Time, op: Op): (Db, Reply) {
    match op
    case Login(email, password) => LoginSpec(env, db, now, email, password)
    case VerifyTotp(token, code) => VerifyTotpSpec(env, db, now, token, code)
    case ConfirmTotp(token, secret, code) => ConfirmTotpSpec(env, db, now, token, secret, code)
    case ForgotPassword(email, otp, newId) => ForgotPasswordSpec(env, db, now, email, otp, newId)
    case VerifyResetEmail(email, otp) => VerifyResetEmailSpec(env, db, now, email, otp)
    case CompletePasswordReset(token, newPassword, code, salt) =>
      CompletePasswordResetSpec(env, db, now, token, newPassword, code, salt)
    case AcceptInvite(token, name, password, salt) => AcceptInviteSpec(env, db, now, token, name, password, salt)
    case EnsureBootstrapAdmin(newId, salt) => EnsureBootstrapAdminSpec(env, db, now, newId, salt)
    case UpdateUser(id, newName, newRole) =>
      var (users', r) := UpdateUserSpec(env, db.users, now, id, newName, newRole);
      (db.(users := users'), r)
    case Invite(email, name, role, newId) =>
      var (users', r) := InviteSpec(env, db.users, now, email, name, role, newId);
      (db.(users := users'), r)
    case Deactivate(id) =>
      var (users', r) := DeactivateSpec(db.users, now, id);
      (db.(users := users'), r)
    case DeleteExpired => (db.(resets := WithoutExpired(db.resets, now)), Done)
    case Authorize(token, expected) => (db, AuthorizeSpec(env, now, token, expected))
  }

  function Issued(reply: Reply): Option<Token> {
    match reply
    case Session(token, _) => Some(token)
    case MfaChallenge(token) => Some(token)
    case SetupRequired(token) => Some(token)
    case ResetToken(token) => Some(token)
    case InviteToken(token) => Some(token)
    case _ => None
  }

  function Presented(op: Op): Option<Token> {
    match op
    case VerifyTotp(token, _) => Some(token)
    case ConfirmTotp(token, _, _) => Some(token)
    case CompletePasswordReset(token, _, _, _) => Some(token)
    case AcceptInvite(token, _, _, _) => Some(token)
    case Authorize(token, _) => Some(token)
    case _ => None
  }

  /** The one purpose each token-taking call works with. */
  function NeededPurpose(op: Op): Purpose
    requires Presented(op).Some?
  {
    match op
    case VerifyTotp(_, _) => PurposeMfa
    case ConfirmTotp(_, _, _) => PurposeTotpSetup
    case CompletePasswordReset(_, _, _, _) => PurposePasswordReset
    case AcceptInvite(_, _, _, _) => PurposeInvite
    case Authorize(_, expected) => expected
  }
}
