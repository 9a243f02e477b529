// What each call does and answers, column by column: for every table, every argument and every branch.
// Stated on Step with the names of columns, library functions and literal durations alone, so that these are a second
// description of the calls beside the functions of AuthSpec. Durations are in microseconds.

module Calls {
  import opened Options
  import opened AuthTypes
  import opened AuthSpec
  import opened Histories

  // ----- Tables and tokens -----

  /** No row but u's differs, and none comes or goes. */
  ghost predicate OnlyRow(before: UserTable, after: UserTable, u: Id) {
    && u in before && after.Keys == before.Keys
    && forall id :: id in before && id != u ==> after[id] == before[id]
  }

  /** One row is added. */
  ghost predicate OnlyNew(before: UserTable, after: UserTable, id: Id) {
    && id !in before && after.Keys == before.Keys + {id}
    && forall other :: other in before ==> after[other] == before[other]
  }

  /** Presenting the token opens what needs this purpose. */
  predicate Opens(env: Env, token: Token, purpose: Purpose, now: Time) {
    && token.mac == env.lib.mac(token.claims)
    && token.claims.subject.Some?
    && now < token.claims.expiresAt
    && token.claims.purpose == purpose
  }

  /** d is t without its fraction of a second. */
  predicate WholeSeconds(d: Time, t: Time) {
    d % 1_000_000 == 0 && d <= t < d + 1_000_000
  }

  /** A signed token of this purpose for u, good from now for ttl. */
  predicate Names(env: Env, token: Token, u: Id, purpose: Purpose, now: Time, ttl: Time) {
    && token.mac == env.lib.mac(token.claims)
    && token.claims.subject == Some(u) && token.claims.userId == u && token.claims.purpose == purpose
    && WholeSeconds(token.claims.issuedAt, now) && WholeSeconds(token.claims.expiresAt, now + ttl)
  }

  /** A token for one step of a flow: it carries no role and no permission. */
  predicate NamesFor(env: Env, token: Token, u: Id, email: string, purpose: Purpose, now: Time, ttl: Time) {
    && Names(env, token, u, purpose, now, ttl)
    && token.claims.email == email && token.claims.role == None && token.claims.permissions == []
  }

  /** Which roles hold which permission. */
  predicate Grants(role: UserRole, p: Permission) {
    match p
    case Wildcard => role.SuperAdmin?
    case UsersRead => role.Admin? || role.Manager?
    case UsersWrite => role.Admin?
    case UsersInvite => role.Admin? || role.Manager?
    case AuditRead => role.Admin?
    case ProfileRead => role.Member? || role.Viewer?
    case ProfileWrite => role.Member?
  }

  /** The answer is a session of account u with its e-mail, role and permissions. */
  predicate OpensSession(env: Env, reply: Reply, u: Id, w: User, now: Time) {
    && reply.Session?
    && reply.expiresAt == now + env.cfg.jwtExpiryHours * 3_600_000_000
    && Names(env, reply.token, u, PurposeSession, now, env.cfg.jwtExpiryHours * 3_600_000_000)
    && reply.token.claims.email == w.email
    && reply.token.claims.role == Some(w.role)
    && forall p :: p in reply.token.claims.permissions <==> Grants(w.role, p)
  }

  // ----- Login -----

  /** The counter and the lock after one more wrong password. */
  predicate CountsFailure(cfg: Config, w: User, w': User, now: Time) {
    var counted := if w.failedAttempts < 0x7FFF_FFFF then w.failedAttempts + 1 else w.failedAttempts;
    && w'.failedAttempts == counted
    && w'.lockedUntil == (if counted >= cfg.maxFailedAttempts then Some(now + 1_800_000_000) else w.lockedUntil)
    && w'.updatedAt == (if counted > w.failedAttempts || counted >= cfg.maxFailedAttempts then now else w.updatedAt)
    && w' == w.(failedAttempts := w'.failedAttempts, lockedUntil := w'.lockedUntil, updatedAt := w'.updatedAt)
  }

  /** Login with the e-mail of account u compares with u's hash, and with nobody else's. */
  lemma LoginOfAccount(env: Env, db: Db, now: Time, email: string, password: string, u: Id)
    requires UniqueEmails(db.users) && u in db.users
    requires db.users[u].email == env.lib.lower(env.lib.trim(env.lib.trim(email)))
    ensures var (db', reply) := Step(env, db, now, Login(email, password));
            var w := db.users[u];
            if !w.isActive then db' == db && reply == Fail(Unauthorized)
            else if w.lockedUntil.Some? && now < w.lockedUntil.value then db' == db && reply == Fail(BadRequest)
            else
              && db'.resets == db.resets && OnlyRow(db.users, db'.users, u)
              && if !env.lib.passwordMatches(w.passwordHash, password) then
                   reply == Fail(Unauthorized) && CountsFailure(env.cfg, w, db'.users[u], now)
                 else
                   && db'.users[u] == w.(failedAttempts := 0, lockedUntil := None, updatedAt := now)
                   && if w.totpEnabled && w.totpSecret.Some? && w.totpSecret.value != "" then
                        && reply.MfaChallenge?
                        && NamesFor(env, reply.token, u, "", PurposeMfa, now, env.cfg.mfaExpiryMinutes * 60_000_000)
                      else
                        && reply.SetupRequired?
                        && var configured := env.cfg.totpSetupExpiryMinutes;
                           var minutes := if configured <= 0 then 60 else configured;
                           NamesFor(env, reply.token, u, w.email, PurposeTotpSetup, now, minutes * 60_000_000)
  {
    assert HasEmail(db.users, db.users[u].email, u);
  }

  lemma LoginOfNobody(env: Env, db: Db, now: Time, email: string, password: string)
    requires forall u :: u in db.users ==> db.users[u].email != env.lib.lower(env.lib.trim(env.lib.trim(email)))
    ensures Step(env, db, now, Login(email, password)) == (db, Fail(Unauthorized))
  {
  }

  // ----- Codes -----

  lemma VerifyTotpAnswers(env: Env, db: Db, now: Time, token: Token, code: string)
    ensures var (db', reply) := Step(env, db, now, VerifyTotp(token, code));
            var u := token.claims.userId;
            && db' == db
            && if && Opens(env, token, PurposeMfa, now) && u in db.users && db.users[u].isActive
                  && db.users[u].totpSecret.Some?
                  && env.lib.totpValid(env.lib.trim(code), db.users[u].totpSecret.value, now)
               then OpensSession(env, reply, u, db.users[u], now)
               else reply == Fail(Unauthorized)
  {
  }

  lemma ConfirmTotpAnswers(env: Env, db: Db, now: Time, token: Token, secret: string, code: string)
    ensures var (db', reply) := Step(env, db, now, ConfirmTotp(token, secret, code));
            var u := token.claims.userId;
            if !(Opens(env, token, PurposeTotpSetup, now) && u in db.users && db.users[u].isActive) then
              db' == db && reply == Fail(Unauthorized)
            else if !env.lib.totpValid(env.lib.trim(code), secret, now) then
              db' == db && reply == Fail(BadRequest)
            else
              && db'.resets == db.resets && OnlyRow(db.users, db'.users, u)
              && db'.users[u] == db.users[u].(totpSecret := Some(secret), totpEnabled := true, updatedAt := now)
              && OpensSession(env, reply, u, db.users[u], now)
  {
  }

  // ----- Password reset -----

  /** u's e-mail is the one that an address given to the reset calls or to an invite is looked up under. */
  predicate HasAddress(env: Env, users: UserTable, email: string, u: Id) {
    u in users && users[u].email == env.lib.lower(env.lib.trim(env.lib.lower(env.lib.trim(email))))
  }

  /** The old records of the account go, and one new record comes: none when the generated id is another account's. */
  lemma ForgotPasswordOfAccount(env: Env, db: Db, now: Time, email: string, otp: string, newId: Id, u: Id)
    requires UniqueEmails(db.users) && HasAddress(env, db.users, email, u)
    ensures var (db', reply) := Step(env, db, now, ForgotPassword(email, otp, newId));
            if !db.users[u].isActive then db' == db && reply == Done
            else
              var taken := newId in db.resets && db.resets[newId].userId != u;
              && db'.users == db.users
              && (forall id :: id in db'.resets <==>
                                 (id == newId && !taken) || (id in db.resets && db.resets[id].userId != u))
              && (forall id :: id in db.resets && db.resets[id].userId != u ==> db'.resets[id] == db.resets[id])
              && if taken then reply == Fail(Internal)
                 else
                   && reply == Done
                   && db'.resets[newId] == PasswordReset(u, env.lib.otpHash(otp),
                                                         now + env.cfg.passwordResetOtpMinutes * 60_000_000, None, now)
  {
    assert HasEmail(db.users, db.users[u].email, u);
  }

  lemma ForgotPasswordOfNobody(env: Env, db: Db, now: Time, email: string, otp: string, newId: Id)
    requires forall u :: !HasAddress(env, db.users, email, u)
    ensures Step(env, db, now, ForgotPassword(email, otp, newId)) == (db, Done)
  {
    forall u ensures !HasEmail(db.users, env.lib.Normal(env.lib.Normal(email)), u) {
      assert !HasAddress(env, db.users, email, u);
    }
  }

  /** The OTP is held against the account's newest unused record, which a success marks used. */
  lemma VerifyResetOfAccount(env: Env, db: Db, now: Time, email: string, otp: string, u: Id, id: Id)
    requires UniqueEmails(db.users) && HasAddress(env, db.users, email, u)
    requires id in db.resets && db.resets[id].userId == u && db.resets[id].usedAt == None
    requires forall other :: && other in db.resets && other != id
                             && db.resets[other].userId == u && db.resets[other].usedAt == None ==>
                               db.resets[other].createdAt < db.resets[id].createdAt
    ensures var (db', reply) := Step(env, db, now, VerifyResetEmail(email, otp));
            var code := env.lib.trim(otp);
            var minutes := if env.cfg.passwordResetJwtMinutes <= 0 then 30 else env.cfg.passwordResetJwtMinutes;
            if |code| != 6 then db' == db && reply == Fail(BadRequest)
            else if now > db.resets[id].expiresAt || env.lib.otpHash(code) != db.resets[id].otpHash then
              db' == db && reply == Fail(Unauthorized)
            else
              && db' == db.(resets := db.resets[id := db.resets[id].(usedAt := Some(now))])
              && reply.ResetToken?
              && NamesFor(env, reply.token, u, db.users[u].email, PurposePasswordReset, now, minutes * 60_000_000)
  {
    assert HasEmail(db.users, db.users[u].email, u);
    assert IsLatestPending(db.resets, u, id);
    assert IsLatestPending(db.resets, u, LatestPending(db.resets, u).value);
  }

  /** Nobody of that e-mail, or no unused record. */
  lemma VerifyResetOfNobody(env: Env, db: Db, now: Time, email: string, otp: string)
    requires forall u, id :: HasAddress(env, db.users, email, u) && id in db.resets && db.resets[id].userId == u ==>
                               db.resets[id].usedAt.Some?
    ensures Step(env, db, now, VerifyResetEmail(email, otp)) ==
              (db, Fail(if |env.lib.trim(otp)| != 6 then BadRequest else Unauthorized))
  {
    var subject := ResetSubject(env, db.users, email);
    if subject.Some? { assert HasAddress(env, db.users, email, subject.value); }
  }

  lemma CompletePasswordResetAnswers(env: Env, db: Db, now: Time, token: Token, newPassword: string, code: string,
                                     salt: int)
    ensures var (db', reply) := Step(env, db, now, CompletePasswordReset(token, newPassword, code, salt));
            var u := token.claims.userId;
            var hash := env.lib.hashPassword(newPassword, salt);
            if !(Opens(env, token, PurposePasswordReset, now) && u in db.users) then
              db' == db && reply == Fail(Unauthorized)
            else if && db.users[u].totpEnabled && db.users[u].totpSecret.Some?
                    && !env.lib.totpValid(env.lib.trim(code), db.users[u].totpSecret.value, now) then
              db' == db && reply == Fail(Unauthorized)
            else if |newPassword| < 10 then db' == db && reply == Fail(BadRequest)
            else if hash.None? then db' == db && reply == Fail(Internal)
            else
              && db'.resets == db.resets && OnlyRow(db.users, db'.users, u) && reply == Done
              && db'.users[u] == db.users[u].(passwordHash := hash.value, updatedAt := now)
  {
  }

  lemma DeleteExpiredCleans(env: Env, db: Db, now: Time)
    ensures var (db', reply) := Step(env, db, now, DeleteExpired);
            && db'.users == db.users && reply == Done
            && (forall id :: id in db'.resets <==> id in db.resets && now <= db.resets[id].expiresAt)
            && (forall id :: id in db.resets ==> (id in db'.resets <==> !db.resets[id].IsExpired(now)))
            && forall id :: id in db'.resets ==> db'.resets[id] == db.resets[id]
  {
  }

  // ----- Invites -----

  /** An invite succeeds exactly for a role that may be invited and a new address, and stores what was asked for. */
  lemma InviteAnswers(env: Env, db: Db, now: Time, email: string, name: string, role: UserRole, newId: Id)
    ensures var (db', reply) := Step(env, db, now, Invite(email, name, role, newId));
            var address := env.lib.lower(env.lib.trim(email));
            if role.SuperAdmin? || address == "" then db' == db && reply == Fail(BadRequest)
            else if exists u :: HasAddress(env, db.users, email, u) then db' == db && reply == Fail(Conflict)
            else if role.Other? || newId in db.users then db' == db && reply == Fail(Internal)
            else
              && db'.resets == db.resets && OnlyNew(db.users, db'.users, newId)
              && db'.users[newId] == User(env.lib.lower(env.lib.trim(address)), env.lib.trim(env.lib.trim(name)), "!",
                                          role, None, false, 0, None, false, now, now)
              && reply.InviteToken?
              && NamesFor(env, reply.token, newId, db'.users[newId].email, PurposeInvite, now,
                          env.cfg.inviteTtlHours * 3_600_000_000)
  {
    var key := env.lib.Normal(env.lib.Normal(email));
    forall u ensures HasAddress(env, db.users, email, u) <==> HasEmail(db.users, key, u) {
    }
  }

  lemma AcceptInviteAnswers(env: Env, db: Db, now: Time, token: Token, name: string, password: string, salt: int)
    ensures var (db', reply) := Step(env, db, now, AcceptInvite(token, name, password, salt));
            var u := token.claims.userId;
            var hash := env.lib.hashPassword(password, salt);
            if !(Opens(env, token, PurposeInvite, now) && |password| >= 10 && u in db.users) then
              db' == db && reply == Fail(BadRequest)
            else if db.users[u].isActive then db' == db && reply == Fail(Conflict)
            else if hash.None? then db' == db && reply == Fail(Internal)
            else
              && db'.resets == db.resets && OnlyRow(db.users, db'.users, u)
              && db'.users[u] == db.users[u].(name := env.lib.trim(env.lib.trim(name)), passwordHash := hash.value,
                                              failedAttempts := 0, lockedUntil := None, updatedAt := now)
              && reply.SetupRequired?
              && NamesFor(env, reply.token, u, db.users[u].email, PurposeTotpSetup, now,
                          env.cfg.totpSetupExpiryMinutes * 60_000_000)
  {
  }

  // ----- Users -----

  predicate ActsAsSuperAdmin(users: UserTable, u: Id) {
    u in users && users[u].role.SuperAdmin? && users[u].isActive
  }

  /** There are not two of them. */
  ghost predicate AtMostOneSuperAdmin(users: UserTable) {
    forall a, b :: ActsAsSuperAdmin(users, a) && ActsAsSuperAdmin(users, b) ==> a == b
  }

  lemma CountOfSuperAdmins(users: UserTable)
    ensures |ActiveSuperAdmins(users)| <= 1 <==> AtMostOneSuperAdmin(users)
    ensures |ActiveSuperAdmins(users)| == 0 <==> forall a :: !ActsAsSuperAdmin(users, a)
  {
    var s := ActiveSuperAdmins(users);
    assert forall a :: a in s <==> ActsAsSuperAdmin(users, a);
    if s != {} {
      var a :| a in s;
      assert s == {a} + (s - {a});
      if |s| > 1 {
        var b :| b in s - {a};
        assert ActsAsSuperAdmin(users, a) && ActsAsSuperAdmin(users, b);
      }
    }
  }

  /** On first start: the configured account, unless somebody is a super admin already. */
  lemma BootstrapAnswers(env: Env, db: Db, now: Time, newId: Id, salt: int)
    ensures var (db', reply) := Step(env, db, now, EnsureBootstrapAdmin(newId, salt));
            var email := env.lib.lower(env.lib.trim(env.cfg.bootstrapAdminEmail));
            var hash := env.lib.hashPassword(env.cfg.bootstrapAdminPassword, salt);
            if env.cfg.bootstrapAdminEmail == "" || env.cfg.bootstrapAdminPassword == "" then
              db' == db && reply == Done
            else if exists a :: ActsAsSuperAdmin(db.users, a) then db' == db && reply == Done
            else if hash.None? || newId in db.users || exists u :: u in db.users && db.users[u].email == email then
              db' == db && reply == Fail(Internal)
            else
              && db'.resets == db.resets && OnlyNew(db.users, db'.users, newId) && reply == Done
              && db'.users[newId] == User(email, env.lib.trim(env.cfg.bootstrapAdminName), hash.value, SuperAdmin,
                                          None, false, 0, None, true, now, now)
  {
    var email := env.lib.lower(env.lib.trim(env.cfg.bootstrapAdminEmail));
    CountOfSuperAdmins(db.users);
    forall u ensures HasEmail(db.users, email, u) <==> u in db.users && db.users[u].email == email {
    }
  }

  /** A name, a role or both are stored as given, and the answer is the row as it stands afterwards. */
  lemma UpdateUserAnswers(env: Env, db: Db, now: Time, u: Id, newName: Option<string>, newRole: Option<UserRole>)
    ensures var (db', reply) := Step(env, db, now, UpdateUser(u, newName, newRole));
            if u !in db.users then db' == db && reply == Fail(NotFound)
            else if && newRole.Some? && !newRole.value.SuperAdmin? && db.users[u].role.SuperAdmin?
                    && AtMostOneSuperAdmin(db.users) then
              db' == db && reply == Fail(BadRequest)
            else if newRole.Some? && newRole.value.Other? then db' == db && reply == Fail(Internal)
            else
              var w, w' := db.users[u], db'.users[u];
              && db'.resets == db.resets && OnlyRow(db.users, db'.users, u) && reply == Updated(w')
              && w'.name == (if newName.Some? then env.lib.trim(newName.value) else w.name)
              && w'.role == (if newRole.Some? then newRole.value else w.role)
              && w'.updatedAt == (if newName.Some? || newRole.Some? then now else w.updatedAt)
              && w' == w.(name := w'.name, role := w'.role, updatedAt := w'.updatedAt)
  {
    CountOfSuperAdmins(db.users);
  }

  lemma DeactivateAnswers(env: Env, db: Db, now: Time, u: Id)
    ensures var (db', reply) := Step(env, db, now, Deactivate(u));
            if u !in db.users then db' == db && reply == Fail(NotFound)
            else if db.users[u].role.SuperAdmin? && AtMostOneSuperAdmin(db.users) then
              db' == db && reply == Fail(BadRequest)
            else
              && db'.resets == db.resets && OnlyRow(db.users, db'.users, u) && reply == Done
              && db'.users[u] == db.users[u].(isActive := false, updatedAt := now)
  {
    CountOfSuperAdmins(db.users);
  }

  // ----- Admission -----

  lemma AuthorizeAnswers(env: Env, db: Db, now: Time, token: Token, purpose: Purpose)
    ensures var (db', reply) := Step(env, db, now, Authorize(token, purpose));
            && db' == db
            && reply == if Opens(env, token, purpose, now) && (purpose == PurposeSession ==> token.claims.role.Some?)
                 then Admitted(token.claims) else Fail(Unauthorized)
  {
  }

  lemma SessionsCarryRoles(env: Env, db: Db, now: Time, op: Op, token: Token)
    requires Issued(Step(env, db, now, op).1) == Some(token) && token.claims.purpose == PurposeSession
    ensures token.claims.role.Some?
  {
    assert op.VerifyTotp? || op.ConfirmTotp?;
  }

  /** Every token that a run issues is admitted where its purpose is wanted, until it expires, and nowhere else. */
  lemma IssuedTokensAreAdmitted(env: Env, h: History, j: nat, token: Token, db: Db, at: Time, purpose: Purpose)
    requires IsRun(env, h) && IssuedIn(h, j, token)
    ensures Step(env, db, at, Authorize(token, purpose)).1 ==
              if token.claims.purpose == purpose && at < token.claims.expiresAt
                then Admitted(token.claims) else Fail(Unauthorized)
  {
    assert Legal(env, h, j);
    IssuedTokensVerify(env, h, j, token);
    if token.claims.purpose == PurposeSession { SessionsCarryRoles(env, h[j].before, h[j].at, h[j].op, token); }
    AuthorizeAnswers(env, db, at, token, purpose);
  }
}
