// internal/services: each call as the source performs it, a sequence of reads and row writes,
// proved to have exactly the effect and the answer that AuthSpec states.

module Services {
  import opened Options
  import opened AuthTypes
  import opened Tokens
  import opened AuthSpec
  import opened Repositories

  class AuthService {
    const env: Env
    const users: UserRepository
    const resets: PasswordResetRepository

    ghost predicate Valid()
      reads this, users, resets
    {
      users.Valid() && resets.Valid() && users.lib == env.lib
    }

    ghost function Tables(): Db
      reads this, users, resets
    {
      Db(users.rows, resets.rows)
    }

    constructor (env: Env, users: UserRepository, resets: PasswordResetRepository)
      requires users.Valid() && resets.Valid() && users.lib == env.lib
      ensures Valid() && this.env == env && this.users == users && this.resets == resets
    {
      this.env := env;
      this.users := users;
      this.resets := resets;
    }

    method Login(now: Time, email: string, password: string) returns (r: Reply)
      requires Valid()
      modifies users
      ensures Valid()
      ensures (Tables(), r) == LoginSpec(env, old(Tables()), now, email, password)
    {
      var found := users.FindByEmail(env.lib.trim(email));
      if found.None? { return Fail(Unauthorized); }
      var (id, u) := found.value;
      if !u.isActive { return Fail(Unauthorized); }
      if u.IsLocked(now) { return Fail(BadRequest); }

      if !env.lib.passwordMatches(u.passwordHash, password) {
        users.IncrFailedAttempts(now, id);
        var u2 := users.FindByID(id);
        if u2.Some? && u2.value.failedAttempts >= env.cfg.maxFailedAttempts {
          users.LockUntil(now, id, now + LOCK_DURATION);
        }
        assert users.rows == old(users.rows)[id := AfterWrongPassword(env.cfg, u, now)];
        return Fail(Unauthorized);
      }
      users.ClearLock(now, id);

      if u.totpEnabled && u.totpSecret.Some? && u.totpSecret.value != "" {
        return MfaChallenge(IssueMfaToken(env.lib, id, now, env.cfg.mfaExpiryMinutes * MINUTE));
      }
      var setupTtl := env.cfg.totpSetupExpiryMinutes * MINUTE;
      if setupTtl <= 0 { setupTtl := HOUR; }
      return SetupRequired(IssuePurposeToken(env.lib, id, u.email, PurposeTotpSetup, now, setupTtl));
    }

    method VerifyTotp(now: Time, token: Token, code: string) returns (r: Reply)
      requires Valid()
      ensures (Tables(), r) == VerifyTotpSpec(env, Tables(), now, token, code)
    {
      var claims := Parse(env.lib, token, now);
      if claims.None? || claims.value.purpose != PurposeMfa { return Fail(Unauthorized); }
      var u := users.FindByID(claims.value.userId);
      if u.None? { return Fail(Unauthorized); }
      if !u.value.isActive { return Fail(Unauthorized); }
      if u.value.totpSecret.None? || !env.lib.totpValid(env.lib.trim(code), u.value.totpSecret.value, now) {
        return Fail(Unauthorized);
      }
      return IssueSession(env, now, claims.value.userId, u.value);
    }

    method ConfirmTotp(now: Time, token: Token, secret: string, code: string) returns (r: Reply)
      requires Valid()
      modifies users
      ensures Valid()
      ensures (Tables(), r) == ConfirmTotpSpec(env, old(Tables()), now, token, secret, code)
    {
      var claims := Parse(env.lib, token, now);
      if claims.None? || claims.value.purpose != PurposeTotpSetup { return Fail(Unauthorized); }
      var id := claims.value.userId;
      var u := users.FindByID(id);
      if u.None? { return Fail(Unauthorized); }
      if !u.value.isActive { return Fail(Unauthorized); }
      if !env.lib.totpValid(env.lib.trim(code), secret, now) { return Fail(BadRequest); }
      users.SetTotp(now, id, secret, true);
      u := users.FindByID(id);
      if u.None? { return Fail(NotFound); }
      return IssueSession(env, now, id, u.value);
    }

    method ForgotPassword(now: Time, email: string, otp: string, newId: Id) returns (r: Reply)
      requires Valid()
      modifies resets
      ensures Valid()
      ensures (Tables(), r) == ForgotPasswordSpec(env, old(Tables()), now, email, otp, newId)
    {
      var key := env.lib.lower(env.lib.trim(email));
      var found := users.FindByEmail(key);
      if found.None? { return Done; }
      var (id, u) := found.value;
      if !u.isActive { return Done; }
      var ok := resets.Create(now, newId, id, env.lib.otpHash(otp), now + env.cfg.passwordResetOtpMinutes * MINUTE);
      return if ok then Done else Fail(Internal);
    }

    method VerifyResetEmail(now: Time, email: string, otp: string) returns (r: Reply)
      requires Valid()
      modifies resets
      ensures Valid()
      ensures (Tables(), r) == VerifyResetEmailSpec(env, old(Tables()), now, email, otp)
    {
      var key := env.lib.lower(env.lib.trim(email));
      var code := env.lib.trim(otp);
      if |code| != 6 { return Fail(BadRequest); }
      var found := users.FindByEmail(key);
      if found.None? { return Fail(Unauthorized); }
      var (id, u) := found.value;
      var reset := resets.FindByUserID(id);
      if reset.None? { return Fail(Unauthorized); }
      var (resetId, row) := reset.value;
      if row.IsExpired(now) || row.IsConsumed() { return Fail(Unauthorized); }
      if env.lib.otpHash(code) != row.otpHash { return Fail(Unauthorized); }
      var ok := resets.Consume(now, resetId);
      if !ok { return Fail(Internal); }
      var ttl := env.cfg.passwordResetJwtMinutes * MINUTE;
      if ttl <= 0 { ttl := 30 * MINUTE; }
      return ResetToken(IssuePurposeToken(env.lib, id, u.email, PurposePasswordReset, now, ttl));
    }

    method CompletePasswordReset(now: Time, token: Token, newPassword: string, code: string,
                                 salt: int) returns (r: Reply)
      requires Valid()
      modifies users
      ensures Valid()
      ensures (Tables(), r) == CompletePasswordResetSpec(env, old(Tables()), now, token, newPassword, code, salt)
    {
      var claims := Parse(env.lib, token, now);
      if claims.None? || claims.value.purpose != PurposePasswordReset { return Fail(Unauthorized); }
      var id := claims.value.userId;
      var u := users.FindByID(id);
      if u.None? { return Fail(Unauthorized); }
      if u.value.totpEnabled && u.value.totpSecret.Some? {
        if !env.lib.totpValid(env.lib.trim(code), u.value.totpSecret.value, now) { return Fail(Unauthorized); }
      }
      if |newPassword| < 10 { return Fail(BadRequest); }
      var hash := env.lib.hashPassword(newPassword, salt);
      if hash.None? { return Fail(Internal); }
      var ok := users.UpdatePassword(now, id, hash.value);
      return if ok then Done else Fail(NotFound);
    }

    /** The three row writes of AcceptInvite. */
    method WriteInvitee(now: Time, id: Id, name: string, hash: string) returns (r: Reply)
      requires Valid() && id in users.rows
      modifies users
      ensures Valid() && r == Done
      ensures var u := old(users.rows)[id].(name := env.lib.trim(env.lib.trim(name)), passwordHash := hash);
              users.rows == old(users.rows)[id := Unlocked(u, now)]
    {
      var updated := users.Update(now, id, Some(env.lib.trim(name)), None);
      if updated.Fail? { return updated; }
      var ok := users.UpdatePassword(now, id, hash);
      if !ok { return Fail(NotFound); }
      users.ClearLock(now, id);
      return Done;
    }

    method AcceptInvite(now: Time, token: Token, name: string, password: string, salt: int) returns (r: Reply)
      requires Valid()
      modifies users
      ensures Valid()
      ensures (Tables(), r) == AcceptInviteSpec(env, old(Tables()), now, token, name, password, salt)
    {
      var claims := Parse(env.lib, token, now);
      if claims.None? || claims.value.purpose != PurposeInvite { return Fail(BadRequest); }
      if |password| < 10 { return Fail(BadRequest); }
      var id := claims.value.userId;
      var u := users.FindByID(id);
      if u.None? { return Fail(BadRequest); }
      if u.value.isActive { return Fail(Conflict); }
      var hash := env.lib.hashPassword(password, salt);
      if hash.None? { return Fail(Internal); }
      var written := WriteInvitee(now, id, name, hash.value);
      if written.Fail? { return written; }
      var setupTtl := env.cfg.totpSetupExpiryMinutes * MINUTE;
      return SetupRequired(IssuePurposeToken(env.lib, id, u.value.email, PurposeTotpSetup, now, setupTtl));
    }

    method EnsureBootstrapAdmin(now: Time, newId: Id, salt: int) returns (r: Reply)
      requires Valid()
      modifies users
      ensures Valid()
      ensures (Tables(), r) == EnsureBootstrapAdminSpec(env, old(Tables()), now, newId, salt)
    {
      if env.cfg.bootstrapAdminEmail == "" || env.cfg.bootstrapAdminPassword == "" { return Done; }
      var count := users.CountSuperAdmins();
      if count > 0 { return Done; }
      var hash := env.lib.hashPassword(env.cfg.bootstrapAdminPassword, salt);
      if hash.None? { return Fail(Internal); }
      var created := users.Create(now, newId, env.cfg.bootstrapAdminEmail, env.cfg.bootstrapAdminName, hash.value,
                                  SuperAdmin);
      return if created.Some? then Done else Fail(Internal);
    }
  }

  class UserService {
    const env: Env
    const users: UserRepository

    ghost predicate Valid()
      reads this, users
    {
      users.Valid() && users.lib == env.lib
    }

    constructor (env: Env, users: UserRepository)
      requires users.Valid() && users.lib == env.lib
      ensures Valid() && this.env == env && this.users == users
    {
      this.env := env;
      this.users := users;
    }

    method Update(now: Time, id: Id, newName: Option<string>, newRole: Option<UserRole>) returns (r: Reply)
      requires Valid()
      modifies users
      ensures Valid()
      ensures (users.rows, r) == UpdateUserSpec(env, old(users.rows), now, id, newName, newRole)
    {
      var current := users.FindByID(id);
      if current.None? { return Fail(NotFound); }
      if newRole.Some? && newRole.value != SuperAdmin && current.value.role == SuperAdmin {
        var count := users.CountSuperAdmins();
        if count <= 1 { return Fail(BadRequest); }
      }
      r := users.Update(now, id, newName, newRole);
    }

    method Invite(now: Time, email: string, name: string, role: UserRole, newId: Id) returns (r: Reply)
      requires Valid()
      modifies users
      ensures Valid()
      ensures (users.rows, r) == InviteSpec(env, old(users.rows), now, email, name, role, newId)
    {
      if role == SuperAdmin { return Fail(BadRequest); }
      var key := env.lib.lower(env.lib.trim(email));
      if key == "" { return Fail(BadRequest); }
      var existing := users.FindByEmail(key);
      if existing.Some? { return Fail(Conflict); }
      var created := users.Create(now, newId, key, env.lib.trim(name), "!", role);
      if created.None? { return Fail(Internal); }
      var (id, u) := created.value;
      var ok := users.Deactivate(now, id);
      if !ok { return Fail(Internal); }
      assert users.rows == old(users.rows)[newId := u.(isActive := false)];
      return InviteToken(IssuePurposeToken(env.lib, id, u.email, PurposeInvite, now, env.cfg.inviteTtlHours * HOUR));
    }

    method Deactivate(now: Time, id: Id) returns (r: Reply)
      requires Valid()
      modifies users
      ensures Valid()
      ensures (users.rows, r) == DeactivateSpec(old(users.rows), now, id)
    {
      var u := users.FindByID(id);
      if u.None? { return Fail(NotFound); }
      if u.value.role == SuperAdmin {
        var count := users.CountSuperAdmins();
        if count <= 1 { return Fail(BadRequest); }
      }
      var ok := users.Deactivate(now, id);
      return if ok then Done else Fail(NotFound);
    }
  }
}
