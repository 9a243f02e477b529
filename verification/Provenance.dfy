// Where tokens, sessions and password changes come from, over whole runs.

module Provenance {
  import opened Options
  import opened AuthTypes
  import opened Tokens
  import opened AuthSpec
  import opened Histories

  // ----- Purpose separation -----

  /** A token of any other purpose, an expired one or a forged one gets an error out of every call, and changes
      nothing. */
  lemma TokensAreNotInterchangeable(env: Env, db: Db, now: Time, op: Op)
    requires Presented(op).Some?
    requires var token := Presented(op).value;
             token.claims.purpose != NeededPurpose(op) || !Accepts(env.lib, token, now)
    ensures Step(env, db, now, op).0 == db && Step(env, db, now, op).1.Fail?
  {
  }

  // ----- Sessions -----

  /** Entry r is a Login of u that was given u's password while u was active and unlocked. */
  ghost predicate PasswordLogin(env: Env, r: Record, u: Id) {
    && r.op.Login?
    && LoginSubject(env, r.before.users, r.op.email) == Some(u)
    && r.before.users[u].isActive
    && !r.before.users[u].IsLocked(r.at)
    && env.lib.passwordMatches(r.before.users[u].passwordHash, r.op.password)
  }

  /** Entry r issued the given session after a code that was valid for the secret u has stored after r. */
  ghost predicate SessionStep(env: Env, r: Record, u: Id) {
    && r.reply.Session?
    && u in r.after.users
    && r.after.users[u].isActive
    && r.after.users[u].totpSecret.Some?
    && (r.op.VerifyTotp? || r.op.ConfirmTotp?)
    && env.lib.totpValid(env.lib.trim(r.op.code), r.after.users[u].totpSecret.value, r.at)
    && r.reply.token == IssueSessionToken(env.lib, u, r.after.users[u].email, r.after.users[u].role,
                                          RolePermissions(r.after.users[u].role), r.at, SessionTtl(env.cfg))
    && r.op.token.claims.userId == u
    && Accepts(env.lib, r.op.token, r.at)
    && r.op.token.claims.purpose == (if r.op.VerifyTotp? then PurposeMfa else PurposeTotpSetup)
  }

  lemma SessionsNeedACode(env: Env, h: History, i: nat)
    requires IsRun(env, h) && i < |h| && h[i].reply.Session?
    ensures SessionStep(env, h[i], h[i].reply.token.claims.userId)
  {
    assert Legal(env, h, i);
  }

  lemma MfaTokensComeFromLogins(env: Env, h: History, j: nat, token: Token)
    requires IsRun(env, h) && IssuedIn(h, j, token) && token.claims.purpose == PurposeMfa
    ensures PasswordLogin(env, h[j], token.claims.userId)
    ensures token.claims.expiresAt == NumericDate(h[j].at + MfaTtl(env.cfg))
  {
    assert Legal(env, h, j);
  }

  lemma SetupTokensComeFromLoginsOrInvites(env: Env, h: History, j: nat, token: Token)
    requires IsRun(env, h) && IssuedIn(h, j, token) && token.claims.purpose == PurposeTotpSetup
    ensures var u := token.claims.userId;
            || (PasswordLogin(env, h[j], u) && token.claims.expiresAt == NumericDate(h[j].at + LoginSetupTtl(env.cfg)))
            || (h[j].op.AcceptInvite? && u in h[j].before.users && !h[j].before.users[u].isActive)
  {
    assert Legal(env, h, j);
  }

  /** Entry j is the Login a session issued at entry i for u rests on, recent enough for its intermediate token. */
  ghost predicate LoginBehind(env: Env, h: History, i: int, j: int, u: Id) {
    && 0 <= j < i < |h|
    && PasswordLogin(env, h[j], u)
    && h[j].at <= h[i].at
    && h[i].at < NumericDate(h[j].at + if h[i].op.VerifyTotp? then env.cfg.mfaExpiryMinutes * MINUTE
                                       else OrDefault(env.cfg.totpSetupExpiryMinutes * MINUTE, HOUR))
  }

  /** Every session was issued to an active user on a valid code for the secret stored for that user, and rests on an
      earlier Login with that user's correct password, no older than the intermediate token's lifetime.
      An AcceptInvite never stands behind a session: the account it serves is inactive, and stays so. */
  lemma SessionProvenance(env: Env, h: History, i: nat)
    requires IsRun(env, h) && i < |h| && h[i].reply.Session?
    ensures var u := h[i].reply.token.claims.userId;
            SessionStep(env, h[i], u) && exists j :: LoginBehind(env, h, i, j, u)
  {
    var u := h[i].reply.token.claims.userId;
    SessionsNeedACode(env, h, i);
    assert Legal(env, h, i);
    var token := h[i].op.token;
    var j :| j < i && IssuedIn(h, j, token);
    ClockIsMonotone(env, h, j, i);
    if token.claims.purpose == PurposeMfa {
      MfaTokensComeFromLogins(env, h, j, token);
    } else {
      SetupTokensComeFromLoginsOrInvites(env, h, j, token);
      AccountsEvolve(env, h, j, i);
    }
    assert LoginBehind(env, h, i, j, u);
  }

  /** The documented invite flow (accept, enrol, session) never completes:
      the account behind an accepted invite gets no session at any later time. */
  lemma InvitedAccountsGetNoSession(env: Env, h: History, j: nat, i: nat)
    requires IsRun(env, h) && j < |h| && i < |h|
    requires h[j].op.Invite? && h[j].reply.InviteToken?
    ensures h[i].reply.Session? ==> h[i].reply.token.claims.userId != h[j].reply.token.claims.userId
  {
    var u := h[j].reply.token.claims.userId;
    assert Legal(env, h, j);
    assert !h[j].after.users[u].isActive && u !in h[j].before.users;
    if h[i].reply.Session? && h[i].reply.token.claims.userId == u {
      SessionsNeedACode(env, h, i);
      if j <= i { AccountsEvolve(env, h, j, i); }
      else { AccountsEvolve(env, h, i, j); }
    }
  }

  /** How far that flow gets: the invite is accepted exactly when its token has not lapsed and the password is long
      enough and hashes, the setup token that comes back is a good one, and enrolling with it is refused whatever
      the code. */
  lemma InviteFlowStopsAtEnrolment(env: Env, db: Db, op: Op, name: string, password: string, salt: int,
                                   invited: Time, accepted: Time, enrolled: Time, secret: string, code: string)
    requires op.Invite? && Step(env, db, invited, op).1.InviteToken?
    ensures var (db1, invite) := Step(env, db, invited, op);
            var (db2, reply) := Step(env, db1, accepted, AcceptInvite(invite.token, name, password, salt));
            && (reply.SetupRequired? <==> && accepted < NumericDate(invited + InviteTtl(env.cfg))
                                          && |password| >= 10 && env.lib.hashPassword(password, salt).Some?)
            && (reply.SetupRequired? ==>
                  && reply.token.claims.purpose == PurposeTotpSetup
                  && (enrolled < NumericDate(accepted + InviteSetupTtl(env.cfg)) ==>
                        Accepts(env.lib, reply.token, enrolled))
                  && Step(env, db2, enrolled, ConfirmTotp(reply.token, secret, code)) == (db2, Fail(Unauthorized)))
  {
  }

  // ----- Deactivation -----

  /** Once an account is inactive it stays inactive, and no session is issued to it. */
  lemma DeactivationIsFinal(env: Env, h: History, i: nat, j: nat, u: Id)
    requires IsRun(env, h) && i < j < |h|
    requires u in h[i].after.users && !h[i].after.users[u].isActive
    ensures u in h[j].after.users && !h[j].after.users[u].isActive
    ensures h[j].reply.Session? ==> h[j].reply.token.claims.userId != u
  {
    AccountsEvolve(env, h, i, j);
    if h[j].reply.Session? { SessionsNeedACode(env, h, j); }
  }

  /** Entry j issued this session to a user who was active and had the role and permissions it carries. */
  ghost predicate IssuedToHolder(env: Env, h: History, j: int, token: Token) {
    && IssuedIn(h, j, token)
    && SessionStep(env, h[j], token.claims.userId)
    && token.claims.role == Some(h[j].after.users[token.claims.userId].role)
    && token.claims.permissions == RolePermissions(h[j].after.users[token.claims.userId].role)
  }

  /** What the session middleware lets through belongs to a user who, less than JWTExpiryHours earlier,
      was active and had exactly the role and permissions put in the request context. */
  lemma AdmittedSessionsAreRecent(env: Env, h: History, i: nat)
    requires IsRun(env, h) && i < |h|
    requires h[i].op.Authorize? && h[i].op.expected == PurposeSession && h[i].reply.Admitted?
    ensures h[i].reply.claims == h[i].op.token.claims
    ensures exists j :: 0 <= j < i && IssuedToHolder(env, h, j, h[i].op.token)
                        && h[i].at - env.cfg.jwtExpiryHours * HOUR < h[j].at <= h[i].at
  {
    var token := h[i].op.token;
    assert Legal(env, h, i);
    var j :| j < i && IssuedIn(h, j, token);
    assert Legal(env, h, j);
    assert h[j].reply.Session?;
    SessionsNeedACode(env, h, j);
    ClockIsMonotone(env, h, j, i);
    assert NumericDate(h[j].at + SessionTtl(env.cfg)) == token.claims.expiresAt;
    assert IssuedToHolder(env, h, j, token);
  }

  // ----- The way to a session -----

  /** Partner of SessionProvenance: right after a successful Login, presenting the token it gave back yields a
      session exactly when the token has not lapsed and the code is valid, for the stored secret (MFA) or the
      offered one (setup). */
  lemma LoginThenCodeYieldsSession(env: Env, db: Db, now: Time, email: string, password: string, later: Time,
                                   secret: string, code: string)
    requires now <= later
    requires !LoginSpec(env, db, now, email, password).1.Fail?
    ensures var (db', r) := LoginSpec(env, db, now, email, password);
            var u := LoginSubject(env, db.users, email).value;
            if r.MfaChallenge? then
              Step(env, db', later, VerifyTotp(r.token, code)).1.Session? <==>
                && later < NumericDate(now + MfaTtl(env.cfg))
                && env.lib.totpValid(env.lib.trim(code), db.users[u].totpSecret.value, later)
            else
              && r.SetupRequired?
              && (Step(env, db', later, ConfirmTotp(r.token, secret, code)).1.Session? <==>
                    && later < NumericDate(now + LoginSetupTtl(env.cfg))
                    && env.lib.totpValid(env.lib.trim(code), secret, later))
  {
  }

  // ----- Enrolment -----

  /** The secret of u's last successful ConfirmTotp among the first n entries. */
  ghost function LastEnrolled(h: History, n: nat, u: Id): Option<string>
    requires n <= |h|
  {
    if n == 0 then None
    else if h[n - 1].op.ConfirmTotp? && h[n - 1].reply.Session? && h[n - 1].op.token.claims.userId == u
      then Some(h[n - 1].op.secret)
    else LastEnrolled(h, n - 1, u)
  }

  lemma StoredSecretStep(env: Env, r: Record, u: Id)
    requires (r.after, r.reply) == Step(env, r.before, r.at, r.op)
    ensures u in r.after.users ==>
              r.after.users[u].totpSecret ==
                if r.op.ConfirmTotp? && r.reply.Session? && r.op.token.claims.userId == u then Some(r.op.secret)
                else if u in r.before.users then r.before.users[u].totpSecret
                else None
    ensures r.op.ConfirmTotp? && r.reply.Session? ==> r.op.token.claims.userId in r.before.users
  {
    match r.op
    case Login(_, _) =>
    case EnsureBootstrapAdmin(_, _) =>
    case Invite(_, _, _, _) =>
    case _ =>
  }

  /** The stored secret is the one of the last successful enrolment, and enrolment never reverts. */
  lemma {:induction false} StoredSecretIsLastEnrolled(env: Env, h: History, n: nat, u: Id)
    requires IsRun(env, h) && 0 < n <= |h|
    ensures u in h[n - 1].after.users ==>
              && h[n - 1].after.users[u].totpSecret == LastEnrolled(h, n, u)
              && h[n - 1].after.users[u].totpEnabled == LastEnrolled(h, n, u).Some?
    ensures u !in h[n - 1].after.users ==> LastEnrolled(h, n, u).None?
  {
    assert Legal(env, h, n - 1);
    StoredSecretStep(env, h[n - 1], u);
    StepEvolves(env, h[n - 1].before, h[n - 1].at, h[n - 1].op);
    RunsAreConsistent(env, h, n - 1);
    assert TotpConsistent(h[n - 1].after.users);
    if n > 1 { StoredSecretIsLastEnrolled(env, h, n - 1, u); }
  }

  /** A successful Login asks for a code exactly when the account's last enrolment, if any, stored a non-empty secret;
      otherwise it asks for enrolment. It never answers with a session. */
  lemma LoginAsksForCodeIffEnrolled(env: Env, h: History, i: nat, u: Id)
    requires IsRun(env, h) && i < |h| && h[i].op.Login? && !h[i].reply.Fail?
    requires LoginSubject(env, h[i].before.users, h[i].op.email) == Some(u)
    ensures var secret := LastEnrolled(h, i, u);
            if secret.Some? && secret.value != "" then h[i].reply.MfaChallenge? else h[i].reply.SetupRequired?
  {
    assert Legal(env, h, i);
    if i > 0 { StoredSecretIsLastEnrolled(env, h, i, u); }
  }
}
