// Runs of the system: sequences of calls on one monotone clock, starting from empty tables.
// A token that verifies was issued earlier in the run; nothing else is assumed of the callers.

module Histories {
  import opened Options
  import opened AuthTypes
  import opened Tokens
  import opened AuthSpec

  datatype Record = Record(at: Time, op: Op, before: Db, reply: Reply, after: Db)
  type History = seq<Record>

  const EMPTY_DB := Db(map[], map[])

  ghost predicate IssuedIn(h: History, j: int, token: Token) {
    0 <= j < |h| && Issued(h[j].reply) == Some(token)
  }

  /** Entry i follows from the entries before it. */
  ghost predicate Legal(env: Env, h: History, i: int)
    requires 0 <= i < |h|
  {
    && (h[i].after, h[i].reply) == Step(env, h[i].before, h[i].at, h[i].op)
    && h[i].before == (if i == 0 then EMPTY_DB else h[i - 1].after)
    && (i > 0 ==> h[i - 1].at <= h[i].at)
    && (Presented(h[i].op).Some? && Verifies(env.lib, Presented(h[i].op).value) ==>
          exists j :: j < i && IssuedIn(h, j, Presented(h[i].op).value))
  }

  ghost predicate IsRun(env: Env, h: History) {
    forall i :: 0 <= i < |h| ==> Legal(env, h, i)
  }

  // ----- What every single step keeps -----

  ghost predicate TotpConsistent(users: UserTable) {
    forall id :: id in users ==> (users[id].totpEnabled <==> users[id].totpSecret.Some?)
  }

  ghost predicate RolesInEnum(users: UserTable) {
    forall id :: id in users ==> !users[id].role.Other?
  }

  /** Keys are unique, one reset row per user at most, TOTP is enabled exactly when a secret is stored, and every
      role is one of the enum's. */
  ghost predicate Consistent(db: Db) {
    && UniqueEmails(db.users)
    && AtMostOneResetPerUser(db.resets)
    && TotpConsistent(db.users)
    && RolesInEnum(db.users)
  }

  lemma InsertKeepsEmailsUnique(users: UserTable, id: Id, u: User)
    requires UniqueEmails(users) && CanInsert(users, id, u.email, u.role)
    ensures UniqueEmails(users[id := u])
  {
    forall other | other in users ensures users[other].email != u.email {
      assert !HasEmail(users, u.email, other);
    }
  }

  lemma StepKeepsOneReset(env: Env, db: Db, now: Time, op: Op)
    requires AtMostOneResetPerUser(db.resets)
    ensures AtMostOneResetPerUser(Step(env, db, now, op).0.resets)
  {
  }

  /** What no call undoes about an account: it keeps existing under its e-mail, deactivation is final,
      and TOTP settings change only to enabled with a secret. */
  ghost predicate Evolves(u: User, u': User) {
    && u'.email == u.email
    && (!u.isActive ==> !u'.isActive)
    && ((u'.totpEnabled == u.totpEnabled && u'.totpSecret == u.totpSecret) || (u'.totpEnabled && u'.totpSecret.Some?))
  }

  ghost predicate AllEvolve(users: UserTable, users': UserTable) {
    forall id :: id in users ==> id in users' && Evolves(users[id], users'[id])
  }

  lemma StepEvolves(env: Env, db: Db, now: Time, op: Op)
    ensures AllEvolve(db.users, Step(env, db, now, op).0.users)
  {
  }

  /** Every call but the two that insert keeps the set of accounts; those two add one row under an unused e-mail. */
  lemma StepAccounts(env: Env, db: Db, now: Time, op: Op)
    ensures var users := Step(env, db, now, op).0.users;
            if (op.EnsureBootstrapAdmin? || op.Invite?) && users != db.users then
              op.newId in users && CanInsert(db.users, op.newId, users[op.newId].email, users[op.newId].role)
              && users[op.newId].totpSecret.None? && !users[op.newId].totpEnabled
              && users == db.users[op.newId := users[op.newId]]
            else users.Keys == db.users.Keys
  {
  }

  lemma SameEmailsStayUnique(users: UserTable, users': UserTable)
    requires UniqueEmails(users) && AllEvolve(users, users') && users'.Keys == users.Keys
    ensures UniqueEmails(users')
  {
  }

  lemma StepKeepsEmailsUnique(env: Env, db: Db, now: Time, op: Op)
    requires UniqueEmails(db.users)
    ensures UniqueEmails(Step(env, db, now, op).0.users)
  {
    var users := Step(env, db, now, op).0.users;
    StepAccounts(env, db, now, op);
    StepEvolves(env, db, now, op);
    if users.Keys == db.users.Keys {
      SameEmailsStayUnique(db.users, users);
    } else {
      InsertKeepsEmailsUnique(db.users, op.newId, users[op.newId]);
    }
  }

  lemma StepKeepsTotpConsistent(env: Env, db: Db, now: Time, op: Op)
    requires TotpConsistent(db.users)
    ensures TotpConsistent(Step(env, db, now, op).0.users)
  {
    StepAccounts(env, db, now, op);
    StepEvolves(env, db, now, op);
  }

  lemma StepKeepsRolesInEnum(env: Env, db: Db, now: Time, op: Op)
    requires RolesInEnum(db.users)
    ensures RolesInEnum(Step(env, db, now, op).0.users)
  {
  }

  // ----- Lifting to runs -----

  lemma {:induction false} RunsAreConsistent(env: Env, h: History, i: nat)
    requires IsRun(env, h) && i < |h|
    ensures Consistent(h[i].before) && Consistent(h[i].after)
  {
    assert Legal(env, h, i);
    if i > 0 { RunsAreConsistent(env, h, i - 1); }
    StepKeepsEmailsUnique(env, h[i].before, h[i].at, h[i].op);
    StepKeepsOneReset(env, h[i].before, h[i].at, h[i].op);
    StepKeepsTotpConsistent(env, h[i].before, h[i].at, h[i].op);
    StepKeepsRolesInEnum(env, h[i].before, h[i].at, h[i].op);
  }

  lemma {:induction false} ClockIsMonotone(env: Env, h: History, i: nat, j: nat)
    requires IsRun(env, h) && i <= j < |h|
    ensures h[i].at <= h[j].at
    decreases j
  {
    if i < j {
      assert Legal(env, h, j);
      ClockIsMonotone(env, h, i, j - 1);
    }
  }

  /** Accounts are never deleted, renamed to another e-mail, reactivated or un-enrolled. */
  lemma {:induction false} AccountsEvolve(env: Env, h: History, i: nat, j: nat)
    requires IsRun(env, h) && i <= j < |h|
    ensures AllEvolve(h[i].before.users, h[j].after.users)
    ensures AllEvolve(h[i].after.users, h[j].after.users)
    ensures i < j ==> AllEvolve(h[i].after.users, h[j].before.users)
    decreases j
  {
    assert Legal(env, h, j);
    StepEvolves(env, h[j].before, h[j].at, h[j].op);
    if i < j { AccountsEvolve(env, h, i, j - 1); }
  }

  /** What h[i] issues verifies, names its subject, and carries the clock of that step. */
  lemma IssuedTokensVerify(env: Env, h: History, i: nat, token: Token)
    requires IsRun(env, h) && i < |h| && IssuedIn(h, i, token)
    ensures Verifies(env.lib, token) && token.claims.subject == Some(token.claims.userId)
    ensures token.claims.issuedAt == NumericDate(h[i].at)
    ensures token.claims.userId in h[i].after.users
  {
    assert Legal(env, h, i);
    match h[i].op
    case Login(_, _) =>
    case Invite(_, _, _, _) =>
    case _ =>
  }

  /** One more call that presents no token extends a run. */
  lemma RunExtends(env: Env, h: History, r: Record)
    requires IsRun(env, h)
    requires (r.after, r.reply) == Step(env, r.before, r.at, r.op) && Presented(r.op).None?
    requires r.before == (if h == [] then EMPTY_DB else h[|h| - 1].after)
    requires h != [] ==> h[|h| - 1].at <= r.at
    ensures IsRun(env, h + [r])
  {
    var g := h + [r];
    forall i | 0 <= i < |g| ensures Legal(env, g, i) {
      if i < |h| {
        assert Legal(env, h, i);
        if Presented(h[i].op).Some? && Verifies(env.lib, Presented(h[i].op).value) {
          var token := Presented(h[i].op).value;
          var j :| j < i && IssuedIn(h, j, token);
          assert IssuedIn(g, j, token);
        }
      }
    }
  }
}
