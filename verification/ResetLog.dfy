// The password_resets table against the log of the calls made, and where password changes come from.

module ResetLog {
  import opened Options
  import opened AuthTypes
  import opened Tokens
  import opened AuthSpec
  import opened Histories
  import opened Provenance

  /** Entry r is a ForgotPassword that reached the database for account u. */
  ghost predicate Requests(env: Env, r: Record, u: Id) {
    && r.op.ForgotPassword?
    && ResetSubject(env, r.before.users, r.op.email) == Some(u)
    && r.before.users[u].isActive
  }

  /** Entry r is a VerifyResetEmail that succeeded for account u. */
  ghost predicate Verified(r: Record, u: Id) {
    r.op.VerifyResetEmail? && r.reply.ResetToken? && r.reply.token.claims.userId == u
  }

  /** An outstanding OTP: its hash, until when it is good, and the entry that sent it. */
  datatype Challenge = Challenge(otpHash: string, expiresAt: Time, sentBy: int)

  /** The OTP the log of the first n entries leaves outstanding for u: the last one sent,
      unless its record could not be stored or a verification succeeded since. */
  ghost function Outstanding(env: Env, h: History, n: nat, u: Id): (c: Option<Challenge>)
    requires n <= |h|
    ensures c.Some? ==>
              && 0 <= c.value.sentBy < n && Requests(env, h[c.value.sentBy], u)
              && c.value.otpHash == env.lib.otpHash(h[c.value.sentBy].op.otp)
              && c.value.expiresAt == h[c.value.sentBy].at + OtpTtl(env.cfg)
  {
    if n == 0 then None
    else
      var r := h[n - 1];
      if Requests(env, r, u) then
        (if r.reply.Done? then Some(Challenge(env.lib.otpHash(r.op.otp), r.at + OtpTtl(env.cfg), n - 1)) else None)
      else if Verified(r, u) then None
      else Outstanding(env, h, n - 1, u)
  }

  /** The table holds the outstanding OTP of u, unless it has expired and been swept; any other row of u is spent. */
  ghost predicate Stores(resets: ResetTable, u: Id, c: Option<Challenge>, now: Time) {
    && (forall id :: IsPending(resets, u, id) ==>
          c.Some? && resets[id].otpHash == c.value.otpHash && resets[id].expiresAt == c.value.expiresAt)
    && (c.Some? && now <= c.value.expiresAt ==> exists id :: IsPending(resets, u, id))
  }

  /** Calls other than these three leave the table alone. */
  lemma OnlyResetCallsTouchResets(env: Env, db: Db, now: Time, op: Op)
    requires !op.ForgotPassword? && !op.VerifyResetEmail? && !op.DeleteExpired?
    ensures Step(env, db, now, op).0.resets == db.resets
  {
  }

  lemma RequestStores(env: Env, r: Record, u: Id, sentBy: int)
    requires (r.after, r.reply) == Step(env, r.before, r.at, r.op) && Requests(env, r, u)
    ensures Stores(r.after.resets, u,
                   if r.reply.Done?
                     then Some(Challenge(env.lib.otpHash(r.op.otp), r.at + OtpTtl(env.cfg), sentBy)) else None, r.at)
  {
    if r.reply.Done? { assert IsPending(r.after.resets, u, r.op.newId); }
  }

  lemma OtherRequestStores(env: Env, r: Record, u: Id, c: Option<Challenge>, now: Time)
    requires (r.after, r.reply) == Step(env, r.before, r.at, r.op)
    requires r.op.ForgotPassword? && !Requests(env, r, u) && now <= r.at
    requires Stores(r.before.resets, u, c, now)
    ensures Stores(r.after.resets, u, c, r.at)
  {
    forall id ensures IsPending(r.after.resets, u, id) <==> IsPending(r.before.resets, u, id) {
      var subject := ResetSubject(env, r.before.users, r.op.email);
      if subject.Some? && r.before.users[subject.value].isActive {
        assert subject.value != u;
      }
    }
    if c.Some? && r.at <= c.value.expiresAt {
      var id :| IsPending(r.before.resets, u, id);
      assert IsPending(r.after.resets, u, id);
    }
  }

  lemma VerifyStores(env: Env, r: Record, u: Id, c: Option<Challenge>, now: Time)
    requires (r.after, r.reply) == Step(env, r.before, r.at, r.op)
    requires r.op.VerifyResetEmail? && now <= r.at
    requires AtMostOneResetPerUser(r.before.resets)
    requires Stores(r.before.resets, u, c, now)
    ensures Stores(r.after.resets, u, if Verified(r, u) then None else c, r.at)
  {
    if r.reply.ResetToken? {
      var subject := ResetSubject(env, r.before.users, r.op.email).value;
      var used := LatestPending(r.before.resets, subject).value;
      forall id ensures IsPending(r.after.resets, u, id) <==> IsPending(r.before.resets, u, id) && id != used {
      }
      if subject != u && c.Some? && r.at <= c.value.expiresAt {
        var id :| IsPending(r.before.resets, u, id);
        assert IsPending(r.after.resets, u, id);
      }
    }
  }

  lemma SweepStores(resets: ResetTable, u: Id, c: Option<Challenge>, now: Time, at: Time)
    requires Stores(resets, u, c, now) && now <= at
    ensures Stores(WithoutExpired(resets, at), u, c, at)
  {
    forall id | IsPending(WithoutExpired(resets, at), u, id) ensures IsPending(resets, u, id) {
    }
    if c.Some? && at <= c.value.expiresAt {
      var id :| IsPending(resets, u, id);
      assert IsPending(WithoutExpired(resets, at), u, id);
    }
  }

  lemma {:induction false} TableStoresOutstanding(env: Env, h: History, n: nat, u: Id)
    requires IsRun(env, h) && 0 < n <= |h|
    ensures Stores(h[n - 1].after.resets, u, Outstanding(env, h, n, u), h[n - 1].at)
  {
    var r := h[n - 1];
    var now := if n > 1 then h[n - 2].at else r.at;
    var c := Outstanding(env, h, n - 1, u);
    assert Legal(env, h, n - 1);
    if n > 1 { TableStoresOutstanding(env, h, n - 1, u); }
    assert Stores(r.before.resets, u, c, now);
    RunsAreConsistent(env, h, n - 1);
    if r.op.ForgotPassword? {
      if Requests(env, r, u) { RequestStores(env, r, u, n - 1); } else { OtherRequestStores(env, r, u, c, now); }
    } else if r.op.VerifyResetEmail? {
      VerifyStores(env, r, u, c, now);
    } else if r.op.DeleteExpired? {
      SweepStores(r.before.resets, u, c, now, r.at);
    } else {
      OnlyResetCallsTouchResets(env, r.before, r.at, r.op);
    }
  }

  /** VerifyResetEmail succeeds exactly when the code is six bytes long and answers the outstanding OTP in time:
      a verdict on the log of calls alone, whatever cleanups ran. */
  lemma VerifySucceedsIffOutstanding(env: Env, h: History, i: nat, u: Id)
    requires IsRun(env, h) && i < |h| && h[i].op.VerifyResetEmail?
    requires ResetSubject(env, h[i].before.users, h[i].op.email) == Some(u)
    ensures var code := env.lib.trim(h[i].op.otp);
            var c := Outstanding(env, h, i, u);
            h[i].reply.ResetToken? <==>
              |code| == 6 && c.Some? && env.lib.otpHash(code) == c.value.otpHash && h[i].at <= c.value.expiresAt
    ensures h[i].reply.ResetToken? ==> h[i].reply.token.claims.userId == u
  {
    assert Legal(env, h, i);
    RunsAreConsistent(env, h, i);
    var c := Outstanding(env, h, i, u);
    if i > 0 { TableStoresOutstanding(env, h, i, u); }
    var resets := h[i].before.resets;
    if c.Some? && h[i].at <= c.value.expiresAt {
      var id :| IsPending(resets, u, id);
      assert IsLatestPending(resets, u, id);
    }
  }

  // ----- Password changes -----

  /** Entries k and j stand behind a password change of u at entry i: k sent an OTP, j was given it in time,
      and the token j issued had not lapsed at i. */
  ghost predicate ResetBehind(env: Env, h: History, i: int, j: int, k: int, u: Id) {
    && 0 <= k < j < i < |h|
    && Requests(env, h[k], u)
    && Verified(h[j], u)
    && env.lib.otpHash(env.lib.trim(h[j].op.otp)) == env.lib.otpHash(h[k].op.otp)
    && h[k].at <= h[j].at <= h[k].at + env.cfg.passwordResetOtpMinutes * MINUTE
    && h[j].at <= h[i].at < NumericDate(h[j].at + OrDefault(env.cfg.passwordResetJwtMinutes * MINUTE, 30 * MINUTE))
    && Outstanding(env, h, j, u).Some? && Outstanding(env, h, j, u).value.sentBy == k
  }

  lemma HashesChangeInTwoCalls(env: Env, r: Record, u: Id)
    requires (r.after, r.reply) == Step(env, r.before, r.at, r.op)
    requires u in r.before.users && u in r.after.users
    requires r.after.users[u].passwordHash != r.before.users[u].passwordHash
    ensures || (r.op.CompletePasswordReset? && r.op.token.claims.userId == u
                && r.op.token.claims.purpose == PurposePasswordReset && Accepts(env.lib, r.op.token, r.at)
                && (r.before.users[u].totpEnabled && r.before.users[u].totpSecret.Some? ==>
                      env.lib.totpValid(env.lib.trim(r.op.code), r.before.users[u].totpSecret.value, r.at)))
            || (r.op.AcceptInvite? && !r.before.users[u].isActive)
  {
  }

  lemma ResetTokensComeFromVerifications(env: Env, h: History, j: nat, token: Token)
    requires IsRun(env, h) && IssuedIn(h, j, token) && token.claims.purpose == PurposePasswordReset
    ensures Verified(h[j], token.claims.userId)
    ensures ResetSubject(env, h[j].before.users, h[j].op.email) == Some(token.claims.userId)
    ensures token.claims.expiresAt == NumericDate(h[j].at + ResetTtl(env.cfg))
  {
    assert Legal(env, h, j);
  }

  /** What is stored for u before entry i is what the log says. */
  lemma AccountStoresLastEnrolled(env: Env, h: History, i: nat, u: Id)
    requires IsRun(env, h) && i < |h| && u in h[i].before.users
    ensures h[i].before.users[u].totpSecret == LastEnrolled(h, i, u)
  {
    assert Legal(env, h, i);
    if i > 0 { StoredSecretIsLastEnrolled(env, h, i, u); }
  }

  lemma TokenHasResetBehind(env: Env, h: History, i: nat, token: Token) returns (j: nat, k: nat)
    requires IsRun(env, h) && i < |h| && Presented(h[i].op) == Some(token)
    requires Accepts(env.lib, token, h[i].at) && token.claims.purpose == PurposePasswordReset
    ensures ResetBehind(env, h, i, j, k, token.claims.userId)
  {
    var u := token.claims.userId;
    assert Legal(env, h, i);
    j :| j < i && IssuedIn(h, j, token);
    ClockIsMonotone(env, h, j, i);
    ResetTokensComeFromVerifications(env, h, j, token);
    VerifySucceedsIffOutstanding(env, h, j, u);
    k := Outstanding(env, h, j, u).value.sentBy;
    ClockIsMonotone(env, h, k, j);
  }

  /** The password of an active user changes only through a reset: an OTP sent to that user less than the OTP and token
      lifetimes ago, answered in between while it was the outstanding one, and a valid code if the user is enrolled. */
  lemma PasswordChangeProvenance(env: Env, h: History, i: nat, u: Id)
    requires IsRun(env, h) && i < |h|
    requires u in h[i].before.users && u in h[i].after.users && h[i].before.users[u].isActive
    requires h[i].after.users[u].passwordHash != h[i].before.users[u].passwordHash
    ensures h[i].op.CompletePasswordReset? && exists j, k :: ResetBehind(env, h, i, j, k, u)
    ensures exists k :: 0 <= k < i && Requests(env, h[k], u) && h[k].at > h[i].at - OtpTtl(env.cfg) - ResetTtl(env.cfg)
    ensures LastEnrolled(h, i, u).Some? ==>
              env.lib.totpValid(env.lib.trim(h[i].op.code), LastEnrolled(h, i, u).value, h[i].at)
  {
    assert Legal(env, h, i);
    HashesChangeInTwoCalls(env, h[i], u);
    RunsAreConsistent(env, h, i);
    AccountStoresLastEnrolled(env, h, i, u);
    var j, k := TokenHasResetBehind(env, h, i, h[i].op.token);
    assert NumericDate(h[j].at + ResetTtl(env.cfg)) <= h[j].at + ResetTtl(env.cfg);
  }

  /** Partner of PasswordChangeProvenance: an active user who asks for an OTP, returns it in time and presents the
      token before it lapses gets the new password stored exactly when the code (if enrolled), the length and the
      hashing allow it. */
  lemma ResetFlowStoresPassword(env: Env, db: Db, u: Id, asked: Time, answered: Time, completed: Time,
                                email: string, otp: string, id: Id, newPassword: string, code: string, salt: int)
    requires AtMostOneResetPerUser(db.resets) && id !in db.resets
    requires ResetSubject(env, db.users, email) == Some(u) && db.users[u].isActive
    requires env.lib.trim(otp) == otp && |otp| == 6
    requires asked <= answered <= asked + OtpTtl(env.cfg)
    requires answered <= completed < NumericDate(answered + ResetTtl(env.cfg))
    ensures var db1 := Step(env, db, asked, ForgotPassword(email, otp, id)).0;
            var (db2, verified) := Step(env, db1, answered, VerifyResetEmail(email, otp));
            && verified.ResetToken?
            && var op := CompletePasswordReset(verified.token, newPassword, code, salt);
               var (db3, reply) := Step(env, db2, completed, op);
               var secret := db.users[u].totpSecret;
               var hash := env.lib.hashPassword(newPassword, salt);
               var codeOk := db.users[u].totpEnabled && secret.Some? ==>
                               env.lib.totpValid(env.lib.trim(code), secret.value, completed);
               && (reply.Done? <==> codeOk && |newPassword| >= 10 && hash.Some?)
               && db3.users == if reply.Done?
                 then db.users[u := db.users[u].(passwordHash := hash.value, updatedAt := completed)] else db.users
  {
    var db1 := Step(env, db, asked, ForgotPassword(email, otp, id)).0;
    assert IsPending(db1.resets, u, id);
    assert IsLatestPending(db1.resets, u, id);
    StepKeepsOneReset(env, db, asked, ForgotPassword(email, otp, id));
    var (db2, verified) := Step(env, db1, answered, VerifyResetEmail(email, otp));
    assert verified.ResetToken?;
    assert Verifies(env.lib, verified.token);
  }
}
