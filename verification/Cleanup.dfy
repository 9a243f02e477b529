// The scheduled cleanup of expired reset records cannot be noticed by any caller.

module Cleanup {
  import opened AuthTypes
  import opened AuthSpec
  import opened Histories

  datatype Call = Call(at: Time, op: Op)

  /** The answers callers see; DeleteExpired has no caller. */
  ghost function Answers(env: Env, db: Db, calls: seq<Call>): seq<Reply>
    decreases calls
  {
    if calls == [] then []
    else
      var (db', reply) := Step(env, db, calls[0].at, calls[0].op);
      (if calls[0].op.DeleteExpired? then [] else [reply]) + Answers(env, db', calls[1..])
  }

  function WithoutCleanups(calls: seq<Call>): seq<Call> {
    if calls == [] then []
    else (if calls[0].op.DeleteExpired? then [] else [calls[0]]) + WithoutCleanups(calls[1..])
  }

  /** The clock starts at `now` and never goes back. */
  ghost predicate Clocked(calls: seq<Call>, now: Time) {
    calls != [] ==> now <= calls[0].at && Clocked(calls[1..], calls[0].at)
  }

  /** No generated reset id is already in the table it is inserted into. */
  ghost predicate FreshIds(env: Env, db: Db, calls: seq<Call>)
    decreases calls
  {
    calls != [] ==>
      && (calls[0].op.ForgotPassword? ==> calls[0].op.newId !in db.resets)
      && FreshIds(env, Step(env, db, calls[0].at, calls[0].op).0, calls[1..])
  }

  /** `swept` is `kept` minus some rows that had expired by `now`. */
  ghost predicate Swept(swept: Db, kept: Db, now: Time) {
    && swept.users == kept.users
    && AtMostOneResetPerUser(swept.resets) && AtMostOneResetPerUser(kept.resets)
    && (forall id :: id in swept.resets ==> id in kept.resets && kept.resets[id] == swept.resets[id])
    && (forall id :: id in kept.resets && id !in swept.resets ==> kept.resets[id].IsExpired(now))
  }

  lemma SweepStaysSwept(swept: Db, kept: Db, now: Time, at: Time)
    requires Swept(swept, kept, now) && now <= at
    ensures Swept(swept.(resets := WithoutExpired(swept.resets, at)), kept, at)
  {
  }

  lemma ForgotPasswordStaysSwept(env: Env, swept: Db, kept: Db, at: Time, op: Op)
    requires Swept(swept, kept, at) && op.ForgotPassword? && op.newId !in kept.resets
    ensures Step(env, swept, at, op).1 == Step(env, kept, at, op).1
    ensures Swept(Step(env, swept, at, op).0, Step(env, kept, at, op).0, at)
  {
  }

  /** The row a verification could use is there in both tables, or in neither while still good. */
  lemma SamePendingUnlessExpired(swept: Db, kept: Db, at: Time, u: Id)
    requires Swept(swept, kept, at)
    ensures var a := LatestPending(swept.resets, u);
            var b := LatestPending(kept.resets, u);
            a == b || (a.None? && b.Some? && kept.resets[b.value].IsExpired(at))
  {
    var a := LatestPending(swept.resets, u);
    var b := LatestPending(kept.resets, u);
    if a.Some? {
      assert IsLatestPending(kept.resets, u, a.value);
    } else if b.Some? && b.value in swept.resets {
      assert IsLatestPending(swept.resets, u, b.value);
    }
  }

  lemma VerifyStaysSwept(env: Env, swept: Db, kept: Db, at: Time, op: Op)
    requires Swept(swept, kept, at) && op.VerifyResetEmail?
    ensures Step(env, swept, at, op).1 == Step(env, kept, at, op).1
    ensures Swept(Step(env, swept, at, op).0, Step(env, kept, at, op).0, at)
  {
    StepKeepsOneReset(env, swept, at, op);
    StepKeepsOneReset(env, kept, at, op);
    var subject := ResetSubject(env, kept.users, op.email);
    if subject.Some? { SamePendingUnlessExpired(swept, kept, at, subject.value); }
  }

  /** The other calls neither read nor write reset records. */
  lemma OtherCallsIgnoreResets(env: Env, a: Db, b: Db, at: Time, op: Op)
    requires a.users == b.users
    requires !op.ForgotPassword? && !op.VerifyResetEmail? && !op.DeleteExpired?
    ensures Step(env, a, at, op) == (Step(env, b, at, op).0.(resets := a.resets), Step(env, b, at, op).1)
  {
  }

  lemma OtherCallsStaySwept(env: Env, swept: Db, kept: Db, at: Time, op: Op)
    requires Swept(swept, kept, at)
    requires !op.ForgotPassword? && !op.VerifyResetEmail? && !op.DeleteExpired?
    ensures Step(env, swept, at, op).1 == Step(env, kept, at, op).1
    ensures Swept(Step(env, swept, at, op).0, Step(env, kept, at, op).0, at)
  {
    OtherCallsIgnoreResets(env, swept, kept, at, op);
    OtherCallsIgnoreResets(env, kept, kept, at, op);
  }

  lemma {:induction false} SweptRunsAnswerAlike(env: Env, swept: Db, kept: Db, now: Time, calls: seq<Call>)
    requires Swept(swept, kept, now) && Clocked(calls, now) && FreshIds(env, kept, WithoutCleanups(calls))
    ensures Answers(env, swept, calls) == Answers(env, kept, WithoutCleanups(calls))
    decreases calls
  {
    if calls != [] {
      var at, op := calls[0].at, calls[0].op;
      var swept' := Step(env, swept, at, op).0;
      if op.DeleteExpired? {
        SweepStaysSwept(swept, kept, now, at);
        assert WithoutCleanups(calls) == WithoutCleanups(calls[1..]);
        SweptRunsAnswerAlike(env, swept', kept, at, calls[1..]);
      } else {
        var rest := WithoutCleanups(calls[1..]);
        assert WithoutCleanups(calls) == [calls[0]] + rest;
        assert WithoutCleanups(calls)[1..] == rest;
        assert Swept(swept, kept, at);
        if op.ForgotPassword? { ForgotPasswordStaysSwept(env, swept, kept, at, op); }
        else if op.VerifyResetEmail? { VerifyStaysSwept(env, swept, kept, at, op); }
        else { OtherCallsStaySwept(env, swept, kept, at, op); }
        SweptRunsAnswerAlike(env, swept', Step(env, kept, at, op).0, at, calls[1..]);
      }
    }
  }

  /** Insert cleanups anywhere in a sequence of calls: every caller gets the same answer, token for token. */
  lemma CleanupIsUnobservable(env: Env, db: Db, now: Time, calls: seq<Call>)
    requires AtMostOneResetPerUser(db.resets) && Clocked(calls, now) && FreshIds(env, db, WithoutCleanups(calls))
    ensures Answers(env, db, calls) == Answers(env, db, WithoutCleanups(calls))
  {
    SweptRunsAnswerAlike(env, db, db, now, calls);
  }
}
