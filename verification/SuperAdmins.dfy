// There is always somebody left to administer the system.

module SuperAdmins {
  import opened Options
  import opened AuthTypes
  import opened AuthSpec
  import opened Histories

  lemma AnotherMember<T>(s: set<T>, x: T) returns (y: T)
    requires |s| > 1
    ensures y in s && y != x
  {
    assert |s - {x}| > 0;
    y :| y in s - {x};
  }

  /** A call that can take an active super admin away: it deactivates, or sets another role. */
  predicate IsRemoval(op: Op) {
    op.Deactivate? || (op.UpdateUser? && op.newRole.Some? && op.newRole.value != SuperAdmin)
  }

  /** No other call does. */
  lemma OtherCallsKeepSuperAdmins(env: Env, db: Db, now: Time, op: Op)
    requires !IsRemoval(op)
    ensures ActiveSuperAdmins(db.users) <= ActiveSuperAdmins(Step(env, db, now, op).0.users)
  {
  }

  lemma StepKeepsASuperAdmin(env: Env, db: Db, now: Time, op: Op)
    requires ActiveSuperAdmins(db.users) != {}
    ensures ActiveSuperAdmins(Step(env, db, now, op).0.users) != {}
  {
    var after := Step(env, db, now, op).0.users;
    if IsRemoval(op) {
      var y :| y in ActiveSuperAdmins(db.users);
      if after != db.users && op.id in ActiveSuperAdmins(db.users) {
        y := AnotherMember(ActiveSuperAdmins(db.users), op.id);
      }
      assert y in ActiveSuperAdmins(after);
    } else {
      OtherCallsKeepSuperAdmins(env, db, now, op);
    }
  }

  /** Once an active super admin exists, one exists after every later call. */
  lemma {:induction false} ASuperAdminAlwaysRemains(env: Env, h: History, i: nat, j: nat)
    requires IsRun(env, h) && i <= j < |h|
    requires ActiveSuperAdmins(h[i].after.users) != {}
    ensures ActiveSuperAdmins(h[j].after.users) != {}
    ensures i < j ==> ActiveSuperAdmins(h[j].before.users) != {}
    decreases j
  {
    if i < j {
      assert Legal(env, h, j);
      ASuperAdminAlwaysRemains(env, h, i, j - 1);
      StepKeepsASuperAdmin(env, h[j].before, h[j].at, h[j].op);
    }
  }

  ghost predicate BootstrapCreates(r: Record) {
    r.op.EnsureBootstrapAdmin? && r.after.users != r.before.users
  }

  /** However often the service restarts, it bootstraps at most one account. */
  lemma BootstrapCreatesOnce(env: Env, h: History, i: nat, j: nat)
    requires IsRun(env, h) && i < j < |h|
    requires BootstrapCreates(h[i])
    ensures !BootstrapCreates(h[j])
  {
    assert Legal(env, h, i) && Legal(env, h, j);
    assert h[i].op.newId in ActiveSuperAdmins(h[i].after.users);
    ASuperAdminAlwaysRemains(env, h, i, j);
    assert |ActiveSuperAdmins(h[j].before.users)| > 0;
  }

  // ----- The statements of a removal one by one -----

  /** A removal under way: it has read a super admin's row and counts next, or it may write. */
  datatype Removal = Guarding(op: Op) | Passed(op: Op)

  /** `versions` are all users tables there ever were, the current one last; `inFlight` the removals, by request. */
  datatype State = State(versions: seq<UserTable>, inFlight: map<nat, Removal>)
  {
    function Users(): UserTable
      requires versions != []
    {
      versions[|versions| - 1]
    }

    /** Version v may answer a read: only the current one, or any if replicas lag. */
    predicate Readable(stale: bool, v: nat) {
      v < |versions| && (stale || v == |versions| - 1)
    }
  }

  /** Which of the guard's two reads, FindByID and CountSuperAdmins, may come from a replica that lags. */
  datatype Lag = Lag(row: bool, count: bool)

  const FRESH := Lag(false, false)

  /** What reading the row makes of a removal; None is an answer to the caller. */
  function AfterRead(users: UserTable, op: Op): Option<Removal>
    requires IsRemoval(op)
  {
    if op.id !in users then None else Some(if users[op.id].role == SuperAdmin then Guarding(op) else Passed(op))
  }

  function AfterCount(users: UserTable, op: Op): Option<Removal> {
    if |ActiveSuperAdmins(users)| <= 1 then None else Some(Passed(op))
  }

  /** The UPDATE alone. */
  ghost function Written(env: Env, users: UserTable, now: Time, op: Op): UserTable
    requires IsRemoval(op)
  {
    if op.id !in users then users
    else if op.Deactivate? then users[op.id := users[op.id].(isActive := false, updatedAt := now)]
    else if op.newRole.value.Other? then users
    else users[op.id := Patched(env.lib, users[op.id], op.newName, op.newRole, now)]
  }

  /** Run back to back on the current table, the statements are the call of AuthSpec. */
  lemma StatementsAreTheCall(env: Env, db: Db, now: Time, op: Op)
    requires IsRemoval(op)
    ensures var read := AfterRead(db.users, op);
            var counted := if read.Some? && read.value.Guarding? then AfterCount(db.users, op) else read;
            && Step(env, db, now, op).0.users == (if counted.Some? then Written(env, db.users, now, op) else db.users)
            && (counted.None? ==> Step(env, db, now, op).1.Fail?)
  {
  }

  function Put(inFlight: map<nat, Removal>, p: nat, r: Option<Removal>): map<nat, Removal> {
    if r.Some? then inFlight[p := r.value] else inFlight - {p}
  }

  ghost predicate ReadStep(limit: nat, lag: Lag, s: State, s': State, p: nat, op: Op, v: nat) {
    && p !in s.inFlight && |s.inFlight| < limit && IsRemoval(op) && s.Readable(lag.row, v)
    && s' == s.(inFlight := Put(s.inFlight, p, AfterRead(s.versions[v], op)))
  }

  ghost predicate CountStep(lag: Lag, s: State, s': State, p: nat, v: nat) {
    && p in s.inFlight && s.inFlight[p].Guarding? && s.Readable(lag.count, v)
    && s' == s.(inFlight := Put(s.inFlight, p, AfterCount(s.versions[v], s.inFlight[p].op)))
  }

  ghost predicate WriteStep(env: Env, s: State, s': State, p: nat, now: Time) {
    && p in s.inFlight && s.inFlight[p].Passed? && IsRemoval(s.inFlight[p].op) && s.versions != []
    && s' == State(s.versions + [Written(env, s.Users(), now, s.inFlight[p].op)], s.inFlight - {p})
  }

  /** Any other statement: active super admins stay active super admins (OtherCallsKeepSuperAdmins). */
  ghost predicate OtherStep(s: State, s': State, users: UserTable) {
    && s.versions != [] && ActiveSuperAdmins(s.Users()) <= ActiveSuperAdmins(users)
    && s' == s.(versions := s.versions + [users])
  }

  ghost predicate Next(env: Env, limit: nat, lag: Lag, s: State, s': State) {
    || (exists p, op, v :: ReadStep(limit, lag, s, s', p, op, v))
    || (exists p, v :: CountStep(lag, s, s', p, v))
    || (exists p, now :: WriteStep(env, s, s', p, now))
    || (exists users :: OtherStep(s, s', users))
  }

  /** One table with a super admin in it, and no removal under way. */
  ghost predicate Start(s: State) {
    |s.versions| == 1 && ActiveSuperAdmins(s.versions[0]) != {} && s.inFlight == map[]
  }

  ghost predicate Follows(env: Env, limit: nat, lag: Lag, t: seq<State>, i: int)
    requires 0 < i < |t|
  {
    Next(env, limit, lag, t[i - 1], t[i])
  }

  /** A run with at most `limit` removals in flight, its reads stale only if there is lag. */
  ghost predicate IsTrace(env: Env, limit: nat, lag: Lag, t: seq<State>) {
    && t != [] && Start(t[0])
    && forall i :: 0 < i < |t| ==> Follows(env, limit, lag, t, i)
  }

  // ----- One removal at a time, reading the current table -----

  ghost predicate OthersRemain(users: UserTable, id: Id) {
    exists y :: y != id && IsActiveSuperAdmin(users, y)
  }

  ghost predicate RemovalSafe(users: UserTable, r: Removal) {
    IsRemoval(r.op) && (r.Passed? ==> OthersRemain(users, r.op.id))
  }

  /** Somebody is an active super admin, and somebody other than its target once a removal may write. */
  ghost predicate Safe(s: State) {
    && s.versions != [] && ActiveSuperAdmins(s.Users()) != {}
    && |s.inFlight| <= 1
    && forall p :: p in s.inFlight ==> RemovalSafe(s.Users(), s.inFlight[p])
  }

  lemma OnlyMember<T>(s: set<T>, x: T)
    requires x in s && |s| <= 1
    ensures s == {x}
  {
    assert |s - {x}| == 0;
  }

  lemma PassedMeansOthers(users: UserTable, op: Op)
    requires IsRemoval(op) && ActiveSuperAdmins(users) != {}
    requires AfterRead(users, op) == Some(Passed(op)) || AfterCount(users, op) == Some(Passed(op))
    ensures OthersRemain(users, op.id)
  {
    var y :| y in ActiveSuperAdmins(users);
    if op.id in ActiveSuperAdmins(users) { y := AnotherMember(ActiveSuperAdmins(users), op.id); }
    assert IsActiveSuperAdmin(users, y) && y != op.id;
  }

  lemma ReadKeepsSafe(s: State, s': State, p: nat, op: Op, v: nat)
    requires Safe(s) && ReadStep(1, FRESH, s, s', p, op, v)
    ensures Safe(s')
  {
    assert s.inFlight == map[];
    if AfterRead(s.Users(), op) == Some(Passed(op)) { PassedMeansOthers(s.Users(), op); }
  }

  lemma CountKeepsSafe(s: State, s': State, p: nat, v: nat)
    requires Safe(s) && CountStep(FRESH, s, s', p, v)
    ensures Safe(s')
  {
    var op := s.inFlight[p].op;
    assert RemovalSafe(s.Users(), s.inFlight[p]);
    OnlyMember(s.inFlight.Keys, p);
    assert s'.inFlight.Keys <= {p};
    if AfterCount(s.Users(), op).Some? { PassedMeansOthers(s.Users(), op); }
  }

  lemma WriteKeepsSafe(env: Env, s: State, s': State, p: nat, now: Time)
    requires Safe(s) && WriteStep(env, s, s', p, now)
    ensures Safe(s')
  {
    assert RemovalSafe(s.Users(), s.inFlight[p]);
    var y :| y != s.inFlight[p].op.id && IsActiveSuperAdmin(s.Users(), y);
    assert y in ActiveSuperAdmins(s'.Users());
    OnlyMember(s.inFlight.Keys, p);
    assert s'.inFlight.Keys == {};
  }

  lemma OtherKeepsSafe(s: State, s': State, users: UserTable)
    requires Safe(s) && OtherStep(s, s', users)
    ensures Safe(s')
  {
    forall p | p in s'.inFlight ensures RemovalSafe(users, s'.inFlight[p]) {
      assert RemovalSafe(s.Users(), s.inFlight[p]);
      if s.inFlight[p].Passed? {
        var y :| y != s.inFlight[p].op.id && IsActiveSuperAdmin(s.Users(), y);
        assert y in ActiveSuperAdmins(users);
      }
    }
  }

  lemma NextKeepsSafe(env: Env, limit: nat, s: State, s': State)
    requires limit <= 1 && Safe(s) && Next(env, limit, FRESH, s, s')
    ensures Safe(s')
  {
    if p: nat, op, v: nat :| ReadStep(limit, FRESH, s, s', p, op, v) {
      ReadKeepsSafe(s, s', p, op, v);
    } else if p: nat, v: nat :| CountStep(FRESH, s, s', p, v) {
      CountKeepsSafe(s, s', p, v);
    } else if p: nat, now: Time :| WriteStep(env, s, s', p, now) {
      WriteKeepsSafe(env, s, s', p, now);
    } else {
      var users :| OtherStep(s, s', users);
      OtherKeepsSafe(s, s', users);
    }
  }

  lemma {:induction false} TracesStaySafe(env: Env, limit: nat, t: seq<State>, i: nat)
    requires limit <= 1 && IsTrace(env, limit, FRESH, t) && i < |t|
    ensures Safe(t[i])
  {
    if i > 0 {
      TracesStaySafe(env, limit, t, i - 1);
      assert Follows(env, limit, FRESH, t, i);
      NextKeepsSafe(env, limit, t[i - 1], t[i]);
    }
  }

  // ----- Overlap or lag loses all -----

  ghost predicate CanLoseAll(env: Env, limit: nat, lag: Lag) {
    exists t: seq<State>, i: nat ::
      IsTrace(env, limit, lag, t) && i < |t| && t[i].versions != [] && ActiveSuperAdmins(t[i].Users()) == {}
  }

  ghost predicate Reaches(env: Env, limit: nat, lag: Lag, s: State) {
    exists t: seq<State> :: IsTrace(env, limit, lag, t) && t[|t| - 1] == s
  }

  lemma ReachesNext(env: Env, limit: nat, lag: Lag, s: State, s': State)
    requires Reaches(env, limit, lag, s) && Next(env, limit, lag, s, s')
    ensures Reaches(env, limit, lag, s')
  {
    var t: seq<State> :| IsTrace(env, limit, lag, t) && t[|t| - 1] == s;
    var longer := t + [s'];
    forall i | 0 < i < |longer| ensures Follows(env, limit, lag, longer, i) {
      if i < |t| { assert Follows(env, limit, lag, t, i); }
    }
    assert IsTrace(env, limit, lag, longer);
  }

  lemma LostWhenReached(env: Env, limit: nat, lag: Lag, s: State)
    requires Reaches(env, limit, lag, s) && s.versions != [] && ActiveSuperAdmins(s.Users()) == {}
    ensures CanLoseAll(env, limit, lag)
  {
    var t: seq<State> :| IsTrace(env, limit, lag, t) && t[|t| - 1] == s;
    var i := |t| - 1;
    assert t[i].versions != [] && ActiveSuperAdmins(t[i].Users()) == {};
  }

  function SomeAdmin(email: string, active: bool): User {
    NewUser(email, "", "", SuperAdmin, 0).(isActive := active)
  }

  /** Super admins 0 and 1. */
  function Pair(zero: bool, one: bool): UserTable {
    map[0 := SomeAdmin("a", zero), 1 := SomeAdmin("b", one)]
  }

  lemma PairCounts()
    ensures ActiveSuperAdmins(Pair(true, true)) == {0, 1}
    ensures ActiveSuperAdmins(Pair(false, false)) == {}
  {
  }

  lemma PairReads(env: Env, limit: nat, lag: Lag, s: State, p: nat, v: nat)
    requires Reaches(env, limit, lag, s) && p !in s.inFlight && |s.inFlight| < limit && s.Readable(lag.row, v)
    requires p in s.versions[v] && s.versions[v][p].role == SuperAdmin
    ensures Reaches(env, limit, lag, s.(inFlight := s.inFlight[p := Guarding(Deactivate(p))]))
  {
    var s' := s.(inFlight := s.inFlight[p := Guarding(Deactivate(p))]);
    assert ReadStep(limit, lag, s, s', p, Deactivate(p), v);
    ReachesNext(env, limit, lag, s, s');
  }

  /** Request p starts to deactivate account p and passes the guard, counting on a table with both active. */
  lemma PairGuards(env: Env, limit: nat, lag: Lag, s: State, p: nat, read: nat, count: nat)
    requires Reaches(env, limit, lag, s) && p <= 1 && p !in s.inFlight && |s.inFlight| < limit
    requires s.Readable(lag.row, read) && s.Readable(lag.count, count)
    requires p in s.versions[read] && s.versions[read][p].role == SuperAdmin && s.versions[count] == Pair(true, true)
    ensures Reaches(env, limit, lag, s.(inFlight := s.inFlight[p := Passed(Deactivate(p))]))
  {
    PairReads(env, limit, lag, s, p, read);
    var guarding := s.(inFlight := s.inFlight[p := Guarding(Deactivate(p))]);
    var passed := s.(inFlight := s.inFlight[p := Passed(Deactivate(p))]);
    assert guarding.inFlight[p := Passed(Deactivate(p))] == passed.inFlight;
    PairCounts();
    assert CountStep(lag, guarding, passed, p, count);
    ReachesNext(env, limit, lag, guarding, passed);
  }

  lemma PairWrites(env: Env, limit: nat, lag: Lag, s: State, p: nat, after: UserTable)
    requires Reaches(env, limit, lag, s) && p in s.inFlight && s.inFlight[p] == Passed(Deactivate(p))
    requires s.versions != [] && after == Written(env, s.Users(), 0, Deactivate(p))
    ensures Reaches(env, limit, lag, State(s.versions + [after], s.inFlight - {p}))
  {
    var s' := State(s.versions + [after], s.inFlight - {p});
    assert WriteStep(env, s, s', p, 0);
    ReachesNext(env, limit, lag, s, s');
  }

  lemma PairIsReached(env: Env, limit: nat, lag: Lag)
    ensures Reaches(env, limit, lag, State([Pair(true, true)], map[]))
  {
    PairCounts();
    assert IsTrace(env, limit, lag, [State([Pair(true, true)], map[])]);
  }

  /** Account 0 is deactivated while nothing else is under way, on fresh reads. */
  lemma ZeroGoes(env: Env, limit: nat, lag: Lag, versions: seq<UserTable>)
    requires limit >= 1 && versions != [] && versions[|versions| - 1] == Pair(true, true)
    requires Reaches(env, limit, lag, State(versions, map[]))
    ensures Reaches(env, limit, lag, State(versions + [Pair(false, true)], map[]))
  {
    var s := State(versions, map[]);
    PairGuards(env, limit, lag, s, 0, |versions| - 1, |versions| - 1);
    s := s.(inFlight := map[0 := Passed(Deactivate(0))]);
    PairWrites(env, limit, lag, s, 0, Pair(false, true));
    assert s.inFlight - {0} == map[];
  }

  /** Account 1 goes as well, once its deactivation has passed the guard. */
  lemma OneGoesToo(env: Env, limit: nat, lag: Lag, s: State)
    requires Reaches(env, limit, lag, s) && s.inFlight == map[1 := Passed(Deactivate(1))]
    requires s.versions != [] && s.Users() == Pair(false, true)
    ensures CanLoseAll(env, limit, lag)
  {
    PairWrites(env, limit, lag, s, 1, Pair(false, false));
    PairCounts();
    LostWhenReached(env, limit, lag, State(s.versions + [Pair(false, false)], s.inFlight - {1}));
  }

  /** Two super admins deactivating each other at once. */
  lemma OverlapLosesAll(env: Env, limit: nat, lag: Lag)
    requires limit >= 2
    ensures CanLoseAll(env, limit, lag)
  {
    PairIsReached(env, limit, lag);
    var s := State([Pair(true, true)], map[]);
    PairGuards(env, limit, lag, s, 0, 0, 0);
    s := s.(inFlight := map[0 := Passed(Deactivate(0))]);
    PairGuards(env, limit, lag, s, 1, 0, 0);
    s := s.(inFlight := s.inFlight[1 := Passed(Deactivate(1))]);
    PairWrites(env, limit, lag, s, 0, Pair(false, true));
    assert s.inFlight - {0} == map[1 := Passed(Deactivate(1))];
    OneGoesToo(env, limit, lag, State(s.versions + [Pair(false, true)], map[1 := Passed(Deactivate(1))]));
  }

  /** One deactivation after the other, the second counting on a replica that has not seen the first. */
  lemma StaleCountLosesAll(env: Env, limit: nat, lag: Lag)
    requires limit >= 1 && lag.count
    ensures CanLoseAll(env, limit, lag)
  {
    PairIsReached(env, limit, lag);
    ZeroGoes(env, limit, lag, [Pair(true, true)]);
    var s := State([Pair(true, true)] + [Pair(false, true)], map[]);
    PairGuards(env, limit, lag, s, 1, 1, 0);
    OneGoesToo(env, limit, lag, s.(inFlight := map[1 := Passed(Deactivate(1))]));
  }

  /** Account 1 before it becomes a super admin. */
  function Promotable(): UserTable {
    map[0 := SomeAdmin("a", true), 1 := SomeAdmin("b", true).(role := Member)]
  }

  lemma PromotionIsOneCall(env: Env)
    ensures UpdateUserSpec(env, Promotable(), 0, 1, None, Some(SuperAdmin)).0 == Pair(true, true)
  {
  }

  lemma PromotionIsReached(env: Env, limit: nat, lag: Lag)
    ensures Reaches(env, limit, lag, State([Promotable(), Pair(true, true)], map[]))
  {
    var s, s' := State([Promotable()], map[]), State([Promotable(), Pair(true, true)], map[]);
    assert 0 in ActiveSuperAdmins(Promotable());
    assert IsTrace(env, limit, lag, [s]);
    PromotionIsOneCall(env);
    PairCounts();
    assert OtherStep(s, s', UpdateUserSpec(env, Promotable(), 0, 1, None, Some(SuperAdmin)).0);
    ReachesNext(env, limit, lag, s, s');
  }

  /** Account 1 is promoted, account 0 deactivated, and then account 1, whose row is read as it was at first. */
  lemma StaleRowLosesAll(env: Env, limit: nat, lag: Lag)
    requires limit >= 1 && lag.row
    ensures CanLoseAll(env, limit, lag)
  {
    PromotionIsReached(env, limit, lag);
    ZeroGoes(env, limit, lag, [Promotable(), Pair(true, true)]);
    var s := State([Promotable(), Pair(true, true)] + [Pair(false, true)], map[]);
    var s' := s.(inFlight := map[1 := Passed(Deactivate(1))]);
    assert ReadStep(limit, lag, s, s', 1, Deactivate(1), 0);
    ReachesNext(env, limit, lag, s, s');
    OneGoesToo(env, limit, lag, s');
  }

  lemma {:induction false} NothingStarts(env: Env, t: seq<State>, lag: Lag, i: nat)
    requires IsTrace(env, 0, lag, t) && i < |t|
    ensures t[i].inFlight == map[] && t[i].versions != [] && ActiveSuperAdmins(t[i].Users()) != {}
  {
    if i > 0 {
      NothingStarts(env, t, lag, i - 1);
      assert Follows(env, 0, lag, t, i);
    }
  }

  /** The guard keeps a super admin exactly when removals do not overlap and neither of its reads is stale. */
  lemma GuardHoldsIffSerialAndFresh(env: Env, limit: nat, lag: Lag)
    ensures CanLoseAll(env, limit, lag) <==> limit >= 2 || (limit == 1 && lag != FRESH)
  {
    if limit >= 2 {
      OverlapLosesAll(env, limit, lag);
    } else if limit == 1 && lag.count {
      StaleCountLosesAll(env, limit, lag);
    } else if limit == 1 && lag.row {
      StaleRowLosesAll(env, limit, lag);
    } else {
      forall t: seq<State>, i: nat | IsTrace(env, limit, lag, t) && i < |t|
        ensures t[i].versions != [] && ActiveSuperAdmins(t[i].Users()) != {}
      {
        if limit == 0 { NothingStarts(env, t, lag, i); } else { TracesStaySafe(env, limit, t, i); }
      }
    }
  }
}
