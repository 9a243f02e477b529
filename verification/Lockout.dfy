// How fast passwords can be guessed against one account.

module Lockout {
  import opened Options
  import opened Numbers
  import opened AuthTypes
  import opened AuthSpec
  import opened Histories

  /** Entry r is a Login that got as far as comparing the password against the hash of account u. */
  ghost predicate Compares(env: Env, r: Record, u: Id) {
    && r.op.Login?
    && LoginSubject(env, r.before.users, r.op.email) == Some(u)
    && r.before.users[u].isActive
    && !r.before.users[u].IsLocked(r.at)
  }

  ghost predicate WrongCheck(env: Env, r: Record, u: Id) {
    Compares(env, r, u) && !env.lib.passwordMatches(r.before.users[u].passwordHash, r.op.password)
  }

  ghost predicate RightCheck(env: Env, r: Record, u: Id) {
    Compares(env, r, u) && env.lib.passwordMatches(r.before.users[u].passwordHash, r.op.password)
  }

  /** Wrong comparisons against u among entries lo..hi. */
  ghost function WrongChecks(env: Env, h: History, u: Id, lo: nat, hi: nat): nat
    requires lo <= hi <= |h|
  {
    if lo == hi then 0
    else WrongChecks(env, h, u, lo, hi - 1) + if WrongCheck(env, h[hi - 1], u) then 1 else 0
  }

  /** Failures that get an account locked; a limit below one locks at the first failure. */
  function Limit(cfg: Config): int {
    if cfg.maxFailedAttempts < 1 then 1 else cfg.maxFailedAttempts
  }

  /** After n wrong comparisons since `start`: they took long enough, and an account that can still log in
      remembers all of them and is locked once there are Limit of them. */
  ghost predicate Guarded(cfg: Config, users: UserTable, u: Id, n: nat, start: Time, now: Time) {
    && (n > Limit(cfg) ==> start + (n - Limit(cfg)) * LOCK_DURATION <= now)
    && (u !in users ==> n == 0)
    && (u in users && users[u].isActive ==>
          && users[u].failedAttempts >= Min(n, INT32_MAX)
          && (n >= Limit(cfg) ==>
                && users[u].lockedUntil.Some?
                && users[u].lockedUntil.value >= start + (n - Limit(cfg) + 1) * LOCK_DURATION))
  }

  /** Only a password comparison touches the counter and the lock of an account that stays active. */
  lemma OnlyLoginMovesTheLock(env: Env, r: Record, u: Id)
    requires (r.after, r.reply) == Step(env, r.before, r.at, r.op)
    requires !Compares(env, r, u) && u in r.before.users && u in r.after.users && r.after.users[u].isActive
    ensures r.after.users[u].failedAttempts == r.before.users[u].failedAttempts
    ensures r.after.users[u].lockedUntil == r.before.users[u].lockedUntil
  {
  }

  lemma WrongCheckStaysGuarded(env: Env, r: Record, u: Id, n: nat, start: Time, last: Time)
    requires (r.after, r.reply) == Step(env, r.before, r.at, r.op)
    requires env.cfg.maxFailedAttempts <= INT32_MAX
    requires WrongCheck(env, r, u) && start <= last <= r.at
    requires Guarded(env.cfg, r.before.users, u, n, start, last)
    ensures Guarded(env.cfg, r.after.users, u, n + 1, start, r.at)
  {
  }

  lemma OtherStepsStayGuarded(env: Env, r: Record, u: Id, n: nat, start: Time, last: Time)
    requires (r.after, r.reply) == Step(env, r.before, r.at, r.op)
    requires !Compares(env, r, u) && last <= r.at
    requires Guarded(env.cfg, r.before.users, u, n, start, last)
    ensures Guarded(env.cfg, r.after.users, u, n, start, r.at)
  {
    StepEvolves(env, r.before, r.at, r.op);
    if u in r.before.users && r.after.users[u].isActive {
      OnlyLoginMovesTheLock(env, r, u);
    }
  }

  lemma {:induction false} StaysGuarded(env: Env, h: History, u: Id, lo: nat, hi: nat)
    requires IsRun(env, h) && lo < hi <= |h|
    requires env.cfg.maxFailedAttempts <= INT32_MAX
    requires forall i :: lo <= i < hi ==> !RightCheck(env, h[i], u)
    ensures Guarded(env.cfg, h[hi - 1].after.users, u, WrongChecks(env, h, u, lo, hi), h[lo].at, h[hi - 1].at)
    decreases hi
  {
    var r := h[hi - 1];
    var n := WrongChecks(env, h, u, lo, hi - 1);
    var last := if lo < hi - 1 then h[hi - 2].at else r.at;
    assert Legal(env, h, hi - 1);
    if lo < hi - 1 {
      StaysGuarded(env, h, u, lo, hi - 1);
      ClockIsMonotone(env, h, lo, hi - 2);
    }
    if WrongCheck(env, r, u) {
      WrongCheckStaysGuarded(env, r, u, n, h[lo].at, last);
    } else {
      OtherStepsStayGuarded(env, r, u, n, h[lo].at, last);
    }
  }

  /** In every run, any stretch of entries that fits in a closed interval of length `span`
      and holds no correct password for u holds at most Limit + span / 30 min wrong ones. */
  lemma LockoutRateBound(env: Env, h: History, u: Id, lo: nat, hi: nat, from: Time, span: nat)
    requires IsRun(env, h) && lo <= hi <= |h|
    requires env.cfg.maxFailedAttempts <= INT32_MAX
    requires forall i :: lo <= i < hi ==> from <= h[i].at <= from + span && !RightCheck(env, h[i], u)
    ensures WrongChecks(env, h, u, lo, hi) <= Limit(env.cfg) + span / LOCK_DURATION
  {
    if lo < hi {
      StaysGuarded(env, h, u, lo, hi);
      var n := WrongChecks(env, h, u, lo, hi);
      assert from <= h[lo].at && h[hi - 1].at <= from + span;
      assert n > Limit(env.cfg) ==> (n - Limit(env.cfg)) * LOCK_DURATION <= span;
    }
  }

  // ----- The bound is exact, and needs the limit to fit the column -----

  /** One account, no password that ever matches it. */
  function GuessingEnv(maxFailedAttempts: int): Env {
    Env(Config(24, 10, 60, 15, 30, maxFailedAttempts, 168, "a", "p", "n"),
        Library(s => s, s => s, (hash, password) => false, (password, salt) => Some("h"),
                (code, secret, now) => false, s => s, claims => 0))
  }

  /** When guess number n is made: at once until the lock, then each time the lock lapses. */
  function GuessTime(cfg: Config, n: nat): nat {
    if n <= Limit(cfg) || cfg.maxFailedAttempts > INT32_MAX then 0 else (n - Limit(cfg)) * LOCK_DURATION
  }

  ghost function Guess(env: Env, before: Db, at: Time): Record {
    var op := Login("a", "x");
    Record(at, op, before, Step(env, before, at, op).1, Step(env, before, at, op).0)
  }

  ghost function GuessingRun(env: Env, n: nat): (h: History)
    ensures |h| == n + 1
  {
    if n == 0 then
      var op := EnsureBootstrapAdmin(0, 0);
      [Record(0, op, EMPTY_DB, Step(env, EMPTY_DB, 0, op).1, Step(env, EMPTY_DB, 0, op).0)]
    else
      var h := GuessingRun(env, n - 1);
      h + [Guess(env, h[n - 1].after, GuessTime(env.cfg, n))]
  }

  ghost predicate GuessedAccount(cfg: Config, users: UserTable, n: nat) {
    && users.Keys == {0}
    && users[0].email == "a" && users[0].isActive
    && users[0].failedAttempts == Min(n, INT32_MAX)
    && users[0].lockedUntil == if n < Limit(cfg) || cfg.maxFailedAttempts > INT32_MAX
      then None else Some(GuessTime(cfg, n) + LOCK_DURATION)
  }

  lemma GuessIsWrong(env: Env, before: Db, n: nat)
    requires env == GuessingEnv(env.cfg.maxFailedAttempts) && n > 0
    requires GuessedAccount(env.cfg, before.users, n - 1)
    ensures var r := Guess(env, before, GuessTime(env.cfg, n));
            WrongCheck(env, r, 0) && GuessedAccount(env.cfg, r.after.users, n)
  {
    assert HasEmail(before.users, "a", 0);
    assert LoginSubject(env, before.users, "a") == Some(0);
    assert !before.users[0].IsLocked(GuessTime(env.cfg, n));
  }

  lemma FirstAccount(env: Env)
    requires env == GuessingEnv(env.cfg.maxFailedAttempts)
    ensures GuessedAccount(env.cfg, GuessingRun(env, 0)[0].after.users, 0)
  {
  }

  lemma {:induction false} SameWrongChecks(env: Env, g: History, h: History, u: Id, lo: nat, hi: nat)
    requires lo <= hi <= |g| <= |h| && g == h[..|g|]
    ensures WrongChecks(env, g, u, lo, hi) == WrongChecks(env, h, u, lo, hi)
    decreases hi
  {
    if lo < hi { SameWrongChecks(env, g, h, u, lo, hi - 1); }
  }

  lemma {:induction false} GuessingRunWorks(env: Env, n: nat)
    requires env == GuessingEnv(env.cfg.maxFailedAttempts)
    ensures var h := GuessingRun(env, n);
            && IsRun(env, h)
            && GuessedAccount(env.cfg, h[n].after.users, n)
            && WrongChecks(env, h, 0, 1, n + 1) == n
            && forall i :: 0 <= i <= n ==> 0 <= h[i].at <= GuessTime(env.cfg, n) && !RightCheck(env, h[i], 0)
  {
    var h := GuessingRun(env, n);
    if n == 0 {
      FirstAccount(env);
      RunExtends(env, [], h[0]);
      assert [] + h == h;
    } else {
      GuessingRunWorks(env, n - 1);
      var g := GuessingRun(env, n - 1);
      GuessIsWrong(env, g[n - 1].after, n);
      RunExtends(env, g, h[n]);
      SameWrongChecks(env, g, h, 0, 1, n);
    }
  }

  /** No smaller bound holds: for every limit that fits the column and every k,
      some run makes Limit + k wrong comparisons within k lock periods. */
  lemma LockoutRateBoundIsReached(maxFailedAttempts: int, k: nat) returns (env: Env, h: History)
    requires maxFailedAttempts <= INT32_MAX
    ensures env.cfg.maxFailedAttempts == maxFailedAttempts && IsRun(env, h) && |h| > 0
    ensures forall i :: 1 <= i < |h| ==> 0 <= h[i].at <= k * LOCK_DURATION && !RightCheck(env, h[i], 0)
    ensures WrongChecks(env, h, 0, 1, |h|) == Limit(env.cfg) + k
  {
    env := GuessingEnv(maxFailedAttempts);
    h := GuessingRun(env, Limit(env.cfg) + k);
    GuessingRunWorks(env, Limit(env.cfg) + k);
  }

  /** A limit above INT32_MAX never locks: any number of wrong comparisons fits in one instant. */
  lemma LimitPastColumnNeverLocks(maxFailedAttempts: int, n: nat) returns (env: Env, h: History)
    requires maxFailedAttempts > INT32_MAX
    ensures env.cfg.maxFailedAttempts == maxFailedAttempts && IsRun(env, h) && |h| > 0
    ensures forall i :: 1 <= i < |h| ==> h[i].at == 0 && !RightCheck(env, h[i], 0)
    ensures WrongChecks(env, h, 0, 1, |h|) == n
  {
    env := GuessingEnv(maxFailedAttempts);
    h := GuessingRun(env, n);
    GuessingRunWorks(env, n);
  }

  /** Entries lo..hi of h fit in `span`, hold no correct password for u, and beat the bound. */
  ghost predicate Exceeds(env: Env, h: History, u: Id, lo: nat, hi: nat, from: Time, span: nat) {
    && IsRun(env, h) && lo <= hi <= |h|
    && (forall i :: lo <= i < hi ==> from <= h[i].at <= from + span && !RightCheck(env, h[i], u))
    && WrongChecks(env, h, u, lo, hi) > Limit(env.cfg) + span / LOCK_DURATION
  }

  /** The documented lockout holds of every run exactly when the configured limit fits the 32-bit column. */
  lemma LockoutHoldsIffLimitFits(maxFailedAttempts: int)
    ensures maxFailedAttempts <= INT32_MAX <==>
            !exists env: Env, h: History, u: Id, lo: nat, hi: nat, from: Time, span: nat ::
              env.cfg.maxFailedAttempts == maxFailedAttempts && Exceeds(env, h, u, lo, hi, from, span)
  {
    if maxFailedAttempts <= INT32_MAX {
      forall env: Env, h: History, u: Id, lo: nat, hi: nat, from: Time, span: nat |
        env.cfg.maxFailedAttempts == maxFailedAttempts
        ensures !Exceeds(env, h, u, lo, hi, from, span)
      {
        if Exceeds(env, h, u, lo, hi, from, span) { LockoutRateBound(env, h, u, lo, hi, from, span); }
      }
    } else {
      var env, h := LimitPastColumnNeverLocks(maxFailedAttempts, maxFailedAttempts + 1);
      assert Exceeds(env, h, 0, 1, |h|, 0, 0);
    }
  }
}
