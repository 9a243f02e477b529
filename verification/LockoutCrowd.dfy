// How the bound of LockoutRace is met by overlapping Logins, and when the bound of the atomic calls fails.

module LockoutCrowd {
  import opened Options
  import opened Numbers
  import opened AuthTypes
  import opened Lockout
  import opened LockoutRace

  lemma ReachesNext(cfg: Config, limit: nat, lag: Lag, s: State, l: Label)
    requires Reaches(cfg, limit, lag, s) && Enabled(limit, lag, s, l)
    ensures Reaches(cfg, limit, lag, Next(cfg, limit, lag, s, l).value)
  {
    var t: seq<State> :| IsTrace(cfg, limit, lag, t) && t[|t| - 1] == s;
    var longer := t + [Next(cfg, limit, lag, s, l).value];
    forall i | 0 < i < |longer| ensures Follows(cfg, limit, lag, longer, i) {
      if i < |t| { assert Follows(cfg, limit, lag, t, i); }
    }
    assert IsTrace(cfg, limit, lag, longer);
  }

  lemma ReachesAttempt(cfg: Config, limit: nat, lag: Lag, s: State, p: nat, v: nat, back: nat, w: Window)
    requires Reaches(cfg, limit, lag, s)
    requires s.versions != [] && p !in s.inFlight && |s.inFlight| < limit
    requires s.Readable(lag.row, v) && !s.versions[v].Locked(s.now)
    requires back == |s.versions| || (lag.back && back < |s.versions|)
    ensures Reaches(cfg, limit, lag, AfterAttempt(cfg, s, p, back))
    ensures Hits(AfterAttempt(cfg, s, p, back).wrong, w) == Hits(s.wrong, w) + One(w.Covers(s.now))
  {
    var read := s.(inFlight := s.inFlight[p := Passed]);
    AttemptCompares(cfg, limit, lag, s, p, v);
    ReachesNext(cfg, limit, lag, s, Read(p, v));
    ReachesNext(cfg, limit, lag, read, Compare(p));
    AttemptCounts(cfg, limit, lag, s, p, back);
    ReachesNext(cfg, limit, lag, ComparedState(s, p), Count(p));
    ReachesNext(cfg, limit, lag, CountedState(s, p), ReadBack(p, back));
    assert (s.wrong + [s.now])[..|s.wrong|] == s.wrong;
  }

  const FIRST := State(0, [Columns(0, None)], map[], [])

  /** k failures one after the other at one instant, none of which locks. */
  lemma {:induction false} Failures(cfg: Config, limit: nat, lag: Lag, k: nat, w: Window) returns (s: State)
    requires limit > 0 && (k < Limit(cfg) || cfg.maxFailedAttempts > INT32_MAX)
    ensures Reaches(cfg, limit, lag, s) && s.now == 0 && s.inFlight == map[]
    ensures Hits(s.wrong, w) == if w.Covers(0) then k else 0
    ensures s.versions != [] && s.versions[0] == Columns(0, None) && s.Current() == Columns(Min(k, INT32_MAX), None)
  {
    if k == 0 {
      s := FIRST;
      assert IsTrace(cfg, limit, lag, [FIRST]);
    } else {
      s := Failures(cfg, limit, lag, k - 1, w);
      ReachesAttempt(cfg, limit, lag, s, 0, |s.versions| - 1, |s.versions|, w);
      s := AfterAttempt(cfg, s, 0, |s.versions|);
    }
  }

  // ----- Rounds of Logins that undo each other's locks -----

  /** A reachable state at time `at` with n hits behind it, in which the next failure locks. */
  ghost predicate Raid(cfg: Config, limit: nat, lag: Lag, w: Window, s: State, at: Time, inFlight: map<nat, Stage>,
                       n: nat)
  {
    && Reaches(cfg, limit, lag, s) && s.now == at && s.inFlight == inFlight && Hits(s.wrong, w) == n
    && s.versions != [] && s.Current().failed >= cfg.maxFailedAttempts - 1
  }

  lemma RaidWrites(cfg: Config, limit: nat, lag: Lag, w: Window, s: State, at: Time, inFlight: map<nat, Stage>, n: nat,
                   p: nat) returns (s': State)
    requires Raid(cfg, limit, lag, w, s, at, inFlight, n) && p in inFlight && inFlight[p].Locking?
    ensures Raid(cfg, limit, lag, w, s', at, inFlight - {p}, n)
    ensures s'.Current().lockedUntil == Some(inFlight[p].until)
  {
    ReachesNext(cfg, limit, lag, s, WriteLock(p));
    s' := Next(cfg, limit, lag, s, WriteLock(p)).value;
  }

  lemma RaidAttempts(cfg: Config, limit: nat, lag: Lag, w: Window, s: State, at: Time, inFlight: map<nat, Stage>,
                     n: nat, p: nat) returns (s': State)
    requires Raid(cfg, limit, lag, w, s, at, inFlight, n) && cfg.maxFailedAttempts <= INT32_MAX
    requires p !in inFlight && |inFlight| < limit && !s.Current().Locked(at)
    ensures Raid(cfg, limit, lag, w, s', at, inFlight[p := Locking(at + LOCK_DURATION)], n + One(w.Covers(at)))
    ensures s'.Current().lockedUntil == s.Current().lockedUntil
  {
    ReachesAttempt(cfg, limit, lag, s, p, |s.versions| - 1, |s.versions|, w);
    s' := AfterAttempt(cfg, s, p, |s.versions|);
  }

  function Places(c: nat): (places: set<nat>)
    ensures |places| == c && forall p: nat :: p in places <==> p < c
  {
    if c == 0 then {} else Places(c - 1) + {c - 1}
  }

  /** Requests below i about to lock until `later`, those from j on below c until `late`. */
  function Flight(i: nat, later: Time, j: nat, c: nat, late: Time): map<nat, Stage> {
    map p | p in Places(c) && (p < i || j <= p) :: Locking(if p < i then later else late)
  }

  lemma FlightFills(i: nat, later: Time, j: nat, c: nat, late: Time)
    requires i < j <= c
    ensures i !in Flight(i, later, j, c, late)
    ensures Flight(i, later, j, c, late)[i := Locking(later)] == Flight(i + 1, later, j, c, late)
  {
  }

  lemma FlightLeaves(i: nat, later: Time, j: nat, c: nat, late: Time)
    requires i <= j <= c
    ensures i > 0 ==> Flight(i, later, j, c, late) - {i - 1} == Flight(i - 1, later, j, c, late)
    ensures i == 0 && j < c ==> Flight(0, later, j, c, late) - {j} == Flight(0, later, j + 1, c, late)
  {
  }

  lemma FlightHasRoom(i: nat, later: Time, j: nat, c: nat, late: Time)
    requires i < j <= c
    ensures |Flight(i, later, j, c, late)| < c
  {
    var flight := Flight(i, later, j, c, late).Keys;
    assert Places(c) - {i} == flight + (Places(c) - {i} - flight);
  }

  lemma RefillOne(cfg: Config, limit: nat, lag: Lag, w: Window, s: State, at: Time, j: nat, late: Time, n: nat, i: nat)
    returns (s': State)
    requires Raid(cfg, limit, lag, w, s, at, Flight(i, at + LOCK_DURATION, j, limit, late), n)
    requires i < j <= limit && cfg.maxFailedAttempts <= INT32_MAX && !s.Current().Locked(at)
    ensures Raid(cfg, limit, lag, w, s', at, Flight(i + 1, at + LOCK_DURATION, j, limit, late), n + One(w.Covers(at)))
    ensures s'.Current().lockedUntil == s.Current().lockedUntil
  {
    var flight := Flight(i, at + LOCK_DURATION, j, limit, late);
    FlightHasRoom(i, at + LOCK_DURATION, j, limit, late);
    FlightFills(i, at + LOCK_DURATION, j, limit, late);
    s' := RaidAttempts(cfg, limit, lag, w, s, at, flight, n, i);
  }

  /** The free places 0 to m - 1 are taken and compared, while no lock stands. */
  lemma {:induction false} Refill(cfg: Config, limit: nat, lag: Lag, w: Window, s: State, at: Time, j: nat, late: Time,
                                  n: nat, m: nat) returns (s': State)
    requires Raid(cfg, limit, lag, w, s, at, Flight(0, at + LOCK_DURATION, j, limit, late), n)
    requires m <= j <= limit && cfg.maxFailedAttempts <= INT32_MAX && !s.Current().Locked(at)
    ensures Raid(cfg, limit, lag, w, s', at, Flight(m, at + LOCK_DURATION, j, limit, late),
                 n + if w.Covers(at) then m else 0)
    ensures s'.Current().lockedUntil == s.Current().lockedUntil
  {
    s' := s;
    if m > 0 {
      s' := Refill(cfg, limit, lag, w, s, at, j, late, n, m - 1);
      s' := RefillOne(cfg, limit, lag, w, s', at, j, late, n + if w.Covers(at) then m - 1 else 0, m - 1);
    }
  }

  /** They all write their locks. */
  lemma {:induction false} Drain(cfg: Config, limit: nat, lag: Lag, w: Window, s: State, at: Time, m: nat, later: Time,
                                 j: nat, late: Time, n: nat) returns (s': State)
    requires Raid(cfg, limit, lag, w, s, at, Flight(m, later, j, limit, late), n) && m <= j <= limit
    ensures Raid(cfg, limit, lag, w, s', at, Flight(0, later, j, limit, late), n)
    decreases m
  {
    s' := s;
    if m > 0 {
      s' := RaidWrites(cfg, limit, lag, w, s, at, Flight(m, later, j, limit, late), n, m - 1);
      FlightLeaves(m, later, j, limit, late);
      s' := Drain(cfg, limit, lag, w, s', at, m - 1, later, j, late, n);
    }
  }

  /** The places taken so far write their locks, a late lock undoes them, and one place more compares. */
  lemma OneRound(cfg: Config, limit: nat, lag: Lag, w: Window, s: State, at: Time, late: Time, n: nat, i: nat)
    returns (s': State)
    requires Raid(cfg, limit, lag, w, s, at, Flight(i, at + LOCK_DURATION, i, limit, late), n)
    requires i < limit && late <= at && cfg.maxFailedAttempts <= INT32_MAX
    ensures Raid(cfg, limit, lag, w, s', at, Flight(i + 1, at + LOCK_DURATION, i + 1, limit, late),
                 n + if w.Covers(at) then i + 1 else 0)
  {
    var later := at + LOCK_DURATION;
    s' := Drain(cfg, limit, lag, w, s, at, i, later, i, late, n);
    s' := RaidWrites(cfg, limit, lag, w, s', at, Flight(0, later, i, limit, late), n, i);
    FlightLeaves(0, later, i, limit, late);
    s' := Refill(cfg, limit, lag, w, s', at, i + 1, late, n, i + 1);
  }

  lemma {:induction false} Rounds(cfg: Config, limit: nat, lag: Lag, w: Window, s: State, at: Time, late: Time, n: nat,
                                  i: nat) returns (s': State)
    requires Raid(cfg, limit, lag, w, s, at, Flight(0, at + LOCK_DURATION, 0, limit, late), n)
    requires i <= limit && late <= at && cfg.maxFailedAttempts <= INT32_MAX
    ensures Raid(cfg, limit, lag, w, s', at, Flight(i, at + LOCK_DURATION, i, limit, late),
                 n + if w.Covers(at) then Triangle(i) else 0)
  {
    s' := s;
    if i > 0 {
      s' := Rounds(cfg, limit, lag, w, s, at, late, n, i - 1);
      s' := OneRound(cfg, limit, lag, w, s', at, late, n + if w.Covers(at) then Triangle(i - 1) else 0, i - 1);
    }
  }

  /** All places compare before the first lock is written. */
  lemma FirstCrowd(cfg: Config, limit: nat, lag: Lag, w: Window) returns (s: State)
    requires cfg.maxFailedAttempts <= INT32_MAX && limit > 0
    ensures Raid(cfg, limit, lag, w, s, 0, Flight(0, 0, 0, limit, LOCK_DURATION),
                 if w.Covers(0) then Limit(cfg) + limit - 1 else 0)
  {
    s := Failures(cfg, limit, lag, Limit(cfg) - 1, w);
    assert Flight(0, LOCK_DURATION, limit, limit, 0) == map[];
    s := Refill(cfg, limit, lag, w, s, 0, limit, 0, Hits(s.wrong, w), limit);
    assert Flight(limit, LOCK_DURATION, limit, limit, 0) == Flight(0, 0, 0, limit, LOCK_DURATION);
  }

  /** Hits when that happens at 0, and all rounds at the end of each of k lock periods. */
  function HitsOfRaids(cfg: Config, limit: nat, w: Window, k: nat): nat {
    if k == 0 then (if w.Covers(0) then Limit(cfg) + limit - 1 else 0)
    else HitsOfRaids(cfg, limit, w, k - 1) + if w.Covers(k * LOCK_DURATION) then Triangle(limit) else 0
  }

  lemma {:induction false} Raids(cfg: Config, limit: nat, lag: Lag, w: Window, k: nat) returns (s: State)
    requires cfg.maxFailedAttempts <= INT32_MAX && limit > 0
    ensures Raid(cfg, limit, lag, w, s, k * LOCK_DURATION, Flight(0, 0, 0, limit, (k + 1) * LOCK_DURATION),
                 HitsOfRaids(cfg, limit, w, k))
  {
    if k == 0 {
      s := FirstCrowd(cfg, limit, lag, w);
    } else {
      var at, late := k * LOCK_DURATION, k * LOCK_DURATION;
      s := Raids(cfg, limit, lag, w, k - 1);
      ReachesNext(cfg, limit, lag, s, Tick(at));
      s := s.(now := at);
      assert Flight(0, 0, 0, limit, late) == Flight(0, at + LOCK_DURATION, 0, limit, late);
      s := Rounds(cfg, limit, lag, w, s, at, late, HitsOfRaids(cfg, limit, w, k - 1), limit);
      assert Flight(limit, at + LOCK_DURATION, limit, limit, late) == Flight(0, 0, 0, limit, (k + 1) * LOCK_DURATION);
    }
  }

  lemma {:induction false} HitsOfRaidsClosed(cfg: Config, limit: nat, first: nat, k: nat, j: nat)
    requires first <= 1 && j <= first + k && limit > 0
    ensures HitsOfRaids(cfg, limit, Window(first * LOCK_DURATION, k * LOCK_DURATION), j) ==
              (if first == 0 then Limit(cfg) + limit - 1 else 0) + j * Triangle(limit)
  {
    if j > 0 {
      HitsOfRaidsClosed(cfg, limit, first, k, j - 1);
      assert j * Triangle(limit) == (j - 1) * Triangle(limit) + Triangle(limit);
    }
  }

  /** Partner of LockoutRace.CrowdBound: for every number c of Logins in flight and every k, some run makes as many
      wrong comparisons as it allows within k lock periods. */
  lemma CrowdBoundIsReached(cfg: Config, c: nat, lag: Lag, k: nat) returns (s: State, w: Window)
    requires cfg.maxFailedAttempts <= INT32_MAX && c > 0
    ensures Reaches(cfg, c, lag, s) && w.span == k * LOCK_DURATION
    ensures Hits(s.wrong, w) == Max(Limit(cfg) + c - 1, Triangle(c)) + k * Triangle(c)
  {
    var first := if Limit(cfg) + c - 1 < Triangle(c) then 1 else 0;
    w := Window(first * LOCK_DURATION, k * LOCK_DURATION);
    s := Raids(cfg, c, lag, w, first + k);
    HitsOfRaidsClosed(cfg, c, first, k, first + k);
    assert (1 + k) * Triangle(c) == Triangle(c) + k * Triangle(c);
  }

  /** A lock written late replaces a newer one that would have lasted longer. */
  lemma LateLockShortens(cfg: Config, limit: nat, lag: Lag) returns (s: State, p: nat)
    requires cfg.maxFailedAttempts <= INT32_MAX && limit >= 2
    ensures Reaches(cfg, limit, lag, s) && Enabled(limit, lag, s, WriteLock(p))
    ensures var s' := Next(cfg, limit, lag, s, WriteLock(p)).value;
            && s.Current().lockedUntil == Some(s.now + LOCK_DURATION)
            && s'.Current().lockedUntil == Some(s.now + LOCK_DURATION - 1)
  {
    var w := Window(0, 0);
    s := Failures(cfg, limit, lag, Limit(cfg) - 1, w);
    p := 0;
    s := RaidAttempts(cfg, limit, lag, w, s, 0, map[], Hits(s.wrong, w), 0);
    ReachesNext(cfg, limit, lag, s, Tick(1));
    s := s.(now := 1);
    s := RaidAttempts(cfg, limit, lag, w, s, 1, s.inFlight, Hits(s.wrong, w), 1);
    s := RaidWrites(cfg, limit, lag, w, s, 1, s.inFlight, Hits(s.wrong, w), 1);
  }

  // ----- Stale reads -----

  /** Lock checks that all read the first, unlocked version of the row. */
  lemma {:induction false} StaleRowsNeverRefuse(cfg: Config, limit: nat, lag: Lag, n: nat, w: Window) returns (s: State)
    requires limit > 0 && lag.row && w.Covers(0)
    ensures Reaches(cfg, limit, lag, s) && Hits(s.wrong, w) == n
    ensures s.now == 0 && s.inFlight == map[] && s.versions != [] && s.versions[0] == Columns(0, None)
  {
    if n == 0 {
      s := FIRST;
      assert IsTrace(cfg, limit, lag, [FIRST]);
    } else {
      s := StaleRowsNeverRefuse(cfg, limit, lag, n - 1, w);
      ReachesAttempt(cfg, limit, lag, s, 0, 0, |s.versions|, w);
      s := AfterAttempt(cfg, s, 0, |s.versions|);
      if 0 in s.inFlight {
        ReachesNext(cfg, limit, lag, s, WriteLock(0));
        s := Next(cfg, limit, lag, s, WriteLock(0)).value;
        assert s.inFlight == map[];
      }
    }
  }

  /** Read-backs that all find the first count, zero. */
  lemma {:induction false} StaleCountsNeverLock(cfg: Config, limit: nat, lag: Lag, n: nat, w: Window) returns (s: State)
    requires limit > 0 && lag.back && cfg.maxFailedAttempts > 0 && w.Covers(0)
    ensures Reaches(cfg, limit, lag, s) && Hits(s.wrong, w) == n
    ensures s.now == 0 && s.inFlight == map[] && s.versions != [] && s.versions[0] == Columns(0, None)
    ensures s.Current().lockedUntil == None
  {
    if n == 0 {
      s := FIRST;
      assert IsTrace(cfg, limit, lag, [FIRST]);
    } else {
      s := StaleCountsNeverLock(cfg, limit, lag, n - 1, w);
      ReachesAttempt(cfg, limit, lag, s, 0, |s.versions| - 1, 0, w);
      s := AfterAttempt(cfg, s, 0, 0);
    }
  }

  /** Whether Login's reads are as fresh as they need to be, and the limit fits the column. */
  predicate Effective(cfg: Config, lag: Lag) {
    Fresh(cfg, lag) && cfg.maxFailedAttempts <= INT32_MAX
  }

  /** Otherwise any number of wrong comparisons fits in one instant, one Login at a time. */
  lemma IneffectiveIsUnbounded(cfg: Config, limit: nat, lag: Lag, n: nat, w: Window) returns (s: State)
    requires limit > 0 && !Effective(cfg, lag) && w.Covers(0)
    ensures Reaches(cfg, limit, lag, s) && Hits(s.wrong, w) == n
  {
    if cfg.maxFailedAttempts > INT32_MAX { s := Failures(cfg, limit, lag, n, w); }
    else if lag.row { s := StaleRowsNeverRefuse(cfg, limit, lag, n, w); }
    else { s := StaleCountsNeverLock(cfg, limit, lag, n, w); }
  }

  lemma {:induction false} NothingStarts(cfg: Config, lag: Lag, t: seq<State>, i: nat)
    requires IsTrace(cfg, 0, lag, t) && i < |t|
    ensures t[i].inFlight == map[] && t[i].wrong == []
  {
    if i > 0 {
      NothingStarts(cfg, lag, t, i - 1);
      assert Follows(cfg, 0, lag, t, i);
    }
  }

  lemma NoneInFlight(cfg: Config, lag: Lag, s: State, w: Window)
    requires Reaches(cfg, 0, lag, s)
    ensures Hits(s.wrong, w) == 0
  {
    var t: seq<State> :| IsTrace(cfg, 0, lag, t) && t[|t| - 1] == s;
    NothingStarts(cfg, lag, t, |t| - 1);
  }

  /** Intervals of length `span` hold at most `most` wrong comparisons, in every run. */
  ghost predicate AtMost(cfg: Config, limit: nat, lag: Lag, span: nat, most: nat) {
    forall s, w: Window :: Reaches(cfg, limit, lag, s) && w.span == span ==> Hits(s.wrong, w) <= most
  }

  /** The lockout bounds anything at all exactly when reads are fresh and the limit fits. */
  lemma BoundedIffEffective(cfg: Config, limit: nat, lag: Lag, span: nat)
    requires limit > 0
    ensures (exists most: nat :: AtMost(cfg, limit, lag, span, most)) <==> Effective(cfg, lag)
  {
    if Effective(cfg, lag) {
      var most: nat := Max(Limit(cfg) + limit - 1, Triangle(limit)) + span / LOCK_DURATION * Triangle(limit);
      forall s, w: Window | Reaches(cfg, limit, lag, s) && w.span == span ensures Hits(s.wrong, w) <= most {
        CrowdBound(cfg, limit, lag, s, w);
      }
      assert AtMost(cfg, limit, lag, span, most);
    } else {
      forall most: nat ensures !AtMost(cfg, limit, lag, span, most) {
        var s := IneffectiveIsUnbounded(cfg, limit, lag, most + 1, Window(0, span));
      }
    }
  }

  // ----- When the bound of the atomic calls holds -----

  /** The comparisons of some run beat the bound of Lockout.LockoutRateBound. */
  ghost predicate CanExceed(cfg: Config, limit: nat, lag: Lag) {
    exists s, w :: Reaches(cfg, limit, lag, s) && Hits(s.wrong, w) > Limit(cfg) + w.span / LOCK_DURATION
  }

  /** Statement by statement, the bound of the atomic calls holds exactly when Logins for the account do not overlap,
      their reads are fresh where that matters, and the limit fits the column. */
  lemma LockoutHoldsIffSerialAndEffective(cfg: Config, limit: nat, lag: Lag)
    ensures CanExceed(cfg, limit, lag) <==> limit >= 2 || (limit == 1 && !Effective(cfg, lag))
  {
    if limit > 0 && !Effective(cfg, lag) {
      var s := IneffectiveIsUnbounded(cfg, limit, lag, Limit(cfg) + 1, Window(0, 0));
      assert Hits(s.wrong, Window(0, 0)) > Limit(cfg);
    } else if limit >= 2 {
      var s, w := CrowdBoundIsReached(cfg, limit, lag, 0);
      assert w.span / LOCK_DURATION == 0;
    } else {
      forall s, w: Window | Reaches(cfg, limit, lag, s)
        ensures Hits(s.wrong, w) <= Limit(cfg) + w.span / LOCK_DURATION
      {
        if limit == 0 { NoneInFlight(cfg, lag, s, w); } else { CrowdBound(cfg, limit, lag, s, w); }
      }
    }
  }
}
