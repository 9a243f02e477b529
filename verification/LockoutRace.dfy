// Login's statements one by one, for wrong passwords against one account: read the row, compare,
// count the failure, read the count back, write the lock. Any number of requests, at most `limit` in flight;
// either read may come from a replica that lags.

module LockoutRace {
  import opened Options
  import opened Numbers
  import opened AuthTypes
  import opened AuthSpec
  import opened Lockout

  /** The two columns of the account's row that matter. */
  datatype Columns = Columns(failed: nat, lockedUntil: Option<Time>)
  {
    predicate Locked(now: Time) { lockedUntil.Some? && now < lockedUntil.value }
  }

  /** failed_attempts = failed_attempts + 1, an error and no change when the column is full. */
  function Incremented(row: Columns): Columns {
    row.(failed := if row.failed < INT32_MAX then row.failed + 1 else row.failed)
  }

  /** How far a request has got: past the lock check, compared, counted, about to write its lock. */
  datatype Stage = Passed | Compared | Counted | Locking(until: Time)

  /** `versions` are all values the columns ever had, the current one last; `wrong` logs when wrong passwords were
      compared. */
  datatype State = State(now: Time, versions: seq<Columns>, inFlight: map<nat, Stage>, wrong: seq<Time>)
  {
    function Current(): Columns
      requires versions != []
    {
      versions[|versions| - 1]
    }

    predicate At(p: nat, stage: Stage) { p in inFlight && inFlight[p] == stage }

    /** Version v may answer a read: only the current one, or any if replicas lag. */
    predicate Readable(stale: bool, v: nat) {
      v < |versions| && (stale || v == |versions| - 1)
    }
  }

  /** Which of Login's two reads, FindByEmail and the FindByID after the count, may come from a replica that lags. */
  datatype Lag = Lag(row: bool, back: bool)

  const FRESH := Lag(false, false)

  datatype Label =
    | Tick(at: Time)
    | Read(p: nat, v: nat)
    | Compare(p: nat)
    | Count(p: nat)
    | ReadBack(p: nat, v: nat)
    | WriteLock(p: nat)

  predicate Enabled(limit: nat, lag: Lag, s: State, l: Label) {
    && s.versions != []
    && match l
       case Tick(at) => s.now <= at
       case Read(p, v) =>
         p !in s.inFlight && |s.inFlight| < limit && s.Readable(lag.row, v) && !s.versions[v].Locked(s.now)
       case Compare(p) => s.At(p, Passed)
       case Count(p) => s.At(p, Compared)
       case ReadBack(p, v) => s.At(p, Counted) && s.Readable(lag.back, v)
       case WriteLock(p) => p in s.inFlight && s.inFlight[p].Locking?
  }

  /** None when the step is not possible. */
  function Next(cfg: Config, limit: nat, lag: Lag, s: State, l: Label): (r: Option<State>)
    ensures r.Some? <==> Enabled(limit, lag, s, l)
    ensures r.Some? ==> r.value.versions != []
  {
    if !Enabled(limit, lag, s, l) then None
    else
      var row := s.Current();
      match l
      case Tick(at) => Some(s.(now := at))
      case Read(p, _) => Some(s.(inFlight := s.inFlight[p := Passed]))
      case Compare(p) => Some(s.(inFlight := s.inFlight[p := Compared], wrong := s.wrong + [s.now]))
      case Count(p) =>
        Some(s.(versions := s.versions + [Incremented(row)], inFlight := s.inFlight[p := Counted]))
      case ReadBack(p, v) =>
        if s.versions[v].failed >= cfg.maxFailedAttempts
          then Some(s.(inFlight := s.inFlight[p := Locking(s.now + LOCK_DURATION)]))
        else Some(s.(inFlight := s.inFlight - {p}))
      case WriteLock(p) =>
        var locked := row.(lockedUntil := Some(s.inFlight[p].until));
        Some(s.(versions := s.versions + [locked], inFlight := s.inFlight - {p}))
  }

  /** From any counter and lock, with nothing in flight. */
  predicate Start(s: State) {
    |s.versions| == 1 && s.inFlight == map[] && s.wrong == []
  }

  ghost predicate Steps(cfg: Config, limit: nat, lag: Lag, s: State, s': State) {
    exists l :: Next(cfg, limit, lag, s, l) == Some(s')
  }

  ghost predicate Follows(cfg: Config, limit: nat, lag: Lag, t: seq<State>, i: int)
    requires 0 < i < |t|
  {
    Steps(cfg, limit, lag, t[i - 1], t[i])
  }

  ghost predicate IsTrace(cfg: Config, limit: nat, lag: Lag, t: seq<State>) {
    && t != [] && Start(t[0])
    && forall i :: 0 < i < |t| ==> Follows(cfg, limit, lag, t, i)
  }

  ghost predicate Reaches(cfg: Config, limit: nat, lag: Lag, s: State) {
    exists t: seq<State> :: IsTrace(cfg, limit, lag, t) && t[|t| - 1] == s
  }

  /** The state after one request went as far as its read-back, at one moment, with the count read from version
      `back`. */
  function AfterAttempt(cfg: Config, s: State, p: nat, back: nat): State
    requires s.versions != [] && back <= |s.versions|
  {
    var versions := s.versions + [Incremented(s.Current())];
    var locks := versions[back].failed >= cfg.maxFailedAttempts;
    State(s.now, versions, if locks then s.inFlight[p := Locking(s.now + LOCK_DURATION)] else s.inFlight,
          s.wrong + [s.now])
  }

  function ComparedState(s: State, p: nat): State {
    s.(inFlight := s.inFlight[p := Compared], wrong := s.wrong + [s.now])
  }

  function CountedState(s: State, p: nat): State
    requires s.versions != []
  {
    State(s.now, s.versions + [Incremented(s.Current())], s.inFlight[p := Counted], s.wrong + [s.now])
  }

  /** Its first two steps, with the row read from version v. */
  lemma AttemptCompares(cfg: Config, limit: nat, lag: Lag, s: State, p: nat, v: nat)
    requires s.versions != [] && p !in s.inFlight && |s.inFlight| < limit
    requires s.Readable(lag.row, v) && !s.versions[v].Locked(s.now)
    ensures var read := s.(inFlight := s.inFlight[p := Passed]);
            && Next(cfg, limit, lag, s, Read(p, v)) == Some(read)
            && Next(cfg, limit, lag, read, Compare(p)) == Some(ComparedState(s, p))
  {
    var read := s.(inFlight := s.inFlight[p := Passed]);
    assert read.inFlight[p := Compared] == ComparedState(s, p).inFlight;
  }

  /** Its last two. */
  lemma AttemptCounts(cfg: Config, limit: nat, lag: Lag, s: State, p: nat, back: nat)
    requires s.versions != [] && p !in s.inFlight
    requires back == |s.versions| || (lag.back && back < |s.versions|)
    ensures Next(cfg, limit, lag, ComparedState(s, p), Count(p)) == Some(CountedState(s, p))
    ensures Next(cfg, limit, lag, CountedState(s, p), ReadBack(p, back)) == Some(AfterAttempt(cfg, s, p, back))
  {
    var counted := CountedState(s, p);
    assert ComparedState(s, p).inFlight[p := Counted] == counted.inFlight;
    assert counted.inFlight[p := Locking(s.now + LOCK_DURATION)] == s.inFlight[p := Locking(s.now + LOCK_DURATION)];
    assert counted.inFlight - {p} == s.inFlight;
  }

  /** On fresh reads those steps, and the write of the lock if it comes to that, do to the columns what the atomic
      call of AuthSpec does. */
  lemma AloneItIsTheCall(cfg: Config, limit: nat, lag: Lag, s: State, u: User, p: nat)
    requires s.versions != [] && p !in s.inFlight && s.Current() == Columns(u.failedAttempts, u.lockedUntil)
    ensures var attempted := AfterAttempt(cfg, s, p, |s.versions|);
            var locks := p in attempted.inFlight;
            var done := if locks then Next(cfg, limit, lag, attempted, WriteLock(p)) else Some(attempted);
            var u' := AfterWrongPassword(cfg, u, s.now);
            && done.Some? && done.value.Current() == Columns(u'.failedAttempts, u'.lockedUntil)
            && done.value.inFlight == s.inFlight && done.value.wrong == s.wrong + [s.now]
  {
    assert s.inFlight[p := Locking(s.now + LOCK_DURATION)] - {p} == s.inFlight;
  }

  // ----- How many comparisons fit in an interval, with `limit` requests in flight -----

  /** A closed interval. */
  datatype Window = Window(from: Time, span: nat)
  {
    predicate Covers(t: Time) { from <= t <= from + span }
  }

  /** Comparisons that fall in the interval. */
  function Hits(wrong: seq<Time>, w: Window): nat
    decreases wrong
  {
    if wrong == [] then 0
    else
      var last := |wrong| - 1;
      Hits(wrong[..last], w) + if w.Covers(wrong[last]) then 1 else 0
  }

  function Those(inFlight: map<nat, Stage>, kind: Stage -> bool): set<nat> {
    set p | p in inFlight && kind(inFlight[p])
  }

  function Tally(inFlight: map<nat, Stage>, kind: Stage -> bool): nat { |Those(inFlight, kind)| }

  lemma TallyJoins(inFlight: map<nat, Stage>, p: nat, to: Stage, kind: Stage -> bool)
    requires p !in inFlight
    ensures Tally(inFlight[p := to], kind) == Tally(inFlight, kind) + if kind(to) then 1 else 0
    ensures |inFlight[p := to]| == |inFlight| + 1
  {
    var those := Those(inFlight, kind);
    assert Those(inFlight[p := to], kind) == if kind(to) then those + {p} else those;
    assert inFlight[p := to].Keys == inFlight.Keys + {p};
  }

  lemma TallyLeaves(inFlight: map<nat, Stage>, p: nat, kind: Stage -> bool)
    requires p in inFlight
    ensures Tally(inFlight - {p}, kind) == Tally(inFlight, kind) - if kind(inFlight[p]) then 1 else 0
    ensures |inFlight - {p}| == |inFlight| - 1
  {
    assert Those(inFlight - {p}, kind) == Those(inFlight, kind) - {p};
    assert (inFlight - {p}).Keys == inFlight.Keys - {p};
  }

  lemma TallyMoves(inFlight: map<nat, Stage>, p: nat, to: Stage, kind: Stage -> bool)
    requires p in inFlight
    ensures Tally(inFlight[p := to], kind) ==
              Tally(inFlight, kind) + (if kind(to) then 1 else 0) - if kind(inFlight[p]) then 1 else 0
    ensures |inFlight[p := to]| == |inFlight|
  {
    TallyLeaves(inFlight, p, kind);
    assert inFlight[p := to] == (inFlight - {p})[p := to];
    TallyJoins(inFlight - {p}, p, to, kind);
  }

  lemma TalliesFit(inFlight: map<nat, Stage>, a: Stage -> bool, b: Stage -> bool)
    requires forall stage :: !(a(stage) && b(stage))
    ensures Tally(inFlight, a) + Tally(inFlight, b) <= |inFlight|
  {
    var rest := inFlight.Keys - Those(inFlight, a) - Those(inFlight, b);
    assert inFlight.Keys == Those(inFlight, a) + Those(inFlight, b) + rest;
  }

  predicate IsPassed(stage: Stage) { stage == Passed }

  predicate IsCompared(stage: Stage) { stage == Compared }

  /** The request will write a lock that lapses before `end`. */
  function LapsesBefore(end: Time): Stage -> bool {
    (stage: Stage) => stage.Locking? && stage.until < end
  }

  function Triangle(n: nat): nat { if n == 0 then 0 else Triangle(n - 1) + n }

  lemma {:induction false} TriangleClosed(n: nat)
    ensures 2 * Triangle(n) == n * (n + 1) && Triangle(n) >= n
  {
    if n > 0 { TriangleClosed(n - 1); }
  }

  lemma {:induction false} TriangleGrows(m: nat, n: nat)
    requires m <= n
    ensures Triangle(m) <= Triangle(n)
  {
    if m < n { TriangleGrows(m, n - 1); }
  }

  /** Full lock periods since `from`. */
  function Periods(from: Time, now: Time): nat {
    if now < from then 0 else (now - from) / LOCK_DURATION
  }

  /** When the current one ends. */
  function PeriodEnd(from: Time, now: Time): Time {
    from + (Periods(from, now) + 1) * LOCK_DURATION
  }

  function Late(from: Time, s: State): nat {
    Tally(s.inFlight, LapsesBefore(PeriodEnd(from, s.now)))
  }

  /** The lock is written and lapses in the current period. */
  predicate Lapsing(from: Time, s: State)
    requires s.versions != []
  {
    s.Current().lockedUntil.Some? && s.Current().lockedUntil.value < PeriodEnd(from, s.now)
  }

  /** An upper bound of the comparisons still to come in the current lock period, under a lock that is written:
      requests past the lock check, the free places if the lock lapses in time, and after each write of a late lock
      one more round of all the places that late locks no longer hold. */
  function Room(limit: nat, passed: nat, late: nat, inFlight: nat, lapsing: bool): int {
    passed + (Triangle(limit) - if late <= limit then Triangle(limit - late) else 0)
    + if lapsing then limit - inFlight else 0
  }

  function RoomIn(limit: nat, from: Time, s: State): int
    requires s.versions != []
  {
    Room(limit, Tally(s.inFlight, IsPassed), Late(from, s), |s.inFlight|, Lapsing(from, s))
  }

  /** Wrong comparisons that fit in an interval of so many full lock periods. */
  function Most(cfg: Config, limit: nat, periods: nat): nat {
    if periods == 0 then Max(Limit(cfg) + limit - 1, Triangle(limit))
    else Most(cfg, limit, periods - 1) + Triangle(limit)
  }

  lemma {:induction false} MostClosed(cfg: Config, limit: nat, periods: nat)
    ensures Most(cfg, limit, periods) == Max(Limit(cfg) + limit - 1, Triangle(limit)) + periods * Triangle(limit)
  {
    if periods > 0 {
      MostClosed(cfg, limit, periods - 1);
      var round := Triangle(limit);
      assert periods * round == (periods - 1) * round + round;
    }
  }

  lemma {:induction false} MostGrows(cfg: Config, limit: nat, few: nat, many: nat)
    requires few <= many
    ensures Most(cfg, limit, few) <= Most(cfg, limit, many)
    ensures few < many ==> Most(cfg, limit, few) + Triangle(limit) <= Most(cfg, limit, many)
  {
    if few < many { MostGrows(cfg, limit, few, many - 1); }
  }

  /** The lock check reads the current row, and the read-back does too or does not matter: with a limit of zero or less
      every failure locks. */
  predicate Fresh(cfg: Config, lag: Lag) {
    !lag.row && (lag.back ==> cfg.maxFailedAttempts <= 0)
  }

  /** Fewer than Limit comparisons belong to requests that have finished; and once a request is about to write a
      lock that lapses in the first period, none that falls in the interval does. */
  ghost predicate BeforeTheLock(cfg: Config, w: Window, s: State) {
    var unfinished := |s.inFlight| - Tally(s.inFlight, IsPassed);
    var late := Tally(s.inFlight, LapsesBefore(w.from + LOCK_DURATION));
    && |s.wrong| - unfinished < Limit(cfg)
    && (late > 0 ==> Hits(s.wrong, w) <= unfinished - late)
  }

  ghost predicate BehindTheLock(cfg: Config, limit: nat, w: Window, s: State)
    requires s.versions != []
  {
    && s.Current().lockedUntil.Some? && s.Current().failed >= cfg.maxFailedAttempts
    && Hits(s.wrong, w) + RoomIn(limit, w.from, s) <= Most(cfg, limit, Periods(w.from, s.now))
  }

  /** A lock is about to be written only if the count has reached the limit. */
  ghost predicate LocksAreDue(cfg: Config, s: State)
    requires s.versions != []
  {
    forall p :: p in s.inFlight && s.inFlight[p].Locking? ==> s.Current().failed >= cfg.maxFailedAttempts
  }

  ghost predicate Crowded(cfg: Config, limit: nat, w: Window, s: State) {
    && s.versions != [] && |s.inFlight| <= limit
    && s.Current().failed >= Min(|s.wrong| - Tally(s.inFlight, IsCompared), INT32_MAX)
    && LocksAreDue(cfg, s)
    && (s.now < w.from ==> Hits(s.wrong, w) == 0)
    && Hits(s.wrong, w) <= |s.wrong|
    && (BeforeTheLock(cfg, w, s) || BehindTheLock(cfg, limit, w, s))
    && Hits(s.wrong, w) <= Most(cfg, limit, w.span / LOCK_DURATION)
  }

  lemma RoomFits(limit: nat, from: Time, s: State)
    requires s.versions != [] && |s.inFlight| <= limit
    ensures 0 <= RoomIn(limit, from, s) <= Triangle(limit)
  {
    TalliesFit(s.inFlight, IsPassed, LapsesBefore(PeriodEnd(from, s.now)));
    TriangleClosed(limit - Late(from, s));
    TriangleGrows(limit - Late(from, s), limit);
  }

  function One(b: bool): nat { if b then 1 else 0 }

  predicate Has(inFlight: map<nat, Stage>, p: nat, kind: Stage -> bool) {
    p in inFlight && kind(inFlight[p])
  }

  lemma NextTally(cfg: Config, limit: nat, lag: Lag, s: State, l: Label, kind: Stage -> bool)
    requires Enabled(limit, lag, s, l) && !l.Tick?
    ensures var a, b := s.inFlight, Next(cfg, limit, lag, s, l).value.inFlight;
            && |b| == |a| + One(l.p in b) - One(l.p in a)
            && Tally(b, kind) == Tally(a, kind) + One(Has(b, l.p, kind)) - One(Has(a, l.p, kind))
  {
    var b := Next(cfg, limit, lag, s, l).value.inFlight;
    if l.p !in s.inFlight { TallyJoins(s.inFlight, l.p, Passed, kind); }
    else if l.p in b { TallyMoves(s.inFlight, l.p, b[l.p], kind); }
    else { TallyLeaves(s.inFlight, l.p, kind); }
  }

  /** Nothing but a comparison adds a hit, and that only at a moment in the interval. */
  lemma NextHits(cfg: Config, limit: nat, lag: Lag, w: Window, s: State, l: Label)
    requires Enabled(limit, lag, s, l)
    ensures Hits(Next(cfg, limit, lag, s, l).value.wrong, w) == Hits(s.wrong, w) + One(l.Compare? && w.Covers(s.now))
  {
    if l.Compare? { assert (s.wrong + [s.now])[..|s.wrong|] == s.wrong; }
  }

  lemma NextKeepsCounts(cfg: Config, limit: nat, lag: Lag, s: State, l: Label)
    requires Fresh(cfg, lag) && Enabled(limit, lag, s, l) && |s.inFlight| <= limit && LocksAreDue(cfg, s)
    requires s.Current().failed >= Min(|s.wrong| - Tally(s.inFlight, IsCompared), INT32_MAX)
    ensures var s' := Next(cfg, limit, lag, s, l).value;
            && |s'.inFlight| <= limit && LocksAreDue(cfg, s')
            && s'.Current().failed >= Min(|s'.wrong| - Tally(s'.inFlight, IsCompared), INT32_MAX)
  {
    if !l.Tick? { NextTally(cfg, limit, lag, s, l, IsCompared); }
  }

  // ----- Behind a lock: each comparison takes from the room that is left in the period -----

  /** One request less, whose lock is written: a late one, or else one that does not lapse in this period. */
  lemma WriteLeavesRoom(limit: nat, passed: nat, late: nat, inFlight: nat, lapsing: bool, isLate: bool)
    requires 0 < inFlight <= limit && late <= inFlight && (isLate ==> late > 0)
    ensures Room(limit, passed, late - One(isLate), inFlight - 1, isLate) <=
              Room(limit, passed, late, inFlight, lapsing)
  {
    if isLate { assert Triangle(limit - late + 1) == Triangle(limit - late) + limit - late + 1; }
  }

  lemma PeriodEndIsNear(from: Time, now: Time)
    ensures now < PeriodEnd(from, now)
    ensures from <= now ==> PeriodEnd(from, now) <= now + LOCK_DURATION
  {
  }

  lemma WriteTakesRoom(cfg: Config, limit: nat, lag: Lag, from: Time, s: State, p: nat)
    requires Enabled(limit, lag, s, WriteLock(p)) && |s.inFlight| <= limit
    ensures RoomIn(limit, from, Next(cfg, limit, lag, s, WriteLock(p)).value) <= RoomIn(limit, from, s)
  {
    var locked := s.Current().(lockedUntil := Some(s.inFlight[p].until));
    var s' := s.(versions := s.versions + [locked], inFlight := s.inFlight - {p});
    var late := LapsesBefore(PeriodEnd(from, s.now));
    assert Next(cfg, limit, lag, s, WriteLock(p)) == Some(s');
    NextTally(cfg, limit, lag, s, WriteLock(p), IsPassed);
    NextTally(cfg, limit, lag, s, WriteLock(p), late);
    TalliesFit(s.inFlight, IsPassed, late);
    WriteLeavesRoom(limit, Tally(s.inFlight, IsPassed), Late(from, s), |s.inFlight|, Lapsing(from, s),
                    Has(s.inFlight, p, late));
  }

  lemma ReadKeepsRoom(cfg: Config, limit: nat, lag: Lag, from: Time, s: State, p: nat, v: nat)
    requires Fresh(cfg, lag) && Enabled(limit, lag, s, Read(p, v)) && s.Current().lockedUntil.Some?
    ensures RoomIn(limit, from, Next(cfg, limit, lag, s, Read(p, v)).value) == RoomIn(limit, from, s)
  {
    var s' := s.(inFlight := s.inFlight[p := Passed]);
    assert Next(cfg, limit, lag, s, Read(p, v)) == Some(s');
    NextTally(cfg, limit, lag, s, Read(p, v), IsPassed);
    NextTally(cfg, limit, lag, s, Read(p, v), LapsesBefore(PeriodEnd(from, s.now)));
    PeriodEndIsNear(from, s.now);
    assert s.Current() == s.versions[v];
    assert Lapsing(from, s) && Lapsing(from, s');
  }

  lemma ReadBackKeepsRoom(cfg: Config, limit: nat, lag: Lag, from: Time, s: State, p: nat, v: nat)
    requires Fresh(cfg, lag) && Enabled(limit, lag, s, ReadBack(p, v))
    requires from <= s.now && s.Current().failed >= cfg.maxFailedAttempts
    ensures RoomIn(limit, from, Next(cfg, limit, lag, s, ReadBack(p, v)).value) == RoomIn(limit, from, s)
  {
    assert Next(cfg, limit, lag, s, ReadBack(p, v)).value.inFlight[p] == Locking(s.now + LOCK_DURATION);
    NextTally(cfg, limit, lag, s, ReadBack(p, v), IsPassed);
    NextTally(cfg, limit, lag, s, ReadBack(p, v), LapsesBefore(PeriodEnd(from, s.now)));
    PeriodEndIsNear(from, s.now);
  }

  lemma OtherStepsKeepRoom(cfg: Config, limit: nat, lag: Lag, from: Time, s: State, l: Label)
    requires Enabled(limit, lag, s, l) && (l.Compare? || l.Count?)
    ensures RoomIn(limit, from, Next(cfg, limit, lag, s, l).value) == RoomIn(limit, from, s) - One(l.Compare?)
  {
    NextTally(cfg, limit, lag, s, l, IsPassed);
    NextTally(cfg, limit, lag, s, l, LapsesBefore(PeriodEnd(from, s.now)));
  }

  lemma RoomShrinks(cfg: Config, limit: nat, lag: Lag, from: Time, s: State, l: Label)
    requires Fresh(cfg, lag) && Enabled(limit, lag, s, l) && !l.Tick? && |s.inFlight| <= limit && from <= s.now
    requires s.Current().lockedUntil.Some? && s.Current().failed >= cfg.maxFailedAttempts
    ensures RoomIn(limit, from, Next(cfg, limit, lag, s, l).value) <= RoomIn(limit, from, s) - One(l.Compare?)
  {
    match l
    case Read(p, v) => ReadKeepsRoom(cfg, limit, lag, from, s, p, v);
    case ReadBack(p, v) => ReadBackKeepsRoom(cfg, limit, lag, from, s, p, v);
    case WriteLock(p) => WriteTakesRoom(cfg, limit, lag, from, s, p);
    case Compare(_) => OtherStepsKeepRoom(cfg, limit, lag, from, s, l);
    case Count(_) => OtherStepsKeepRoom(cfg, limit, lag, from, s, l);
  }

  lemma TickKeepsBehind(cfg: Config, limit: nat, w: Window, s: State, at: Time)
    requires s.versions != [] && |s.inFlight| <= limit && s.now <= at && BehindTheLock(cfg, limit, w, s)
    ensures BehindTheLock(cfg, limit, w, s.(now := at))
  {
    RoomFits(limit, w.from, s);
    RoomFits(limit, w.from, s.(now := at));
    if Periods(w.from, s.now) < Periods(w.from, at) {
      MostGrows(cfg, limit, Periods(w.from, s.now), Periods(w.from, at));
    } else {
      assert PeriodEnd(w.from, at) == PeriodEnd(w.from, s.now);
    }
  }

  lemma NoHitsIsBehind(cfg: Config, limit: nat, w: Window, s: State)
    requires s.versions != [] && |s.inFlight| <= limit && Hits(s.wrong, w) == 0
    requires s.Current().lockedUntil.Some? && s.Current().failed >= cfg.maxFailedAttempts
    ensures BehindTheLock(cfg, limit, w, s)
  {
    RoomFits(limit, w.from, s);
    MostGrows(cfg, limit, 0, Periods(w.from, s.now));
  }

  lemma NextKeepsBehind(cfg: Config, limit: nat, lag: Lag, w: Window, s: State, l: Label)
    requires Fresh(cfg, lag) && Enabled(limit, lag, s, l) && |s.inFlight| <= limit
    requires s.now < w.from ==> Hits(s.wrong, w) == 0
    requires BehindTheLock(cfg, limit, w, s) && |Next(cfg, limit, lag, s, l).value.inFlight| <= limit
    ensures BehindTheLock(cfg, limit, w, Next(cfg, limit, lag, s, l).value)
  {
    var s' := Next(cfg, limit, lag, s, l).value;
    NextHits(cfg, limit, lag, w, s, l);
    if l.Tick? {
      TickKeepsBehind(cfg, limit, w, s, l.at);
    } else if s.now < w.from {
      NoHitsIsBehind(cfg, limit, w, s');
    } else {
      RoomShrinks(cfg, limit, lag, w.from, s, l);
    }
  }

  // ----- Before the first lock is written -----

  lemma PassedFit(inFlight: map<nat, Stage>)
    ensures Tally(inFlight, IsPassed) <= |inFlight|
  {
    TalliesFit(inFlight, IsPassed, IsCompared);
  }

  lemma FirstLockFits(most: nat, limit: nat, hits: nat, all: nat, passed: nat, late: nat, inFlight: nat, isLate: bool)
    requires passed + late <= inFlight <= limit && 0 < inFlight && (isLate ==> late > 0)
    requires hits <= all < most + (inFlight - passed) && (late > 0 ==> hits <= inFlight - passed - late)
    ensures hits + Room(limit, passed, late - One(isLate), inFlight - 1, isLate) <=
              Max(most + limit - 1, Triangle(limit))
  {
    TriangleClosed(limit - late);
    if isLate { TriangleClosed(limit - late + 1); }
  }

  function LockWritten(s: State, p: nat): State
    requires s.versions != [] && p in s.inFlight && s.inFlight[p].Locking?
  {
    var locked := s.Current().(lockedUntil := Some(s.inFlight[p].until));
    s.(versions := s.versions + [locked], inFlight := s.inFlight - {p})
  }

  lemma FirstLockHasRoom(cfg: Config, limit: nat, w: Window, s: State, p: nat)
    requires s.versions != [] && p in s.inFlight && s.inFlight[p].Locking? && Periods(w.from, s.now) == 0
    requires |s.inFlight| <= limit && Hits(s.wrong, w) <= |s.wrong| && BeforeTheLock(cfg, w, s)
    ensures Hits(s.wrong, w) + RoomIn(limit, w.from, LockWritten(s, p)) <= Max(Limit(cfg) + limit - 1, Triangle(limit))
  {
    var end := w.from + LOCK_DURATION;
    var isLate := s.inFlight[p].until < end;
    var passed, late, inFlight := Tally(s.inFlight, IsPassed), Tally(s.inFlight, LapsesBefore(end)), |s.inFlight|;
    TallyLeaves(s.inFlight, p, IsPassed);
    TallyLeaves(s.inFlight, p, LapsesBefore(end));
    TalliesFit(s.inFlight, IsPassed, LapsesBefore(end));
    assert PeriodEnd(w.from, s.now) == end;
    FirstLockFits(Limit(cfg), limit, Hits(s.wrong, w), |s.wrong|, passed, late, inFlight, isLate);
    assert RoomIn(limit, w.from, LockWritten(s, p)) == Room(limit, passed, late - One(isLate), inFlight - 1, isLate);
  }

  lemma FirstLockIsBehind(cfg: Config, limit: nat, lag: Lag, w: Window, s: State, p: nat)
    requires Enabled(limit, lag, s, WriteLock(p)) && |s.inFlight| <= limit && Hits(s.wrong, w) <= |s.wrong|
    requires LocksAreDue(cfg, s) && BeforeTheLock(cfg, w, s)
    ensures BehindTheLock(cfg, limit, w, Next(cfg, limit, lag, s, WriteLock(p)).value)
  {
    var s' := LockWritten(s, p);
    assert Next(cfg, limit, lag, s, WriteLock(p)) == Some(s');
    if Periods(w.from, s.now) == 0 {
      FirstLockHasRoom(cfg, limit, w, s, p);
    } else {
      PassedFit(s.inFlight);
      TallyLeaves(s.inFlight, p, IsPassed);
      RoomFits(limit, w.from, s');
      MostGrows(cfg, limit, 0, Periods(w.from, s.now));
    }
  }

  /** A request that ends without a lock has seen a count below the limit. */
  lemma LeavingKeepsBefore(cfg: Config, limit: nat, lag: Lag, w: Window, s: State, p: nat, v: nat)
    requires cfg.maxFailedAttempts <= INT32_MAX && Fresh(cfg, lag)
    requires Enabled(limit, lag, s, ReadBack(p, v)) && s.versions[v].failed < cfg.maxFailedAttempts
    requires s.Current().failed >= Min(|s.wrong| - Tally(s.inFlight, IsCompared), INT32_MAX) && LocksAreDue(cfg, s)
    ensures BeforeTheLock(cfg, w, Next(cfg, limit, lag, s, ReadBack(p, v)).value)
  {
    var s' := s.(inFlight := s.inFlight - {p});
    assert Next(cfg, limit, lag, s, ReadBack(p, v)) == Some(s');
    TallyLeaves(s.inFlight, p, IsCompared);
    TalliesFit(s'.inFlight, IsPassed, IsCompared);
    assert Those(s'.inFlight, LapsesBefore(w.from + LOCK_DURATION)) == {};
  }

  lemma NextKeepsBefore(cfg: Config, limit: nat, lag: Lag, w: Window, s: State, l: Label)
    requires cfg.maxFailedAttempts <= INT32_MAX && Fresh(cfg, lag)
    requires Enabled(limit, lag, s, l) && !l.WriteLock? && BeforeTheLock(cfg, w, s)
    requires s.Current().failed >= Min(|s.wrong| - Tally(s.inFlight, IsCompared), INT32_MAX)
    requires LocksAreDue(cfg, s) && (s.now < w.from ==> Hits(s.wrong, w) == 0)
    ensures BeforeTheLock(cfg, w, Next(cfg, limit, lag, s, l).value)
  {
    if l.ReadBack? && s.versions[l.v].failed < cfg.maxFailedAttempts {
      LeavingKeepsBefore(cfg, limit, lag, w, s, l.p, l.v);
    } else if !l.Tick? {
      var late := LapsesBefore(w.from + LOCK_DURATION);
      NextHits(cfg, limit, lag, w, s, l);
      NextTally(cfg, limit, lag, s, l, IsPassed);
      NextTally(cfg, limit, lag, s, l, late);
      TalliesFit(Next(cfg, limit, lag, s, l).value.inFlight, IsPassed, late);
    }
  }

  // ----- The invariant holds, and gives the bound -----

  lemma HitsHaveRoom(cfg: Config, limit: nat, w: Window, s: State)
    requires s.versions != [] && |s.inFlight| <= limit && Hits(s.wrong, w) <= |s.wrong| && w.Covers(s.now)
    requires BeforeTheLock(cfg, w, s) || BehindTheLock(cfg, limit, w, s)
    ensures Hits(s.wrong, w) <= Most(cfg, limit, w.span / LOCK_DURATION)
  {
    RoomFits(limit, w.from, s);
    PassedFit(s.inFlight);
    assert Periods(w.from, s.now) <= w.span / LOCK_DURATION;
    MostGrows(cfg, limit, Periods(w.from, s.now), w.span / LOCK_DURATION);
    MostGrows(cfg, limit, 0, w.span / LOCK_DURATION);
  }

  lemma NextKeepsCrowded(cfg: Config, limit: nat, lag: Lag, w: Window, s: State, l: Label)
    requires cfg.maxFailedAttempts <= INT32_MAX && Fresh(cfg, lag)
    requires Crowded(cfg, limit, w, s) && Enabled(limit, lag, s, l)
    ensures Crowded(cfg, limit, w, Next(cfg, limit, lag, s, l).value)
  {
    NextKeepsCounts(cfg, limit, lag, s, l);
    NextHits(cfg, limit, lag, w, s, l);
    if BehindTheLock(cfg, limit, w, s) { NextKeepsBehind(cfg, limit, lag, w, s, l); }
    else if l.WriteLock? { FirstLockIsBehind(cfg, limit, lag, w, s, l.p); }
    else { NextKeepsBefore(cfg, limit, lag, w, s, l); }
    if w.Covers(s.now) && l.Compare? { HitsHaveRoom(cfg, limit, w, Next(cfg, limit, lag, s, l).value); }
  }

  lemma StartIsCrowded(cfg: Config, limit: nat, w: Window, s: State)
    requires Start(s)
    ensures Crowded(cfg, limit, w, s)
  {
  }

  lemma {:induction false} LoginsStayCrowded(cfg: Config, limit: nat, lag: Lag, w: Window, t: seq<State>, i: nat)
    requires cfg.maxFailedAttempts <= INT32_MAX && Fresh(cfg, lag)
    requires IsTrace(cfg, limit, lag, t) && i < |t|
    ensures Crowded(cfg, limit, w, t[i])
  {
    if i == 0 {
      StartIsCrowded(cfg, limit, w, t[0]);
    } else {
      LoginsStayCrowded(cfg, limit, lag, w, t, i - 1);
      assert Follows(cfg, limit, lag, t, i);
      var l :| Next(cfg, limit, lag, t[i - 1], l) == Some(t[i]);
      NextKeepsCrowded(cfg, limit, lag, w, t[i - 1], l);
    }
  }

  /** With at most c Logins in flight, any closed interval holds at most max(Limit + c - 1, c(c+1)/2) wrong comparisons,
      and c(c+1)/2 more for each lock period that fits in it. */
  lemma CrowdBound(cfg: Config, c: nat, lag: Lag, s: State, w: Window)
    requires cfg.maxFailedAttempts <= INT32_MAX && Fresh(cfg, lag)
    requires Reaches(cfg, c, lag, s)
    ensures Triangle(c) == c * (c + 1) / 2
    ensures Hits(s.wrong, w) <= Max(Limit(cfg) + c - 1, Triangle(c)) + w.span / LOCK_DURATION * Triangle(c)
  {
    var t: seq<State> :| IsTrace(cfg, c, lag, t) && t[|t| - 1] == s;
    LoginsStayCrowded(cfg, c, lag, w, t, |t| - 1);
    MostClosed(cfg, c, w.span / LOCK_DURATION);
    TriangleClosed(c);
  }
}
