// internal/jobs/worker.go: Worker.Run as a transition system of the caller, one goroutine per job and the closer.

module Worker {
  import opened Options

  /** How a handler returns: nil, an error that is context.Canceled, or another error. */
  datatype Outcome = Nil | Canceled | Failure(err: nat)

  datatype Job = Unstarted | Running | Sending(err: nat) | Finishing | Exited

  /** The caller of Run: spawning job k next, blocked on ctx.Done (no jobs), receiving from errCh, or back. */
  datatype Caller = Spawning(k: nat) | AwaitingCtx | Receiving | Returned(result: Option<nat>)

  datatype Closer = NotSpawned | Waiting | Closed

  /** `buffer` is errCh, of capacity |jobs|; `wg` the WaitGroup counter. `sent` logs the sends, `outcomes` the
      returns. */
  datatype State = State(
    jobs: seq<Job>,
    caller: Caller,
    closer: Closer,
    wg: int,
    buffer: seq<nat>,
    closed: bool,
    sent: seq<nat>,
    outcomes: map<nat, Outcome>)

  function Initial(n: nat): State {
    State(seq(n, i => Unstarted), if n == 0 then AwaitingCtx else Spawning(0), NotSpawned, 0, [], false, [], map[])
  }

  datatype Label =
    | Spawn
    | SpawnCloser
    | Return(j: nat, outcome: Outcome)
    | Send(j: nat)
    | WgDone(j: nat)
    | Close
    | Receive
    | ReceiveClosed
    | CtxDone(err: nat)

  predicate Enabled(s: State, l: Label) {
    match l
    case Spawn => s.caller.Spawning? && s.caller.k < |s.jobs|
    case SpawnCloser => s.caller.Spawning? && s.caller.k == |s.jobs|
    case Return(j, _) => j < |s.jobs| && s.jobs[j].Running?
    case Send(j) => j < |s.jobs| && s.jobs[j].Sending? && |s.buffer| < |s.jobs|
    case WgDone(j) => j < |s.jobs| && s.jobs[j].Finishing?
    case Close => s.closer.Waiting? && s.wg == 0
    case Receive => s.caller.Receiving? && s.buffer != []
    case ReceiveClosed => s.caller.Receiving? && s.buffer == [] && s.closed
    case CtxDone(_) => s.caller.AwaitingCtx?
  }

  function After(s: State, l: Label): State
    requires Enabled(s, l)
  {
    match l
    case Spawn => s.(wg := s.wg + 1, jobs := s.jobs[s.caller.k := Running], caller := Spawning(s.caller.k + 1))
    case SpawnCloser => s.(closer := Waiting, caller := Receiving)
    case Return(j, outcome) =>
      s.(jobs := s.jobs[j := if outcome.Failure? then Sending(outcome.err) else Finishing],
         outcomes := s.outcomes[j := outcome])
    case Send(j) =>
      var err := s.jobs[j].err;
      s.(jobs := s.jobs[j := Finishing], buffer := s.buffer + [err], sent := s.sent + [err])
    case WgDone(j) => s.(jobs := s.jobs[j := Exited], wg := s.wg - 1)
    case Close => s.(closed := true, closer := Closed)
    case Receive => s.(buffer := s.buffer[1..], caller := Returned(Some(s.buffer[0])))
    case ReceiveClosed => s.(caller := Returned(None))
    case CtxDone(err) => s.(caller := Returned(Some(err)))
  }

  function Exec(n: nat, schedule: seq<Label>): Option<State>
    decreases schedule
  {
    if schedule == [] then Some(Initial(n))
    else
      var last := |schedule| - 1;
      var before := Exec(n, schedule[..last]);
      if before.Some? && Enabled(before.value, schedule[last]) then Some(After(before.value, schedule[last])) else None
  }

  // ----- Sums over the goroutines -----

  /** Goroutines the WaitGroup counts. */
  function Counted(j: Job): nat { if j.Unstarted? || j.Exited? then 0 else 1 }

  /** Sends a goroutine may still make. */
  function SendsLeft(j: Job): nat { if j.Finishing? || j.Exited? then 0 else 1 }

  /** Steps a goroutine has left, at most. */
  function StepsLeft(j: Job): nat {
    match j
    case Unstarted => 4
    case Running => 3
    case Sending(_) => 2
    case Finishing => 1
    case Exited => 0
  }

  function Sum(jobs: seq<Job>, f: Job -> nat): nat {
    if jobs == [] then 0 else f(jobs[0]) + Sum(jobs[1..], f)
  }

  lemma {:induction false} SumUpdate(jobs: seq<Job>, f: Job -> nat, j: nat, job: Job)
    requires j < |jobs|
    ensures Sum(jobs[j := job], f) + f(jobs[j]) == Sum(jobs, f) + f(job)
    decreases jobs
  {
    if j > 0 {
      SumUpdate(jobs[1..], f, j - 1, job);
      assert jobs[j := job][1..] == jobs[1..][j - 1 := job];
    } else {
      assert jobs[0 := job][1..] == jobs[1..];
    }
  }

  lemma {:induction false} SumBounds(jobs: seq<Job>, f: Job -> nat, j: nat)
    requires j < |jobs|
    ensures f(jobs[j]) <= Sum(jobs, f)
    decreases jobs
  {
    if j > 0 { SumBounds(jobs[1..], f, j - 1); }
  }

  lemma {:induction false} SumZero(jobs: seq<Job>, f: Job -> nat)
    requires forall j :: 0 <= j < |jobs| ==> f(jobs[j]) == 0
    ensures Sum(jobs, f) == 0
    decreases jobs
  {
    if jobs != [] {
      forall j | 0 <= j < |jobs[1..]| ensures f(jobs[1..][j]) == 0 { assert jobs[1..][j] == jobs[j + 1]; }
      SumZero(jobs[1..], f);
    }
  }

  lemma {:induction false} SumOfUnstarted(n: nat)
    ensures var jobs := Initial(n).jobs;
            Sum(jobs, Counted) == 0 && Sum(jobs, SendsLeft) == n && Sum(jobs, StepsLeft) == 4 * n
  {
    if n > 0 {
      SumOfUnstarted(n - 1);
      assert Initial(n).jobs[1..] == Initial(n - 1).jobs;
    }
  }

  // ----- Invariant -----

  /** Job j's progress agrees with what its handler returned; a failure that is past its send is in the log. */
  predicate JobMatches(s: State, j: nat)
    requires j < |s.jobs|
  {
    match s.jobs[j]
    case Unstarted => j !in s.outcomes
    case Running => j !in s.outcomes
    case Sending(err) => j in s.outcomes && s.outcomes[j] == Failure(err)
    case _ => j in s.outcomes && (s.outcomes[j].Failure? ==> s.outcomes[j].err in s.sent)
  }

  predicate SentBy(s: State, j: nat, err: nat) {
    j < |s.jobs| && j in s.outcomes && s.outcomes[j] == Failure(err)
  }

  ghost predicate HasSender(s: State, err: nat) {
    exists j :: SentBy(s, j, err)
  }

  ghost predicate SendsHaveSenders(s: State) {
    forall i :: 0 <= i < |s.sent| ==> HasSender(s, s.sent[i])
  }

  predicate AllStarted(s: State) {
    && |s.jobs| > 0 && s.closer != NotSpawned
    && forall j :: 0 <= j < |s.jobs| ==> !s.jobs[j].Unstarted?
  }

  /** Which parts have been started, and what the caller has taken from the channel. */
  predicate CallerMatches(s: State) {
    match s.caller
    case Spawning(k) =>
      && k <= |s.jobs| && |s.jobs| > 0 && s.closer == NotSpawned && s.buffer == s.sent
      && forall j :: 0 <= j < |s.jobs| ==> (s.jobs[j].Unstarted? <==> k <= j)
    case AwaitingCtx => s.jobs == [] && s.closer == NotSpawned && s.buffer == s.sent == []
    case Receiving => AllStarted(s) && s.buffer == s.sent
    case Returned(None) => AllStarted(s) && s.buffer == s.sent == [] && s.closed
    case Returned(Some(err)) =>
      if s.jobs == [] then s.closer == NotSpawned && s.sent == []
      else AllStarted(s) && s.sent != [] && s.sent[0] == err && s.buffer == s.sent[1..]
  }

  ghost predicate Inv(n: nat, s: State) {
    && |s.jobs| == n
    && s.wg == Sum(s.jobs, Counted)
    && |s.sent| + Sum(s.jobs, SendsLeft) <= n
    && s.closed == s.closer.Closed?
    && (s.closed ==> s.wg == 0)
    && CallerMatches(s)
    && (forall j :: 0 <= j < n ==> JobMatches(s, j))
    && SendsHaveSenders(s)
  }

  lemma JobUpdate(s: State, j: nat, job: Job)
    requires j < |s.jobs|
    ensures Sum(s.jobs[j := job], Counted) == Sum(s.jobs, Counted) - Counted(s.jobs[j]) + Counted(job)
    ensures Sum(s.jobs[j := job], SendsLeft) == Sum(s.jobs, SendsLeft) - SendsLeft(s.jobs[j]) + SendsLeft(job)
    ensures Sum(s.jobs[j := job], StepsLeft) == Sum(s.jobs, StepsLeft) - StepsLeft(s.jobs[j]) + StepsLeft(job)
    ensures Counted(s.jobs[j]) <= Sum(s.jobs, Counted) && SendsLeft(s.jobs[j]) <= Sum(s.jobs, SendsLeft)
  {
    SumUpdate(s.jobs, Counted, j, job);
    SumUpdate(s.jobs, SendsLeft, j, job);
    SumUpdate(s.jobs, StepsLeft, j, job);
    SumBounds(s.jobs, Counted, j);
    SumBounds(s.jobs, SendsLeft, j);
  }

  lemma InitialInv(n: nat)
    ensures Inv(n, Initial(n))
  {
    SumOfUnstarted(n);
  }

  /** The goroutine a step moves, if any. */
  function Mover(s: State, l: Label): Option<nat> {
    match l
    case Spawn => if s.caller.Spawning? then Some(s.caller.k) else None
    case Return(j, _) => Some(j)
    case Send(j) => Some(j)
    case WgDone(j) => Some(j)
    case _ => None
  }

  lemma KeepsCounts(n: nat, s: State, l: Label)
    requires Inv(n, s) && Enabled(s, l)
    ensures var s' := After(s, l);
            && |s'.jobs| == n
            && s'.wg == Sum(s'.jobs, Counted)
            && |s'.sent| + Sum(s'.jobs, SendsLeft) <= n
            && s'.closed == s'.closer.Closed?
            && (s'.closed ==> s'.wg == 0)
  {
    var mover := Mover(s, l);
    if mover.Some? { JobUpdate(s, mover.value, After(s, l).jobs[mover.value]); }
  }

  lemma KeepsCaller(n: nat, s: State, l: Label)
    requires Inv(n, s) && Enabled(s, l)
    ensures CallerMatches(After(s, l))
  {
    if l.Send? { JobUpdate(s, l.j, Finishing); }
  }

  lemma KeepsJobs(n: nat, s: State, l: Label)
    requires Inv(n, s) && Enabled(s, l)
    ensures var s' := After(s, l);
            |s'.jobs| == n && forall j :: 0 <= j < n ==> JobMatches(s', j)
  {
    var s' := After(s, l);
    forall j | 0 <= j < n ensures JobMatches(s', j) {
      assert JobMatches(s, j);
    }
  }

  lemma KeepsSenders(n: nat, s: State, l: Label)
    requires Inv(n, s) && Enabled(s, l)
    ensures SendsHaveSenders(After(s, l))
  {
    var s' := After(s, l);
    forall i | 0 <= i < |s'.sent| ensures HasSender(s', s'.sent[i]) {
      if i < |s.sent| {
        assert HasSender(s, s.sent[i]);
        var j :| SentBy(s, j, s.sent[i]);
        assert JobMatches(s, j);
        assert SentBy(s', j, s'.sent[i]);
      } else {
        assert JobMatches(s, l.j);
        assert SentBy(s', l.j, s'.sent[i]);
      }
    }
  }

  lemma StepKeepsInv(n: nat, s: State, l: Label)
    requires Inv(n, s) && Enabled(s, l)
    ensures Inv(n, After(s, l))
  {
    KeepsCounts(n, s, l);
    KeepsCaller(n, s, l);
    KeepsJobs(n, s, l);
    KeepsSenders(n, s, l);
  }

  lemma {:induction false} InvHolds(n: nat, schedule: seq<Label>)
    requires Exec(n, schedule).Some?
    ensures Inv(n, Exec(n, schedule).value)
    decreases schedule
  {
    if schedule == [] {
      InitialInv(n);
    } else {
      var last := |schedule| - 1;
      InvHolds(n, schedule[..last]);
      StepKeepsInv(n, Exec(n, schedule[..last]).value, schedule[last]);
    }
  }

  // ----- Safety and progress -----

  /** Under every schedule: a goroutine with an error to send finds room in the channel and finds it open,
      and no WaitGroup or channel operation can panic. Every started goroutine always has a next step. */
  lemma NoGoroutineBlocks(n: nat, schedule: seq<Label>, j: nat)
    requires Exec(n, schedule).Some? && j < n
    ensures var s := Exec(n, schedule).value;
            && |s.jobs| == n
            && (s.jobs[j].Running? ==> forall outcome :: Enabled(s, Return(j, outcome)))
            && (s.jobs[j].Sending? ==> Enabled(s, Send(j)) && !s.closed)
            && (s.jobs[j].Finishing? ==> Enabled(s, WgDone(j)) && s.wg > 0 && !s.closed)
            && (Enabled(s, Close) ==> !s.closed)
  {
    InvHolds(n, schedule);
    var s := Exec(n, schedule).value;
    JobUpdate(s, j, s.jobs[j]);
    assert CallerMatches(s);
  }

  /** Close happens at most once, and nothing is sent or closed after it. */
  lemma NothingHappensToAClosedChannel(n: nat, schedule: seq<Label>, l: Label)
    requires Exec(n, schedule).Some? && Exec(n, schedule).value.closed && Enabled(Exec(n, schedule).value, l)
    ensures !l.Send? && !l.Close?
  {
    InvHolds(n, schedule);
    if l.Send? { NoGoroutineBlocks(n, schedule, l.j); }
  }

  /** Run has returned and, with jobs, every goroutine it started is gone and the channel is closed. */
  predicate Finished(s: State) {
    s.caller.Returned? && (s.jobs != [] ==> s.closed && forall j :: 0 <= j < |s.jobs| ==> s.jobs[j].Exited?)
  }

  lemma IdleJobs(n: nat, schedule: seq<Label>, j: nat)
    requires Exec(n, schedule).Some? && j < n
    requires forall l :: !Enabled(Exec(n, schedule).value, l)
    ensures var s := Exec(n, schedule).value; |s.jobs| == n && (s.jobs[j].Unstarted? || s.jobs[j].Exited?)
  {
    NoGoroutineBlocks(n, schedule, j);
    var s := Exec(n, schedule).value;
    assert !Enabled(s, Return(j, Nil)) && !Enabled(s, Send(j)) && !Enabled(s, WgDone(j));
  }

  lemma StuckMeansFinished(n: nat, s: State)
    requires Inv(n, s) && s.wg == 0
    requires forall j :: 0 <= j < n ==> s.jobs[j].Unstarted? || s.jobs[j].Exited?
    requires forall l :: !Enabled(s, l)
    ensures Finished(s)
  {
    assert !Enabled(s, Spawn) && !Enabled(s, SpawnCloser) && !Enabled(s, CtxDone(0));
    assert !Enabled(s, Close) && !Enabled(s, Receive) && !Enabled(s, ReceiveClosed);
  }

  /** No deadlock: only a finished system has no next step. */
  lemma OnlyFinishedIsStuck(n: nat, schedule: seq<Label>)
    requires Exec(n, schedule).Some?
    requires forall l :: !Enabled(Exec(n, schedule).value, l)
    ensures Finished(Exec(n, schedule).value)
  {
    InvHolds(n, schedule);
    var s := Exec(n, schedule).value;
    forall j | 0 <= j < n ensures s.jobs[j].Unstarted? || s.jobs[j].Exited? {
      IdleJobs(n, schedule, j);
    }
    SumZero(s.jobs, Counted);
    StuckMeansFinished(n, s);
  }

  function CallerSteps(c: Caller): nat {
    match c
    case Spawning(_) => 2
    case AwaitingCtx => 1
    case Receiving => 1
    case Returned(_) => 0
  }

  function CloserSteps(c: Closer): nat {
    match c
    case NotSpawned => 1
    case Waiting => 1
    case Closed => 0
  }

  function Measure(s: State): nat {
    Sum(s.jobs, StepsLeft) + CallerSteps(s.caller) + CloserSteps(s.closer)
  }

  lemma StepsDecreaseMeasure(n: nat, s: State, l: Label)
    requires Inv(n, s) && Enabled(s, l)
    ensures Measure(After(s, l)) < Measure(s)
  {
    var mover := Mover(s, l);
    if mover.Some? { JobUpdate(s, mover.value, After(s, l).jobs[mover.value]); }
  }

  /** Termination: whatever the schedule, at most 4n + 3 steps happen, also after Run has returned early. */
  lemma {:induction false} SchedulesAreShort(n: nat, schedule: seq<Label>)
    requires Exec(n, schedule).Some?
    ensures |schedule| + Measure(Exec(n, schedule).value) <= 4 * n + 3
    decreases schedule
  {
    if schedule == [] {
      SumOfUnstarted(n);
    } else {
      var last := |schedule| - 1;
      SchedulesAreShort(n, schedule[..last]);
      InvHolds(n, schedule[..last]);
      StepsDecreaseMeasure(n, Exec(n, schedule[..last]).value, schedule[last]);
    }
  }

  // ----- Result -----

  /** With at least one job: Run returns nil only when every job has returned nil or Canceled;
      otherwise it returns the error that was sent first, and that is some job's own error. */
  lemma RunReturnsFirstError(n: nat, schedule: seq<Label>)
    requires n > 0 && Exec(n, schedule).Some? && Exec(n, schedule).value.caller.Returned?
    ensures var s := Exec(n, schedule).value;
            if s.caller.result.None? then
              forall j :: 0 <= j < n ==> j in s.outcomes && !s.outcomes[j].Failure?
            else
              s.sent != [] && s.caller.result == Some(s.sent[0]) && exists j :: SentBy(s, j, s.sent[0])
  {
    InvHolds(n, schedule);
    var s := Exec(n, schedule).value;
    if s.caller.result.None? {
      forall j | 0 <= j < n ensures j in s.outcomes && !s.outcomes[j].Failure? {
        JobUpdate(s, j, s.jobs[j]);
        assert JobMatches(s, j);
      }
    }
  }

  /** Run to the end, it returns nil exactly when no job failed. */
  lemma NilIffNoFailure(n: nat, schedule: seq<Label>)
    requires n > 0 && Exec(n, schedule).Some? && Finished(Exec(n, schedule).value)
    ensures var s := Exec(n, schedule).value;
            s.caller.result.None? <==> forall j :: 0 <= j < n ==> j in s.outcomes && !s.outcomes[j].Failure?
  {
    InvHolds(n, schedule);
    RunReturnsFirstError(n, schedule);
  }

  /** Without jobs there is nothing but the wait for the context, whose error Run returns. */
  lemma {:induction false} WithoutJobsRunReturnsContextError(schedule: seq<Label>)
    requires Exec(0, schedule).Some?
    ensures var s := Exec(0, schedule).value;
            if schedule == [] then s.caller.AwaitingCtx? && forall err :: Enabled(s, CtxDone(err))
            else exists err :: schedule == [CtxDone(err)] && s.caller == Returned(Some(err))
    decreases schedule
  {
    if schedule != [] {
      var last := |schedule| - 1;
      WithoutJobsRunReturnsContextError(schedule[..last]);
      InvHolds(0, schedule[..last]);
      assert schedule == schedule[..last] + [schedule[last]];
    }
  }
}
