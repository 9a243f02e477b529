// Password-reset OTPs when requests overlap: every SQL statement is a step of its own,
// and reads may come from a replica that lags by any amount.

module ResetProtocol {
  import opened Options
  import opened AuthTypes
  import opened AuthSpec

  /** One request, by how far it has got. Looked holds the row as it was read. */
  datatype Request =
    | Looked(user: Id, otp: string, id: Id, row: PasswordReset)
    | Matched(user: Id, otp: string, id: Id, checkedAt: Time)
    | Won(user: Id, otp: string, id: Id, checkedAt: Time)
    | Minted(user: Id, otp: string, id: Id, checkedAt: Time)
    | Refused
    | Storing(user: Id, otpHash: string, expiresAt: Time)
    | Stored

  /** `versions` are all tables there ever were, the current one last; `created` remembers every record inserted. */
  datatype State = State(
    now: Time,
    versions: seq<ResetTable>,
    created: ResetTable,
    requests: map<nat, Request>)
  {
    predicate Valid() { versions != [] }

    function Table(): ResetTable
      requires Valid()
    {
      versions[|versions| - 1]
    }
  }

  const INITIAL := State(0, [map[]], map[], map[])

  datatype Label =
    | Tick(at: Time)
    | Look(p: nat, user: Id, otp: string, version: nat, id: Id)
    | Check(p: nat)
    | Consume(p: nat)
    | Mint(p: nat)
    | Delete(p: nat, user: Id, otpHash: string, expiresAt: Time)
    | Insert(p: nat, id: Id)
    | Sweep

  /** Generated ids never repeat. */
  ghost predicate Enabled(s: State, l: Label)
    requires s.Valid()
  {
    match l
    case Tick(at) => s.now <= at
    case Look(p, user, _, version, id) =>
      p !in s.requests && version < |s.versions| && IsLatestPending(s.versions[version], user, id)
    case Check(p) => p in s.requests && s.requests[p].Looked?
    case Consume(p) => p in s.requests && s.requests[p].Matched?
    case Mint(p) => p in s.requests && s.requests[p].Won?
    case Delete(p, _, _, _) => p !in s.requests
    case Insert(p, id) => p in s.requests && s.requests[p].Storing? && id !in s.created
    case Sweep => true
  }

  function Checked(lib: Library, r: Request, now: Time): Request
    requires r.Looked?
  {
    if r.row.IsExpired(now) || r.row.IsConsumed() || lib.otpHash(r.otp) != r.row.otpHash then Refused
    else Matched(r.user, r.otp, r.id, now)
  }

  /** UPDATE ... SET used_at = NOW() WHERE id = $1 AND used_at IS NULL affects a row. */
  predicate Consumes(table: ResetTable, id: Id) {
    id in table && table[id].usedAt.None?
  }

  ghost function After(lib: Library, s: State, l: Label): (s': State)
    requires s.Valid() && Enabled(s, l)
    ensures s'.Valid()
  {
    var table := s.Table();
    match l
    case Tick(at) => s.(now := at)
    case Look(p, user, otp, version, id) =>
      s.(requests := s.requests[p := Looked(user, otp, id, s.versions[version][id])])
    case Check(p) => s.(requests := s.requests[p := Checked(lib, s.requests[p], s.now)])
    case Consume(p) =>
      var r := s.requests[p];
      if Consumes(table, r.id) then
        s.(versions := s.versions + [table[r.id := table[r.id].(usedAt := Some(s.now))]],
           requests := s.requests[p := Won(r.user, r.otp, r.id, r.checkedAt)])
      else s.(requests := s.requests[p := Refused])
    case Mint(p) =>
      var r := s.requests[p];
      s.(requests := s.requests[p := Minted(r.user, r.otp, r.id, r.checkedAt)])
    case Delete(p, user, otpHash, expiresAt) =>
      s.(versions := s.versions + [WithoutResetsOf(table, user)],
         requests := s.requests[p := Storing(user, otpHash, expiresAt)])
    case Insert(p, id) =>
      var r := s.requests[p];
      var row := PasswordReset(r.user, r.otpHash, r.expiresAt, None, s.now);
      s.(versions := s.versions + [table[id := row]],
         created := s.created[id := row],
         requests := s.requests[p := Stored])
    case Sweep => s.(versions := s.versions + [WithoutExpired(table, s.now)])
  }

  /** The state after a schedule, if every step of it was possible. */
  ghost function Exec(lib: Library, schedule: seq<Label>): (r: Option<State>)
    ensures r.Some? ==> r.value.Valid()
    decreases schedule
  {
    if schedule == [] then Some(INITIAL)
    else
      var last := |schedule| - 1;
      var before := Exec(lib, schedule[..last]);
      if before.Some? && Enabled(before.value, schedule[last])
        then Some(After(lib, before.value, schedule[last])) else None
  }

  // ----- Invariant -----

  predicate SameRecord(a: PasswordReset, b: PasswordReset) {
    a.userId == b.userId && a.otpHash == b.otpHash && a.expiresAt == b.expiresAt
  }

  ghost predicate FromCreated(created: ResetTable, table: ResetTable) {
    forall id :: id in table ==> id in created && SameRecord(created[id], table[id])
  }

  /** The request has passed the compare-and-set on record id. */
  predicate Claims(requests: map<nat, Request>, p: nat, id: Id) {
    p in requests && (requests[p].Won? || requests[p].Minted?) && requests[p].id == id
  }

  /** Record id was created for this user, the OTP has its hash, and it had not expired when that was checked. */
  predicate Answers(lib: Library, created: ResetTable, user: Id, otp: string, id: Id, checkedAt: Time) {
    && id in created
    && created[id].userId == user
    && created[id].otpHash == lib.otpHash(otp)
    && checkedAt <= created[id].expiresAt
  }

  ghost predicate Justified(lib: Library, created: ResetTable, r: Request) {
    match r
    case Looked(user, _, id, row) => id in created && SameRecord(created[id], row) && row.userId == user
    case Matched(user, otp, id, checkedAt) => Answers(lib, created, user, otp, id, checkedAt)
    case Won(user, otp, id, checkedAt) => Answers(lib, created, user, otp, id, checkedAt)
    case Minted(user, otp, id, checkedAt) => Answers(lib, created, user, otp, id, checkedAt)
    case _ => true
  }

  ghost predicate Exclusive(requests: map<nat, Request>) {
    forall p, q, id :: Claims(requests, p, id) && Claims(requests, q, id) ==> p == q
  }

  /** Consuming a claimed record again would find no row. */
  ghost predicate Spent(s: State)
    requires s.Valid()
  {
    forall p, id :: Claims(s.requests, p, id) ==> id in s.created && !Consumes(s.Table(), id)
  }

  ghost predicate Inv(lib: Library, s: State) {
    && s.Valid()
    && (forall k :: 0 <= k < |s.versions| ==> FromCreated(s.created, s.versions[k]))
    && (forall p :: p in s.requests ==> Justified(lib, s.created, s.requests[p]))
    && Exclusive(s.requests)
    && Spent(s)
  }

  lemma KeepsRecords(lib: Library, s: State, l: Label)
    requires Inv(lib, s) && Enabled(s, l)
    ensures var s' := After(lib, s, l);
            && s.created.Keys <= s'.created.Keys
            && (forall id :: id in s.created ==> s'.created[id] == s.created[id])
            && forall k :: 0 <= k < |s'.versions| ==> FromCreated(s'.created, s'.versions[k])
  {
  }

  lemma KeepsJustified(lib: Library, s: State, l: Label)
    requires Inv(lib, s) && Enabled(s, l)
    ensures var s' := After(lib, s, l);
            forall p :: p in s'.requests ==> Justified(lib, s'.created, s'.requests[p])
  {
  }

  lemma KeepsExclusive(lib: Library, s: State, l: Label)
    requires Inv(lib, s) && Enabled(s, l)
    ensures Exclusive(After(lib, s, l).requests)
  {
    var s' := After(lib, s, l);
    forall p, id | Claims(s'.requests, p, id) && !Claims(s.requests, p, id)
      ensures l.Consume? && p == l.p && Consumes(s.Table(), id)
    {
    }
  }

  lemma KeepsSpent(lib: Library, s: State, l: Label)
    requires Inv(lib, s) && Enabled(s, l)
    ensures Spent(After(lib, s, l))
  {
    var s' := After(lib, s, l);
    forall p, id | Claims(s'.requests, p, id) ensures id in s'.created && !Consumes(s'.Table(), id) {
      if Claims(s.requests, p, id) {
        assert id in s.created && !Consumes(s.Table(), id);
      } else {
        assert Justified(lib, s.created, s.requests[p]);
      }
    }
  }

  lemma {:induction false} InvHolds(lib: Library, schedule: seq<Label>)
    requires Exec(lib, schedule).Some?
    ensures Inv(lib, Exec(lib, schedule).value)
    decreases schedule
  {
    if schedule != [] {
      var last := |schedule| - 1;
      InvHolds(lib, schedule[..last]);
      var s := Exec(lib, schedule[..last]).value;
      KeepsRecords(lib, s, schedule[last]);
      KeepsJustified(lib, s, schedule[last]);
      KeepsExclusive(lib, s, schedule[last]);
      KeepsSpent(lib, s, schedule[last]);
    }
  }

  // ----- What callers are promised -----

  /** Two requests never both get a token out of one record, under any schedule and any replica lag. */
  lemma OneTokenPerRecord(lib: Library, schedule: seq<Label>, p: nat, q: nat)
    requires Exec(lib, schedule).Some?
    requires var requests := Exec(lib, schedule).value.requests;
             && p in requests && q in requests && requests[p].Minted? && requests[q].Minted?
             && requests[p].id == requests[q].id
    ensures p == q
  {
    InvHolds(lib, schedule);
    var requests := Exec(lib, schedule).value.requests;
    assert Claims(requests, p, requests[p].id) && Claims(requests, q, requests[p].id);
  }

  /** A token stands for a record of the same user whose OTP was presented before it expired. */
  lemma TokensAnswerRecords(lib: Library, schedule: seq<Label>, p: nat)
    requires Exec(lib, schedule).Some?
    requires var requests := Exec(lib, schedule).value.requests; p in requests && requests[p].Minted?
    ensures var s := Exec(lib, schedule).value;
            var r := s.requests[p];
            Answers(lib, s.created, r.user, r.otp, r.id, r.checkedAt)
  {
    InvHolds(lib, schedule);
    var s := Exec(lib, schedule).value;
    assert Justified(lib, s.created, s.requests[p]);
  }

  function TokensFor(s: State, u: Id): set<nat> {
    set p | p in s.requests && s.requests[p].Minted? && s.requests[p].user == u
  }

  function RecordsFor(s: State, u: Id): set<Id> {
    set id | id in s.created && s.created[id].userId == u
  }

  lemma {:induction false} InjectionBounds(requests: map<nat, Request>, ps: set<nat>, ids: set<Id>)
    requires forall p :: p in ps ==> p in requests && requests[p].Minted? && requests[p].id in ids
    requires forall p, q :: p in ps && q in ps && requests[p].id == requests[q].id ==> p == q
    ensures |ps| <= |ids|
    decreases |ps|
  {
    if ps != {} {
      var p :| p in ps;
      InjectionBounds(requests, ps - {p}, ids - {requests[p].id});
    }
  }

  /** A user never gets more reset tokens than reset records were created for that user. */
  lemma TokensNeverExceedRecords(lib: Library, schedule: seq<Label>, u: Id)
    requires Exec(lib, schedule).Some?
    ensures var s := Exec(lib, schedule).value; |TokensFor(s, u)| <= |RecordsFor(s, u)|
  {
    var s := Exec(lib, schedule).value;
    forall p | p in TokensFor(s, u) ensures s.requests[p].id in RecordsFor(s, u) {
      TokensAnswerRecords(lib, schedule, p);
    }
    forall p, q | p in TokensFor(s, u) && q in TokensFor(s, u) && s.requests[p].id == s.requests[q].id ensures p == q {
      OneTokenPerRecord(lib, schedule, p, q);
    }
    InjectionBounds(s.requests, TokensFor(s, u), RecordsFor(s, u));
  }

  /** The steps of one verification run back to back, reading the current table, are the atomic call of AuthSpec;
      without a pending record there is no step to take, and the call is refused. */
  lemma AloneItIsTheCall(env: Env, s: State, users: UserTable, p: nat, email: string, otp: string, u: Id)
    requires s.Valid() && p !in s.requests
    requires |env.lib.trim(otp)| == 6 && ResetSubject(env, users, email) == Some(u)
    ensures var (db, reply) := VerifyResetEmailSpec(env, Db(users, s.Table()), s.now, email, otp);
            var code, current := env.lib.trim(otp), |s.versions| - 1;
            match LatestPending(s.Table(), u)
            case None =>
              && db.resets == s.Table() && reply == Fail(Unauthorized)
              && forall id :: !Enabled(s, Look(p, u, code, current, id))
            case Some(id) =>
              var checked := After(env.lib, After(env.lib, s, Look(p, u, code, current, id)), Check(p));
              if reply.ResetToken? then
                && checked.requests[p].Matched?
                && After(env.lib, checked, Consume(p)).requests[p].Won?
                && After(env.lib, checked, Consume(p)).Table() == db.resets
              else
                checked.requests[p].Refused? && checked.Table() == db.resets
  {
  }

  /** DELETE and INSERT run back to back are the atomic call of AuthSpec. */
  lemma RequestAloneIsTheCall(env: Env, s: State, users: UserTable, p: nat, email: string, otp: string, u: Id, id: Id)
    requires s.Valid() && p !in s.requests && id !in s.created && id !in s.Table()
    requires ResetSubject(env, users, email) == Some(u) && users[u].isActive
    ensures var (db, reply) := ForgotPasswordSpec(env, Db(users, s.Table()), s.now, email, otp, id);
            var deleted := After(env.lib, s, Delete(p, u, env.lib.otpHash(otp), s.now + OtpTtl(env.cfg)));
            var stored := After(env.lib, deleted, Insert(p, id));
            && reply == Done && stored.Table() == db.resets && stored.requests[p] == Stored
            && stored.created == s.created[id := db.resets[id]]
  {
  }

  lemma SweepIsTheCall(env: Env, s: State, users: UserTable)
    requires s.Valid()
    ensures After(env.lib, s, Sweep).Table() == Step(env, Db(users, s.Table()), s.now, DeleteExpired).0.resets
  {
  }
}
