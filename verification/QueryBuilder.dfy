// The SQL text builders of internal/repository/implementation: conditions and SET clauses with numbered
// placeholders, the argument list they refer to, and what the database makes of the two together.

module QueryBuilder {
  import opened Options
  import opened AuthTypes
  import opened AuthSpec
  import opened Pagination

  datatype Value =
    | TextValue(text: string)
    | RoleValue(role: UserRole)
    | IdValue(id: Id)
    | TimeValue(time: Time)
    | IntValue(n: int)

  /** The two tables that are listed. user_id of an audit row may be NULL. */
  datatype Row = UserRow(id: Id, user: User) | AuditRow(userId: Option<Id>, resource: string)

  /** "column = $n" or "column ILIKE $n"; a condition is a disjunction of such tests. */
  datatype Column = UserRoleIs | UserNameLike | UserEmailLike | AuditUserIs | AuditResourceIs
  datatype Test = Test(column: Column, placeholder: nat)
  type Condition = seq<Test>

  /** A SELECT with its conditions joined by AND, and the placeholders of LIMIT and OFFSET. */
  datatype Query = Query(where: seq<Condition>, limit: nat, offset: nat)

  // ----- Meaning: the database's side -----

  predicate Bound(args: seq<Value>, placeholder: nat) {
    1 <= placeholder <= |args|
  }

  /** The argument has the type of the column; a role must be in the SQL enum. */
  predicate Fits(column: Column, v: Value) {
    match column
    case UserRoleIs => v.RoleValue? && !v.role.Other?
    case UserNameLike => v.TextValue?
    case UserEmailLike => v.TextValue?
    case AuditUserIs => v.IdValue?
    case AuditResourceIs => v.TextValue?
  }

  predicate TestBinds(test: Test, args: seq<Value>) {
    Bound(args, test.placeholder) && Fits(test.column, args[test.placeholder - 1])
  }

  predicate ConditionBinds(c: Condition, args: seq<Value>) {
    forall j :: 0 <= j < |c| ==> TestBinds(c[j], args)
  }

  predicate Binds(where: seq<Condition>, args: seq<Value>) {
    forall i :: 0 <= i < |where| ==> ConditionBinds(where[i], args)
  }

  /** What the test means for one argument and one row. */
  predicate Cell(ilike: (string, string) -> bool, column: Column, v: Value, row: Row)
    requires Fits(column, v)
  {
    match column
    case UserRoleIs => row.UserRow? && row.user.role == v.role
    case UserNameLike => row.UserRow? && ilike(row.user.name, v.text)
    case UserEmailLike => row.UserRow? && ilike(row.user.email, v.text)
    case AuditUserIs => row.AuditRow? && row.userId == Some(v.id)
    case AuditResourceIs => row.AuditRow? && row.resource == v.text
  }

  predicate Passes(ilike: (string, string) -> bool, test: Test, args: seq<Value>, row: Row)
    requires TestBinds(test, args)
  {
    Cell(ilike, test.column, args[test.placeholder - 1], row)
  }

  predicate Satisfies(ilike: (string, string) -> bool, c: Condition, args: seq<Value>, row: Row)
    requires ConditionBinds(c, args)
  {
    exists j :: 0 <= j < |c| && Passes(ilike, c[j], args, row)
  }

  predicate Holds(ilike: (string, string) -> bool, where: seq<Condition>, args: seq<Value>, row: Row)
    requires Binds(where, args)
  {
    forall i :: 0 <= i < |where| ==> Satisfies(ilike, where[i], args, row)
  }

  function Kept(ilike: (string, string) -> bool, where: seq<Condition>, args: seq<Value>, rows: seq<Row>): seq<Row>
    requires Binds(where, args)
  {
    if rows == [] then []
    else (if Holds(ilike, where, args, rows[0]) then [rows[0]] else []) + Kept(ilike, where, args, rows[1..])
  }

  /** SELECT COUNT(*); None when the database rejects the statement. */
  function RunCount(ilike: (string, string) -> bool, q: Query, args: seq<Value>, rows: seq<Row>): Option<nat> {
    if Binds(q.where, args) then Some(|Kept(ilike, q.where, args, rows)|) else None
  }

  /** SELECT ... ORDER BY ... LIMIT $a OFFSET $b, over rows already in that order. */
  function RunSelect(ilike: (string, string) -> bool, q: Query, args: seq<Value>, rows: seq<Row>): Option<seq<Row>> {
    if !Binds(q.where, args) || !Bound(args, q.limit) || !Bound(args, q.offset) then None
    else
      var limit, offset := args[q.limit - 1], args[q.offset - 1];
      if !limit.IntValue? || !offset.IntValue? || limit.n < 0 || offset.n < 0 then None
      else Some(Slice(Kept(ilike, q.where, args, rows), offset.n, limit.n))
  }

  // ----- Meaning: the caller's side -----

  datatype ListUsersParams = ListUsersParams(role: Option<UserRole>, search: Option<string>, page: Params)
  datatype ListAuditParams = ListAuditParams(userId: Option<Id>, resource: Option<string>, page: Params)

  predicate WantsUser(ilike: (string, string) -> bool, p: ListUsersParams, row: Row) {
    && (p.role.Some? ==> row.UserRow? && row.user.role == p.role.value)
    && (p.search.Some? && p.search.value != "" ==>
          && row.UserRow?
          && var pattern := "%" + p.search.value + "%"; ilike(row.user.name, pattern) || ilike(row.user.email, pattern))
  }

  predicate WantsAudit(p: ListAuditParams, row: Row) {
    && (p.userId.Some? ==> row.AuditRow? && row.userId == p.userId)
    && (p.resource.Some? && p.resource.value != "" ==> row.AuditRow? && row.resource == p.resource.value)
  }

  function Wanted(want: Row -> bool, rows: seq<Row>): seq<Row> {
    if rows == [] then [] else (if want(rows[0]) then [rows[0]] else []) + Wanted(want, rows[1..])
  }

  /** The COUNT and the SELECT together answer "the rows wanted, sliced", on one snapshot of the table. */
  ghost predicate Answers(ilike: (string, string) -> bool, q: Query, countArgs: seq<Value>, args: seq<Value>,
                          want: Row -> bool, page: Params, rows: seq<Row>)
  {
    && RunCount(ilike, q, countArgs, rows) == Some(|Wanted(want, rows)|)
    && RunSelect(ilike, q, args, rows) ==
         if page.pageSize < 0 then None else Page(Wanted(want, rows), page)
  }

  // ----- The translation -----

  /** One optional parameter that is present: a value wanted in one of some columns. */
  datatype Filter = Filter(columns: seq<Column>, value: Value)

  predicate WellTyped(f: Filter) {
    forall j :: 0 <= j < |f.columns| ==> Fits(f.columns[j], f.value)
  }

  predicate Matches(ilike: (string, string) -> bool, f: Filter, row: Row)
    requires WellTyped(f)
  {
    exists j :: 0 <= j < |f.columns| && Cell(ilike, f.columns[j], f.value, row)
  }

  function Conditioned(f: Filter, placeholder: nat): (c: Condition)
    ensures |c| == |f.columns|
    ensures forall j :: 0 <= j < |c| ==> c[j] == Test(f.columns[j], placeholder)
  {
    seq(|f.columns|, j requires 0 <= j < |f.columns| => Test(f.columns[j], placeholder))
  }

  /** Filter number i of the list refers to argument i: placeholders are exactly 1..|filters|, in order. */
  ghost predicate Translates(filters: seq<Filter>, where: seq<Condition>, args: seq<Value>) {
    && |where| == |filters| <= |args|
    && forall i :: 0 <= i < |filters| ==> where[i] == Conditioned(filters[i], i + 1) && args[i] == filters[i].value
  }

  lemma OneMoreFilter(filters: seq<Filter>, where: seq<Condition>, args: seq<Value>, f: Filter)
    requires Translates(filters, where, args) && |args| == |filters|
    ensures Translates(filters + [f], where + [Conditioned(f, |args| + 1)], args + [f.value])
  {
  }

  lemma ConditionMeansFilter(ilike: (string, string) -> bool, f: Filter, placeholder: nat, args: seq<Value>, row: Row)
    requires Bound(args, placeholder) && args[placeholder - 1] == f.value
    ensures ConditionBinds(Conditioned(f, placeholder), args) <==> WellTyped(f)
    ensures WellTyped(f) ==> (Satisfies(ilike, Conditioned(f, placeholder), args, row) <==> Matches(ilike, f, row))
  {
  }

  /** For any list of filters: the built WHERE clause, under the built arguments and whatever is appended to them,
      is accepted exactly when every filter is well typed, and then selects exactly the rows that match all of them. */
  lemma TranslationKeepsMeaning(ilike: (string, string) -> bool, filters: seq<Filter>, where: seq<Condition>,
                                args: seq<Value>, row: Row)
    requires Translates(filters, where, args)
    ensures Binds(where, args) <==> forall i :: 0 <= i < |filters| ==> WellTyped(filters[i])
    ensures Binds(where, args) ==>
              (Holds(ilike, where, args, row) <==> forall i :: 0 <= i < |filters| ==> Matches(ilike, filters[i], row))
  {
    forall i | 0 <= i < |filters|
      ensures ConditionBinds(where[i], args) <==> WellTyped(filters[i])
      ensures WellTyped(filters[i]) ==> (Satisfies(ilike, where[i], args, row) <==> Matches(ilike, filters[i], row))
    {
      ConditionMeansFilter(ilike, filters[i], i + 1, args, row);
    }
  }

  lemma {:induction false} KeptIsWanted(ilike: (string, string) -> bool, where: seq<Condition>, args: seq<Value>,
                                        want: Row -> bool, rows: seq<Row>)
    requires Binds(where, args)
    requires forall row :: Holds(ilike, where, args, row) <==> want(row)
    ensures Kept(ilike, where, args, rows) == Wanted(want, rows)
  {
    if rows != [] { KeptIsWanted(ilike, where, args, want, rows[1..]); }
  }

  lemma TranslationAnswers(ilike: (string, string) -> bool, filters: seq<Filter>, where: seq<Condition>,
                           countArgs: seq<Value>, want: Row -> bool, page: Params, rows: seq<Row>)
    requires Translates(filters, where, countArgs) && |countArgs| == |filters|
    requires forall i :: 0 <= i < |filters| ==> WellTyped(filters[i])
    requires forall row :: want(row) <==> forall i :: 0 <= i < |filters| ==> Matches(ilike, filters[i], row)
    ensures Answers(ilike, Query(where, |countArgs| + 1, |countArgs| + 2), countArgs,
                    countArgs + [IntValue(page.pageSize), IntValue(page.Offset())], want, page, rows)
  {
    var args := countArgs + [IntValue(page.pageSize), IntValue(page.Offset())];
    assert Translates(filters, where, args);
    forall row
      ensures Binds(where, countArgs) && (Holds(ilike, where, countArgs, row) <==> want(row))
      ensures Binds(where, args) && (Holds(ilike, where, args, row) <==> want(row))
    {
      TranslationKeepsMeaning(ilike, filters, where, countArgs, row);
      TranslationKeepsMeaning(ilike, filters, where, args, row);
    }
    assert Binds(where, countArgs) && Binds(where, args) by {
      TranslationKeepsMeaning(ilike, filters, where, countArgs, AuditRow(None, ""));
      TranslationKeepsMeaning(ilike, filters, where, args, AuditRow(None, ""));
    }
    KeptIsWanted(ilike, where, countArgs, want, rows);
    KeptIsWanted(ilike, where, args, want, rows);
  }

  // ----- The builders -----

  /** The filters a user listing asks for. */
  function UserFilters(p: ListUsersParams): seq<Filter> {
    (if p.role.Some? then [Filter([UserRoleIs], RoleValue(p.role.value))] else [])
    + (if p.search.Some? && p.search.value != ""
       then [Filter([UserNameLike, UserEmailLike], TextValue("%" + p.search.value + "%"))] else [])
  }

  lemma UserFiltersMean(ilike: (string, string) -> bool, p: ListUsersParams, row: Row)
    requires !(p.role.Some? && p.role.value.Other?)
    ensures forall i :: 0 <= i < |UserFilters(p)| ==> WellTyped(UserFilters(p)[i])
    ensures WantsUser(ilike, p, row) <==>
              forall i :: 0 <= i < |UserFilters(p)| ==> Matches(ilike, UserFilters(p)[i], row)
  {
    var fs := UserFilters(p);
    if p.role.Some? {
      assert Matches(ilike, fs[0], row) <==> Cell(ilike, fs[0].columns[0], fs[0].value, row);
    }
    if p.search.Some? && p.search.value != "" {
      var f := fs[|fs| - 1];
      assert Matches(ilike, f, row) <==>
               Cell(ilike, f.columns[0], f.value, row) || Cell(ilike, f.columns[1], f.value, row);
    }
  }

  function AuditFilters(p: ListAuditParams): seq<Filter> {
    (if p.userId.Some? then [Filter([AuditUserIs], IdValue(p.userId.value))] else [])
    + (if p.resource.Some? && p.resource.value != ""
       then [Filter([AuditResourceIs], TextValue(p.resource.value))] else [])
  }

  lemma AuditFiltersMean(ilike: (string, string) -> bool, p: ListAuditParams, row: Row)
    ensures forall i :: 0 <= i < |AuditFilters(p)| ==> WellTyped(AuditFilters(p)[i])
    ensures WantsAudit(p, row) <==> forall i :: 0 <= i < |AuditFilters(p)| ==> Matches(ilike, AuditFilters(p)[i], row)
  {
    var fs := AuditFilters(p);
    if p.userId.Some? {
      assert Matches(ilike, fs[0], row) <==> Cell(ilike, fs[0].columns[0], fs[0].value, row);
    }
    if p.resource.Some? && p.resource.value != "" {
      var f := fs[|fs| - 1];
      assert Matches(ilike, f, row) <==> Cell(ilike, f.columns[0], f.value, row);
    }
  }

  /** Placeholder i of the conditions is argument i, and LIMIT and OFFSET take the two after them. */
  ghost predicate Numbered(q: Query, countArgs: seq<Value>, args: seq<Value>) {
    && |q.where| == |countArgs| && countArgs <= args && |args| == |countArgs| + 2
    && (forall i :: 0 <= i < |q.where| ==> q.where[i] != [])
    && (forall i, j :: 0 <= i < |q.where| && 0 <= j < |q.where[i]| ==> q.where[i][j].placeholder == i + 1)
    && q.limit == |countArgs| + 1 && q.offset == |countArgs| + 2
  }

  lemma UserQueryAnswers(ilike: (string, string) -> bool, p: ListUsersParams, filters: seq<Filter>,
                         where: seq<Condition>, countArgs: seq<Value>, rows: seq<Row>)
    requires filters == UserFilters(p) && Translates(filters, where, countArgs) && |countArgs| == |filters|
    ensures var q := Query(where, |countArgs| + 1, |countArgs| + 2);
            var args := countArgs + [IntValue(p.page.pageSize), IntValue(p.page.Offset())];
            if p.role.Some? && p.role.value.Other?
              then RunCount(ilike, q, countArgs, rows).None? && RunSelect(ilike, q, args, rows).None?
            else Answers(ilike, q, countArgs, args, row => WantsUser(ilike, p, row), p.page, rows)
  {
    if p.role.Some? && p.role.value.Other? {
      var args := countArgs + [IntValue(p.page.pageSize), IntValue(p.page.Offset())];
      assert !WellTyped(filters[0]) by { assert !Fits(filters[0].columns[0], filters[0].value); }
      TranslationKeepsMeaning(ilike, filters, where, countArgs, AuditRow(None, ""));
      TranslationKeepsMeaning(ilike, filters, where, args, AuditRow(None, ""));
    } else {
      forall row
        ensures forall i :: 0 <= i < |filters| ==> WellTyped(filters[i])
        ensures WantsUser(ilike, p, row) <==> forall i :: 0 <= i < |filters| ==> Matches(ilike, filters[i], row)
      {
        UserFiltersMean(ilike, p, row);
      }
      UserFiltersMean(ilike, p, AuditRow(None, ""));
      TranslationAnswers(ilike, filters, where, countArgs, row => WantsUser(ilike, p, row), p.page, rows);
    }
  }

  /** userRepository.List, for any meaning of ILIKE and any rows: the database rejects a role outside the enum,
      and otherwise answers with the wanted rows. */
  method BuildUserList(p: ListUsersParams, ghost ilike: (string, string) -> bool, ghost rows: seq<Row>)
    returns (q: Query, countArgs: seq<Value>, args: seq<Value>)
    ensures if p.role.Some? && p.role.value.Other?
      then RunCount(ilike, q, countArgs, rows).None? && RunSelect(ilike, q, args, rows).None?
            else Answers(ilike, q, countArgs, args, row => WantsUser(ilike, p, row), p.page, rows)
    ensures Numbered(q, countArgs, args)
  {
    var conditions: seq<Condition> := [];
    args := [];
    var argIdx := 1;
    ghost var filters: seq<Filter> := [];
    if p.role.Some? {
      ghost var f := Filter([UserRoleIs], RoleValue(p.role.value));
      OneMoreFilter(filters, conditions, args, f);
      conditions := conditions + [[Test(UserRoleIs, argIdx)]];
      assert conditions[0] == Conditioned(f, 1);
      args := args + [RoleValue(p.role.value)];
      argIdx := argIdx + 1;
      filters := filters + [f];
    }
    if p.search.Some? && p.search.value != "" {
      ghost var f := Filter([UserNameLike, UserEmailLike], TextValue("%" + p.search.value + "%"));
      OneMoreFilter(filters, conditions, args, f);
      var c := [Test(UserNameLike, argIdx), Test(UserEmailLike, argIdx)];
      assert c == Conditioned(f, argIdx);
      conditions := conditions + [c];
      args := args + [TextValue("%" + p.search.value + "%")];
      argIdx := argIdx + 1;
      filters := filters + [f];
    }
    q := Query(conditions, argIdx, argIdx + 1);
    countArgs := args;
    args := args + [IntValue(p.page.pageSize), IntValue(p.page.Offset())];
    UserQueryAnswers(ilike, p, filters, conditions, countArgs, rows);
  }

  lemma AuditQueryAnswers(ilike: (string, string) -> bool, p: ListAuditParams, filters: seq<Filter>,
                          where: seq<Condition>, countArgs: seq<Value>, rows: seq<Row>)
    requires filters == AuditFilters(p) && Translates(filters, where, countArgs) && |countArgs| == |filters|
    ensures Answers(ilike, Query(where, |countArgs| + 1, |countArgs| + 2), countArgs,
                    countArgs + [IntValue(p.page.pageSize), IntValue(p.page.Offset())],
                    row => WantsAudit(p, row), p.page, rows)
  {
    forall row ensures WantsAudit(p, row) <==> forall i :: 0 <= i < |filters| ==> Matches(ilike, filters[i], row) {
      AuditFiltersMean(ilike, p, row);
    }
    AuditFiltersMean(ilike, p, AuditRow(None, ""));
    TranslationAnswers(ilike, filters, where, countArgs, row => WantsAudit(p, row), p.page, rows);
  }

  /** auditRepository.List. */
  method BuildAuditList(p: ListAuditParams, ghost ilike: (string, string) -> bool, ghost rows: seq<Row>)
    returns (q: Query, countArgs: seq<Value>, args: seq<Value>)
    ensures Answers(ilike, q, countArgs, args, row => WantsAudit(p, row), p.page, rows)
    ensures Numbered(q, countArgs, args)
  {
    var conditions: seq<Condition> := [];
    args := [];
    var argIdx := 1;
    ghost var filters: seq<Filter> := [];
    if p.userId.Some? {
      ghost var f := Filter([AuditUserIs], IdValue(p.userId.value));
      OneMoreFilter(filters, conditions, args, f);
      conditions := conditions + [[Test(AuditUserIs, argIdx)]];
      assert conditions[0] == Conditioned(f, 1);
      args := args + [IdValue(p.userId.value)];
      argIdx := argIdx + 1;
      filters := filters + [f];
    }
    if p.resource.Some? && p.resource.value != "" {
      ghost var f := Filter([AuditResourceIs], TextValue(p.resource.value));
      OneMoreFilter(filters, conditions, args, f);
      var c := [Test(AuditResourceIs, argIdx)];
      assert c == Conditioned(f, argIdx);
      conditions := conditions + [c];
      args := args + [TextValue(p.resource.value)];
      argIdx := argIdx + 1;
      filters := filters + [f];
    }
    q := Query(conditions, argIdx, argIdx + 1);
    countArgs := args;
    args := args + [IntValue(p.page.pageSize), IntValue(p.page.Offset())];
    AuditQueryAnswers(ilike, p, filters, conditions, countArgs, rows);
  }

  // ----- What the listings return -----

  lemma {:induction false} WantedCounts(want: Row -> bool, rows: seq<Row>, row: Row)
    ensures multiset(Wanted(want, rows))[row] == if want(row) then multiset(rows)[row] else 0
  {
    if rows != [] {
      assert rows == [rows[0]] + rows[1..];
      WantedCounts(want, rows[1..], row);
    }
  }

  /** Each account is listed as often as it is stored, if it has the role and the text asked for, and else not at
      all. */
  lemma UsersListed(ilike: (string, string) -> bool, p: ListUsersParams, want: Row -> bool, rows: seq<Row>, id: Id,
                    u: User)
    requires forall row :: want(row) <==> WantsUser(ilike, p, row)
    ensures var listed := && (p.role.None? || p.role.value == u.role)
                          && (p.search.None? || p.search.value == ""
                              || ilike(u.name, "%" + p.search.value + "%")
                              || ilike(u.email, "%" + p.search.value + "%"));
            multiset(Wanted(want, rows))[UserRow(id, u)] == if listed then multiset(rows)[UserRow(id, u)] else 0
  {
    WantedCounts(want, rows, UserRow(id, u));
  }

  lemma AuditListed(p: ListAuditParams, want: Row -> bool, rows: seq<Row>, userId: Option<Id>, resource: string)
    requires forall row :: want(row) <==> WantsAudit(p, row)
    ensures var listed := && (p.userId.None? || p.userId == userId)
                          && (p.resource.None? || p.resource.value == "" || p.resource.value == resource);
            var row := AuditRow(userId, resource);
            multiset(Wanted(want, rows))[row] == if listed then multiset(rows)[row] else 0
  {
    assert want(AuditRow(userId, resource)) <==> WantsAudit(p, AuditRow(userId, resource));
    WantedCounts(want, rows, AuditRow(userId, resource));
  }

  /** What the first k statements return, one after the other. */
  function Listed(ilike: (string, string) -> bool, qs: seq<Query>, args: seq<seq<Value>>, rows: seq<Row>,
                  k: nat): seq<Row>
    requires k <= |qs| && k <= |args|
  {
    if k == 0 then []
    else
      var got := RunSelect(ilike, qs[k - 1], args[k - 1], rows);
      Listed(ilike, qs, args, rows, k - 1) + if got.Some? then got.value else []
  }

  lemma {:induction false} ListedArePages(ilike: (string, string) -> bool, qs: seq<Query>, args: seq<seq<Value>>,
                                          wanted: seq<Row>, pageSize: nat, rows: seq<Row>, k: nat)
    requires k <= |qs| && k <= |args|
    requires forall i :: 0 <= i < k ==> RunSelect(ilike, qs[i], args[i], rows) == Page(wanted, Params(i + 1, pageSize))
    ensures Listed(ilike, qs, args, rows, k) == FirstPages(wanted, pageSize, k)
  {
    if k > 0 { ListedArePages(ilike, qs, args, wanted, pageSize, rows, k - 1); }
  }

  /** The statements built for pages 1 to TotalPages, on one snapshot, return each wanted row once and in order. */
  lemma ListingsPartition(ilike: (string, string) -> bool, qs: seq<Query>, countArgs: seq<seq<Value>>,
                          args: seq<seq<Value>>, want: Row -> bool, pageSize: int, rows: seq<Row>)
    requires 1 <= pageSize <= MAX_PAGE_SIZE && |Wanted(want, rows)| <= INT64_MAX
    requires |qs| == |countArgs| == |args| == TotalPages(|Wanted(want, rows)|, pageSize)
    requires forall i :: 0 <= i < |qs| ==>
               Answers(ilike, qs[i], countArgs[i], args[i], want, Params(i + 1, pageSize), rows)
    ensures Listed(ilike, qs, args, rows, |qs|) == Wanted(want, rows)
  {
    ListedArePages(ilike, qs, args, Wanted(want, rows), pageSize, rows, |qs|);
    PagesPartition(Wanted(want, rows), pageSize);
  }

  // ----- UPDATE users SET ... WHERE id = $n -----

  datatype Target = NameColumn | RoleColumn | UpdatedAtColumn
  datatype Assignment = Assignment(target: Target, placeholder: nat)

  predicate Assigns(a: Assignment, args: seq<Value>) {
    && Bound(args, a.placeholder)
    && match a.target
       case NameColumn => args[a.placeholder - 1].TextValue?
       case RoleColumn => args[a.placeholder - 1].RoleValue? && !args[a.placeholder - 1].role.Other?
       case UpdatedAtColumn => args[a.placeholder - 1].TimeValue?
  }

  function Assigned(u: User, sets: seq<Assignment>, args: seq<Value>): User
    requires forall i :: 0 <= i < |sets| ==> Assigns(sets[i], args)
    decreases sets
  {
    if sets == [] then u
    else
      assert Assigns(sets[0], args);
      var v := args[sets[0].placeholder - 1];
      var u' := match sets[0].target
                case NameColumn => u.(name := v.text)
                case RoleColumn => u.(role := v.role)
                case UpdatedAtColumn => u.(updatedAt := v.time);
      Assigned(u', sets[1..], args)
  }

  /** The table after the statement; None when the database rejects it. */
  function RunUpdate(users: UserTable, sets: seq<Assignment>, idPlaceholder: nat, args: seq<Value>): Option<UserTable> {
    if !(forall i :: 0 <= i < |sets| ==> Assigns(sets[i], args)) then None
    else if !Bound(args, idPlaceholder) || !args[idPlaceholder - 1].IdValue? then None
    else
      var id := args[idPlaceholder - 1].id;
      Some(if id in users then users[id := Assigned(users[id], sets, args)] else users)
  }

  /** Assigned, unrolled for the at most three clauses there are. */
  lemma AssignedOneByOne(u: User, sets: seq<Assignment>, args: seq<Value>)
    requires 2 <= |sets| <= 3
    requires forall i :: 0 <= i < |sets| ==> Assigns(sets[i], args)
    ensures Assigned(u, sets, args) ==
              if |sets| == 2 then Assigned(Assigned(u, sets[..1], args), sets[1..], args)
              else Assigned(Assigned(Assigned(u, sets[..1], args), sets[1..2], args), sets[2..], args)
  {
  }

  /** userRepository.Update: with nothing to set no statement is built; otherwise the statement does to the row what
      UserRepository.Update is specified to do, and leaves every other row and column alone. */
  method BuildUserUpdate(lib: Library, now: Time, id: Id, name: Option<string>, role: Option<UserRole>,
                         ghost users: UserTable)
    returns (sets: seq<Assignment>, idPlaceholder: nat, args: seq<Value>)
    ensures sets == [] <==> name.None? && role.None?
    ensures sets != [] && role.Some? && role.value.Other? ==> RunUpdate(users, sets, idPlaceholder, args) == None
    ensures sets != [] && !(role.Some? && role.value.Other?) ==>
              RunUpdate(users, sets, idPlaceholder, args) ==
                Some(if id in users then users[id := Patched(lib, users[id], name, role, now)] else users)
    ensures sets != [] ==> idPlaceholder == |args| && |sets| == |args| - 1
    ensures forall i :: 0 <= i < |sets| ==> sets[i].placeholder == i + 1
  {
    sets, args, idPlaceholder := [], [], 0;
    var argIdx := 1;
    if name.Some? {
      sets := sets + [Assignment(NameColumn, argIdx)];
      args := args + [TextValue(lib.trim(name.value))];
      argIdx := argIdx + 1;
    }
    if role.Some? {
      sets := sets + [Assignment(RoleColumn, argIdx)];
      args := args + [RoleValue(role.value)];
      argIdx := argIdx + 1;
    }
    if |sets| == 0 { return; }
    ghost var roleAt := |sets| - 1;
    sets := sets + [Assignment(UpdatedAtColumn, argIdx)];
    args := args + [TimeValue(now)];
    argIdx := argIdx + 1;
    args := args + [IdValue(id)];
    idPlaceholder := argIdx;

    if role.Some? && role.value.Other? {
      assert !Assigns(sets[roleAt], args);
    } else if id in users {
      AssignedOneByOne(users[id], sets, args);
    }
  }
}
