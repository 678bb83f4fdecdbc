/** What each of the nine calls does and answers over the Postgres table when nothing runs beside it and no statement
    fails. */
module TableCalls {
  import opened Values
  import opened FieldMask
  import opened Filters
  import opened StoreSpec
  import opened Handlers
  import opened PostgresTable
  import opened TableSerializability
  import QueryBuilder
  import TableHonesty

  /** call, alone on t, leaves t' and answers with r; a unary call makes at most three statements. */
  ghost predicate Ends(t: Table, call: Call, now: Time, t': Table, r: Response) {
    Alone(t, Thread(Start(call), None), Calm(3, now)) == (t', Thread(Done(r), None))
  }

  /** Another user's row has the name. */
  ghost predicate Taken(t: Table, id: Id, username: string) {
    exists other :: other in t && other != id && t[other].username == username
  }

  lemma TakenIsNotFree(t: Table, id: Id, username: string)
    ensures NameFree(t, id, username) <==> !Taken(t, id, username)
  {
  }

  lemma EndsAtOnce(t: Table, call: Call, now: Time, r: Response)
    requires Start(call) == Done(r)
    ensures Ends(t, call, now, t, r)
  {
    EndsFrom(t, Thread(Start(call), None), now, 0, t, r);
  }

  /** Once done, a thread stays as it is. */
  lemma EndsFrom(t: Table, th: Thread, now: Time, n: nat, t': Table, r: Response)
    requires n <= 3 && Alone(t, th, Calm(n, now)) == (t', Thread(Done(r), None))
    ensures Alone(t, th, Calm(3, now)) == (t', Thread(Done(r), None))
    decreases 3 - n
  {
    hide Alone, Issue, Calm;
    if n < 3 {
      CalmNext(t, th, n, now);
      TableHonesty.IssueDone(t', r, now, false);
      EndsFrom(t, th, now, n + 1, t', r);
    }
  }

  lemma EndsInOne(t: Table, call: Call, now: Time, t': Table, r: Response)
    requires Issue(t, Thread(Start(call), None), now, false) == (t', Thread(Done(r), None))
    ensures Ends(t, call, now, t', r)
  {
    var th := Thread(Start(call), None);
    CalmStart(t, th, now);
    CalmNext(t, th, 0, now);
    hide Alone, Issue, Calm;
    EndsFrom(t, th, now, 1, t', r);
  }

  lemma EndsInTwo(t: Table, call: Call, now: Time, t1: Table, th1: Thread, t': Table, r: Response)
    requires Issue(t, Thread(Start(call), None), now, false) == (t1, th1)
    requires Issue(t1, th1, now, false) == (t', Thread(Done(r), None))
    ensures Ends(t, call, now, t', r)
  {
    var th := Thread(Start(call), None);
    CalmStart(t, th, now);
    CalmNext(t, th, 0, now);
    CalmNext(t, th, 1, now);
    hide Alone, Issue, Calm;
    EndsFrom(t, th, now, 2, t', r);
  }

  lemma EndsInThree(t: Table, call: Call, now: Time, th1: Thread, th2: Thread, t': Table, r: Response)
    requires Issue(t, Thread(Start(call), None), now, false) == (t, th1)
    requires Issue(t, th1, now, false) == (t, th2) && Issue(t, th2, now, false) == (t', Thread(Done(r), None))
    ensures Ends(t, call, now, t', r)
  {
    var th := Thread(Start(call), None);
    CalmStart(t, th, now);
    CalmNext(t, th, 0, now);
    CalmNext(t, th, 1, now);
    CalmNext(t, th, 2, now);
    hide Alone, Issue, Calm;
  }

  // ---------- The unary calls ----------

  lemma GetUserAnswers(t: Table, id: Id, now: Time)
    ensures Ends(t, GetUser(id), now, t,
                 if id == 0 then Fail(IdIsZero)
                 else if id !in t then Fail(NotFound)
                 else OneUser(UserOf(id, t[id])))
  {
    hide UserOf, Ends;
    if id == 0 {
      EndsAtOnce(t, GetUser(id), now, Fail(IdIsZero));
    } else {
      EndsInOne(t, GetUser(id), now, t, if id in t then OneUser(UserOf(id, t[id])) else Fail(NotFound));
    }
  }

  lemma DeleteUserAnswers(t: Table, id: Id, now: Time)
    ensures if id == 0 then Ends(t, DeleteUser(id), now, t, Fail(IdIsZero))
            else if id !in t then Ends(t, DeleteUser(id), now, t, Fail(NotFound))
            else Ends(t, DeleteUser(id), now, t - {id}, Empty)
  {
    hide Ends;
    if id == 0 {
      EndsAtOnce(t, DeleteUser(id), now, Fail(IdIsZero));
    } else if id !in t {
      EndsInOne(t, DeleteUser(id), now, t, Fail(NotFound));
    } else {
      EndsInOne(t, DeleteUser(id), now, t - {id}, Empty);
    }
  }

  /** AddUser: the refusals in their order; a user who is there is no reason to refuse, but overwritten, and keeps the
      create date. A missing one is the epoch, and the status is the message's. */
  lemma AddUserAnswers(t: Table, u: User, now: Time)
    ensures var created := if u.id in t then t[u.id].createDate
                           else if u.createDate.Some? then u.createDate.value else 0;
            if |t| == 0 && u.role != 2 then Ends(t, AddUser(u), now, t, Fail(FirstUserNotAdmin))
            else if u.id == 0 then Ends(t, AddUser(u), now, t, Fail(IdIsZero))
            else if u.username == "" then Ends(t, AddUser(u), now, t, Fail(UsernameEmpty))
            else if Taken(t, u.id, u.username) then Ends(t, AddUser(u), now, t, Fail(Internal))
            else Ends(t, AddUser(u), now, t[u.id := RowFor(u).(createDate := created)], Empty)
  {
    var created := if u.id in t then t[u.id].createDate else if u.createDate.Some? then u.createDate.value else 0;
    assert TableHonesty.Upserted(t, u) == RowFor(u).(createDate := created);
    hide Issue, Ends, RowFor, Taken, TableHonesty.Upserted;
    var call := AddUser(u);
    if |t| == 0 && u.role != 2 {
      EndsInOne(t, call, now, t, Fail(FirstUserNotAdmin));
    } else if u.id == 0 {
      EndsInOne(t, call, now, t, Fail(IdIsZero));
    } else if u.username == "" {
      EndsInOne(t, call, now, t, Fail(UsernameEmpty));
    } else {
      if Taken(t, u.id, u.username) {
        EndsInTwo(t, call, now, t, Thread(AddInsert(u), None), t, Fail(Internal));
      } else {
        EndsInTwo(t, call, now, t, Thread(AddInsert(u), None), t[u.id := TableHonesty.Upserted(t, u)], Empty);
      }
    }
  }

  /** UpdateUser of a user who is there */
  lemma UpdateAnswers(t: Table, req: User, mask: seq<string>, now: Time)
    requires req.id != 0 && req.id in t
    ensures match Edited(UserOf(req.id, t[req.id]), req, mask)
            case Failure(e) => Ends(t, UpdateUser(Some(req), mask), now, t, Fail(e))
            case Success(u) =>
              if Taken(t, req.id, u.username) then Ends(t, UpdateUser(Some(req), mask), now, t, Fail(Internal))
              else Ends(t, UpdateUser(Some(req), mask), now,
                        t[req.id := RowFor(u).(createDate := t[req.id].createDate)], OneUser(u))
  {
    var call, found := UpdateUser(Some(req), mask), UserOf(req.id, t[req.id]);
    TableHonesty.IssueUpdateFetch(t, req, mask, now, false);
    MaskMeaning(found, req, mask);
    hide Issue, Ends, Edited, Known, Named, Merged, UserOf, NameFree, RowFor, Taken;
    match Edited(found, req, mask) {
      case Failure(e) =>
        EndsInOne(t, call, now, t, Fail(e));
      case Success(u) =>
        TableHonesty.IssueUpdateWrite(t, u, now, false);
        TakenIsNotFree(t, req.id, u.username);
        var check, write := Thread(UpdateWrite(u), None), Thread(UpdateWrite(u), Some(u));
        if Taken(t, req.id, u.username) {
          EndsInThree(t, call, now, check, write, t, Fail(Internal));
        } else {
          EndsInThree(t, call, now, check, write, t[req.id := TableHonesty.Upserted(t, u)], OneUser(u));
        }
    }
  }

  lemma UpdateUserAnswers(t: Table, req: Option<User>, mask: seq<string>, now: Time)
    ensures var call := UpdateUser(req, mask);
            if req.None? then Ends(t, call, now, t, Fail(UserMissing))
            else if req.value.id == 0 then Ends(t, call, now, t, Fail(IdIsZero))
            else if req.value.id !in t then Ends(t, call, now, t, Fail(NotFound))
            else
              var id := req.value.id;
              match Edited(UserOf(id, t[id]), req.value, mask)
              case Failure(e) => Ends(t, call, now, t, Fail(e))
              case Success(u) =>
                if Taken(t, id, u.username) then Ends(t, call, now, t, Fail(Internal))
                else Ends(t, call, now, t[id := RowFor(u).(createDate := t[id].createDate)], OneUser(u))
  {
    hide Ends, Edited, UserOf, RowFor, Taken;
    var call := UpdateUser(req, mask);
    if req.None? {
      EndsAtOnce(t, call, now, Fail(UserMissing));
    } else if req.value.id == 0 {
      EndsAtOnce(t, call, now, Fail(IdIsZero));
    } else if req.value.id !in t {
      TableHonesty.IssueUpdateFetch(t, req.value, mask, now, false);
      hide Issue;
      EndsInOne(t, call, now, t, Fail(NotFound));
    } else {
      UpdateAnswers(t, req.value, mask, now);
    }
  }

  // ---------- The listings ----------

  /** A role listing: the users read back from the rows with that role, or NotFound when there are none */
  lemma ListUsersByRoleAnswers(t: Table, role: Int32, now: Time)
    ensures var users := set id | id in t && t[id].role == role :: UserOf(id, t[id]);
            Ends(t, ListUsersByRole(role), now, t, if users == {} then Fail(NotFound) else Users(users))
  {
    hide UserOf, Ends;
    var users := set id | id in t && t[id].role == role :: UserOf(id, t[id]);
    assert InRole(t, role) == users;
    hide InRole, Matches;
    EndsInOne(t, ListUsersByRole(role), now, t, if users == {} then Fail(NotFound) else Users(users));
  }

  /** A list request: with a page size it fails; without, it answers with the users read back from the rows that the
      text of the query selects. These are within the bounds of the request unless older_than is too long for an int64,
      and all rows clear of them are there unless it cannot be negated. */
  lemma ListUsersAnswers(t: Table, list: ListRequest, now: Time)
    ensures list.pageSize > 0 ==> Ends(t, ListUsers(list), now, t, Fail(Internal))
    ensures var users := set id | id in t && QueryBuilder.Lists(Columns(t[id]), list, now) :: UserOf(id, t[id]);
            list.pageSize <= 0 ==>
              && Ends(t, ListUsers(list), now, t, if users == {} then Fail(NotFound) else Users(users))
              && ((list.olderThan.Some? ==> list.olderThan.value <= MAX_INT64) ==>
                    forall u | u in users :: UserWithinBounds(u, list, now))
              && ((list.olderThan.Some? ==> MIN_INT64 < list.olderThan.value) ==>
                    forall id | id in t && QueryBuilder.ClearInTable(Columns(t[id]), list, now) ::
                      UserOf(id, t[id]) in users)
  {
    hide UserOf, Ends, QueryBuilder.Lists, UserWithinBounds, QueryBuilder.ClearInTable, Issue;
    IssueList(t, list, now);
    RowsInBounds(t, list, now);
    if list.pageSize > 0 {
      EndsInOne(t, ListUsers(list), now, t, Fail(Internal));
    } else {
      var users := set id | id in t && QueryBuilder.Lists(Columns(t[id]), list, now) :: UserOf(id, t[id]);
      EndsInOne(t, ListUsers(list), now, t, if users == {} then Fail(NotFound) else Users(users));
    }
  }

  lemma IssueList(t: Table, list: ListRequest, now: Time)
    ensures var users := set id | id in t && QueryBuilder.Lists(Columns(t[id]), list, now) :: UserOf(id, t[id]);
            Issue(t, Thread(Start(ListUsers(list)), None), now, false)
            == (t, Thread(Done(if list.pageSize > 0 then Fail(Internal)
                               else if users == {} then Fail(NotFound) else Users(users)), None))
  {
    hide UserOf, FilterOf, QueryBuilder.Lists, Columns;
    PageSizeStays(list, now);
    if list.pageSize <= 0 {
      ListedRows(t, list, now);
    }
    hide Matches;
  }

  lemma PageSizeStays(list: ListRequest, now: Time)
    ensures FilterOf(list, now).pageSize == list.pageSize
  {
  }

  /** What the table answers is what the text of the query selects. */
  lemma ListedRows(t: Table, list: ListRequest, now: Time)
    requires list.pageSize <= 0
    ensures Matches(t, FilterOf(list, now))
         == set id | id in t && QueryBuilder.Lists(Columns(t[id]), list, now) :: UserOf(id, t[id])
  {
    hide UserOf, FilterOf, QueryBuilder.Lists, QueryBuilder.FilterAccepts, Columns;
    forall id | id in t
      ensures QueryBuilder.Lists(Columns(t[id]), list, now)
              <==> QueryBuilder.FilterAccepts(Columns(t[id]), Some(FilterOf(list, now)))
    {
      QueryBuilder.ListsByFilter(Columns(t[id]), list, now);
    }
  }

  lemma RowsInBounds(t: Table, list: ListRequest, now: Time)
    ensures (list.olderThan.Some? ==> list.olderThan.value <= MAX_INT64) ==>
              forall id | id in t && QueryBuilder.Lists(Columns(t[id]), list, now) ::
                UserWithinBounds(UserOf(id, t[id]), list, now)
    ensures (list.olderThan.Some? ==> MIN_INT64 < list.olderThan.value) && list.pageSize <= 0 ==>
              forall id | id in t && QueryBuilder.ClearInTable(Columns(t[id]), list, now) ::
                QueryBuilder.Lists(Columns(t[id]), list, now)
  {
    hide QueryBuilder.Lists, QueryBuilder.ClearInTable, WithinBounds;
    if list.olderThan.Some? ==> list.olderThan.value <= MAX_INT64 {
      forall id | id in t && QueryBuilder.Lists(Columns(t[id]), list, now)
        ensures UserWithinBounds(UserOf(id, t[id]), list, now)
      {
        QueryBuilder.SelectedIsWithinBounds(Columns(t[id]), list, now);
      }
    }
    if (list.olderThan.Some? ==> MIN_INT64 < list.olderThan.value) && list.pageSize <= 0 {
      forall id | id in t && QueryBuilder.ClearInTable(Columns(t[id]), list, now)
        ensures QueryBuilder.Lists(Columns(t[id]), list, now)
      {
        QueryBuilder.ClearIsSelected(Columns(t[id]), list, now);
      }
    }
  }

  // ---------- Listings by role ----------

  /** The users of the table as a store */
  function Stocked(t: Table): Store {
    map id | id in t :: UserOf(id, t[id])
  }

  function RoleListing(t: Table, role: Int32): set<User> {
    match Query(t, ListByRole(role))
    case Listed(users) => users
    case _ => {}
  }

  function SumOfListings(t: Table, roles: seq<Int32>): nat {
    if roles == [] then 0 else |RoleListing(t, roles[0])| + SumOfListings(t, roles[1..])
  }

  lemma {:induction false} AsManyUsers(t: Table, ids: set<Id>)
    requires ids <= t.Keys
    ensures |set id | id in ids && id in t :: UserOf(id, t[id])| == |ids|
    decreases |ids|
  {
    var users := set id | id in ids && id in t :: UserOf(id, t[id]);
    if ids == {} {
      assert users == {};
    } else {
      var one :| one in ids;
      AsManyUsers(t, ids - {one});
      var others := set id | id in ids - {one} && id in t :: UserOf(id, t[id]);
      assert UserOf(one, t[one]) !in others;
      assert users == others + {UserOf(one, t[one])};
    }
  }

  lemma ListingSize(t: Table, role: Int32)
    ensures |RoleListing(t, role)| == |WithRole(Stocked(t), role)|
    ensures RoleListing(t, role) == set id | id in t && t[id].role == role :: UserOf(id, t[id])
  {
    var ids := WithRole(Stocked(t), role);
    AsManyUsers(t, ids);
    assert RoleListing(t, role) == set id | id in ids && id in t :: UserOf(id, t[id]);
  }

  lemma {:induction false} ListingSizes(t: Table, roles: seq<Int32>)
    ensures SumOfListings(t, roles) == SumOfSizes(Stocked(t), roles)
  {
    hide RoleListing, WithRole, Stocked;
    if roles != [] {
      ListingSize(t, roles[0]);
      ListingSizes(t, roles[1..]);
    }
  }

  /** Listings of distinct roles have no user in common, and together they are as long as the table exactly when every
      role that a row has is asked for. */
  lemma RoleListingsAddUp(t: Table, roles: seq<Int32>)
    requires NoRepeats(roles)
    ensures forall i, j | 0 <= i < j < |roles| :: RoleListing(t, roles[i]) !! RoleListing(t, roles[j])
    ensures SumOfListings(t, roles) == |t| <==> forall id | id in t :: t[id].role in roles
  {
    forall i, j | 0 <= i < j < |roles| ensures RoleListing(t, roles[i]) !! RoleListing(t, roles[j]) {
      ListingSize(t, roles[i]);
      ListingSize(t, roles[j]);
    }
    ListingSizes(t, roles);
    RolesPartition(Stocked(t), roles);
    assert Stocked(t).Keys == t.Keys;
    assert |Stocked(t)| == |Stocked(t).Keys| && |t| == |t.Keys|;
    assert forall id | id in t :: Stocked(t)[id].role == t[id].role;
    hide RoleListing, SumOfSizes, SumOfListings, NoRepeats, WithRole;
  }
}
