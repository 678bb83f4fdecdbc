/** The nine handlers as small programs over the storage interface. A Local is a program counter with the
    handler's variables; each step makes at most one storage call and continues with its reply. */
module Handlers {
  import opened Values
  import opened FieldMask
  import opened Filters
  import opened StoreSpec

  datatype Call =
    | AddUser(user: User)
    | GetUser(id: Id)
    | UpdateUser(req: Option<User>, mask: seq<string>)
    | DeleteUser(id: Id)
    | ListUsers(list: ListRequest)
    | ListUsersByRole(role: Int32)
    | BatchAddUsers(users: seq<User>)
    | UserActivityStream(activities: seq<Activity>)
    | SyncUsers(users: seq<User>)

  /** position counts messages from 1 */
  datatype BatchError = BatchError(position: int, error: Error)

  datatype ActivityReply = ActivityReply(userId: Id, acknowledged: bool, processedAt: Time)

  /** Created and Updated are the two forms of the SUCCESS status, told apart by the updated fields. */
  datatype Outcome = Created | Updated | Rejected(error: Error)

  datatype SyncReply = SyncReply(userId: Id, outcome: Outcome)

  datatype Response =
    | Empty
    | OneUser(user: User)
    | Users(users: set<User>)
    | BatchSummary(received: nat, added: nat, errors: seq<BatchError>)
    | ActivityReplies(activity: seq<ActivityReply>)
    | SyncReplies(sync: seq<SyncReply>)
    | Fail(error: Error)

  datatype Local =
    | AddCount(user: User)
    | AddInsert(user: User)
    | GetFetch(id: Id)
    | UpdateFetch(req: User, mask: seq<string>)
    | UpdateWrite(edited: User)
    | DeleteWrite(id: Id)
    | ListFetch(list: ListRequest)
    | RoleFetch(role: Int32)
    | BatchNext(users: seq<User>, received: nat, added: nat, errors: seq<BatchError>)
    | ActivityNext(activities: seq<Activity>, replies: seq<ActivityReply>)
    | ActivityFetch(activities: seq<Activity>, replies: seq<ActivityReply>, reply: ActivityReply)
    | ActivityWrite(activities: seq<Activity>, replies: seq<ActivityReply>, reply: ActivityReply, user: User)
    | SyncNext(users: seq<User>, answers: seq<SyncReply>)
    | SyncWrite(users: seq<User>, answers: seq<SyncReply>, found: bool)
    | Done(response: Response)

  /** The checks of AddUser on the message; BatchAddUsers makes the last two, per message. */
  function MessageError(u: User): Option<Error> {
    if u.id == 0 then Some(IdIsZero)
    else if u.username == "" then Some(UsernameEmpty)
    else None
  }

  predicate ValidMessage(u: User) {
    MessageError(u).None?
  }

  function Start(call: Call): Local {
    match call
    case AddUser(u) => AddCount(u)
    case GetUser(id) => if id == 0 then Done(Fail(IdIsZero)) else GetFetch(id)
    case UpdateUser(req, mask) =>
      if req.None? then Done(Fail(UserMissing))
      else if req.value.id == 0 then Done(Fail(IdIsZero))
      else UpdateFetch(req.value, mask)
    case DeleteUser(id) => if id == 0 then Done(Fail(IdIsZero)) else DeleteWrite(id)
    case ListUsers(list) => ListFetch(list)
    case ListUsersByRole(role) => RoleFetch(role)
    case BatchAddUsers(users) => BatchNext(users, 0, 0, [])
    case UserActivityStream(activities) => ActivityNext(activities, [])
    case SyncUsers(users) => SyncNext(users, [])
  }

  /** The calls that can insert a user with this id */
  predicate CanInsert(call: Call, id: Id) {
    match call
    case AddUser(u) => ValidMessage(u) && u.id == id
    case BatchAddUsers(users) => exists k | 0 <= k < |users| :: users[k].id == id && ValidMessage(users[k])
    case SyncUsers(users) => exists k | 0 <= k < |users| :: users[k].id == id && id != 0
    case _ => false
  }

  /** The storage call that the next step makes */
  function Ask(l: Local, now: Time): Request {
    match l
    case AddCount(_) => Count
    case AddInsert(u) => Add(u)
    case GetFetch(id) => Get(id)
    case UpdateFetch(req, _) => Get(req.id)
    case UpdateWrite(edited) => Update(edited)
    case DeleteWrite(id) => Delete(id)
    case ListFetch(list) => List(FilterOf(list, now), Readings(now, now))
    case RoleFetch(role) => ListByRole(role)
    case BatchNext(users, n, _, _) => if n < |users| && ValidMessage(users[n]) then Add(users[n]) else Nothing
    case ActivityNext(acts, replies) => if |replies| < |acts| then Exists(acts[|replies|].userId) else Nothing
    case ActivityFetch(_, _, reply) => Get(reply.userId)
    case ActivityWrite(_, _, _, u) => Update(u)
    case SyncNext(users, answers) =>
      if |answers| < |users| && users[|answers|].id != 0 then Exists(users[|answers|].id) else Nothing
    case SyncWrite(users, answers, found) =>
      if |answers| < |users| then (if found then Update(users[|answers|]) else Add(users[|answers|])) else Nothing
    case Done(_) => Nothing
  }

  /** How a handler goes on with the reply to the call of Ask */
  function Resume(l: Local, reply: Reply, now: Time): Local {
    match l
    case AddCount(u) => AfterCount(u, reply)
    case AddInsert(_) => Done(EmptyOr(reply))
    case GetFetch(_) => Done(if reply.Found? then OneUser(reply.user) else Fail(ErrorOf(reply)))
    case UpdateFetch(req, mask) => AfterFetch(req, mask, reply)
    case UpdateWrite(edited) => Done(if reply.Ok? then OneUser(edited) else Fail(ErrorOf(reply)))
    case DeleteWrite(_) => Done(EmptyOr(reply))
    case ListFetch(_) => Done(UsersOr(reply))
    case RoleFetch(_) => Done(UsersOr(reply))
    case BatchNext(users, n, added, errors) => AfterBatchAdd(users, n, added, errors, reply)
    case ActivityNext(acts, replies) => AfterActivityCheck(acts, replies, reply, now)
    case ActivityFetch(acts, replies, answer) =>
      if reply.Found? && |replies| < |acts|
      then ActivityWrite(acts, replies, answer, reply.user.(lastLogin := acts[|replies|].timestamp))
      else ActivityNext(acts, replies + [answer])
    case ActivityWrite(acts, replies, answer, _) => ActivityNext(acts, replies + [answer])
    case SyncNext(users, answers) => AfterSyncCheck(users, answers, reply)
    case SyncWrite(users, answers, found) => AfterSyncWrite(users, answers, found, reply)
    case Done(_) => l
  }

  function AfterCount(u: User, reply: Reply): Local {
    if !reply.Counted? then Done(Fail(Internal))
    else if reply.n == 0 && u.role != ADMIN then Done(Fail(FirstUserNotAdmin))
    else if MessageError(u).Some? then Done(Fail(MessageError(u).value))
    else AddInsert(u)
  }

  function AfterFetch(req: User, mask: seq<string>, reply: Reply): Local {
    if !reply.Found? then Done(Fail(ErrorOf(reply)))
    else
      match Edited(reply.user, req, mask)
      case Failure(e) => Done(Fail(e))
      case Success(edited) => UpdateWrite(edited)
  }

  function AfterBatchAdd(users: seq<User>, n: nat, added: nat, errors: seq<BatchError>, reply: Reply): Local {
    if n >= |users| then Done(BatchSummary(n, added, errors))
    else if !ValidMessage(users[n]) then
      BatchNext(users, n + 1, added, errors + [BatchError(n + 1, MessageError(users[n]).value)])
    else if reply.Ok? then BatchNext(users, n + 1, added + 1, errors)
    else BatchNext(users, n + 1, added, errors + [BatchError(n + 1, ErrorOf(reply))])
  }

  function AfterActivityCheck(acts: seq<Activity>, replies: seq<ActivityReply>, reply: Reply, now: Time): Local {
    if |replies| >= |acts| then Done(ActivityReplies(replies))
    else if !reply.Present? then Done(Fail(ErrorOf(reply)))
    else
      var answer := ActivityReply(acts[|replies|].userId, reply.found, now);
      if reply.found && acts[|replies|].kind == LOGIN then ActivityFetch(acts, replies, answer)
      else ActivityNext(acts, replies + [answer])
  }

  function AfterSyncCheck(users: seq<User>, answers: seq<SyncReply>, reply: Reply): Local {
    if |answers| >= |users| then Done(SyncReplies(answers))
    else
      var id := users[|answers|].id;
      if id == 0 then SyncNext(users, answers + [SyncReply(id, Rejected(IdIsZero))])
      else if reply.Present? then SyncWrite(users, answers, reply.found)
      else SyncNext(users, answers + [SyncReply(id, Rejected(ErrorOf(reply)))])
  }

  function AfterSyncWrite(users: seq<User>, answers: seq<SyncReply>, found: bool, reply: Reply): Local {
    if |answers| >= |users| then Done(SyncReplies(answers))
    else
      var outcome := if !reply.Ok? then Rejected(ErrorOf(reply)) else if found then Updated else Created;
      SyncNext(users, answers + [SyncReply(users[|answers|].id, outcome)])
  }

  function ErrorOf(reply: Reply): Error {
    if reply.Failed? then reply.error else Internal
  }

  function EmptyOr(reply: Reply): Response {
    if reply.Ok? then Empty else Fail(ErrorOf(reply))
  }

  function UsersOr(reply: Reply): Response {
    if !reply.Listed? then Fail(ErrorOf(reply))
    else if reply.users == {} then Fail(NotFound)
    else Users(reply.users)
  }

  /** One step of a handler over the in-memory storage: one storage call, which holds the lock throughout */
  function Step(s: Store, l: Local, now: Time): (Store, Local) {
    (After(s, Ask(l, now), now), Resume(l, Answer(s, Ask(l, now)), now))
  }

  lemma StepBatch(s: Store, users: seq<User>, n: nat, added: nat, errors: seq<BatchError>, now: Time)
    requires n < |users|
    ensures var u := users[n];
            Step(s, BatchNext(users, n, added, errors), now) ==
            if !ValidMessage(u) then
              (s, BatchNext(users, n + 1, added, errors + [BatchError(n + 1, MessageError(u).value)]))
            else if u.id in s then
              (s, BatchNext(users, n + 1, added, errors + [BatchError(n + 1, AlreadyExists)]))
            else
              (s[u.id := Stored(WithDefaults(u, now))], BatchNext(users, n + 1, added + 1, errors))
  {
  }

  lemma StepBatchEnd(s: Store, users: seq<User>, n: nat, added: nat, errors: seq<BatchError>, now: Time)
    requires n >= |users|
    ensures Step(s, BatchNext(users, n, added, errors), now) == (s, Done(BatchSummary(n, added, errors)))
  {
  }

  lemma StepSyncNext(s: Store, users: seq<User>, answers: seq<SyncReply>, now: Time)
    ensures Step(s, SyncNext(users, answers), now) ==
            (s, if |answers| >= |users| then Done(SyncReplies(answers))
                else if users[|answers|].id == 0 then
                  SyncNext(users, answers + [SyncReply(users[|answers|].id, Rejected(IdIsZero))])
                else SyncWrite(users, answers, users[|answers|].id in s))
  {
  }

  lemma StepSyncWrite(s: Store, users: seq<User>, answers: seq<SyncReply>, found: bool, now: Time)
    requires |answers| < |users|
    ensures var u := users[|answers|];
            Step(s, SyncWrite(users, answers, found), now) ==
            if found && u.id in s then
              (s[u.id := Stored(u)], SyncNext(users, answers + [SyncReply(u.id, Updated)]))
            else if found then
              (s, SyncNext(users, answers + [SyncReply(u.id, Rejected(NotFound))]))
            else if u.id in s then
              (s, SyncNext(users, answers + [SyncReply(u.id, Rejected(AlreadyExists))]))
            else
              (s[u.id := Stored(WithDefaults(u, now))], SyncNext(users, answers + [SyncReply(u.id, Created)]))
  {
  }

  lemma StepActivityNext(s: Store, acts: seq<Activity>, replies: seq<ActivityReply>, now: Time)
    ensures Step(s, ActivityNext(acts, replies), now) ==
            (s, if |replies| >= |acts| then Done(ActivityReplies(replies))
                else
                  var a := acts[|replies|];
                  var reply := ActivityReply(a.userId, a.userId in s, now);
                  if a.userId in s && a.kind == LOGIN then ActivityFetch(acts, replies, reply)
                  else ActivityNext(acts, replies + [reply]))
  {
  }

  lemma StepActivityFetch(s: Store, acts: seq<Activity>, replies: seq<ActivityReply>, reply: ActivityReply, now: Time)
    requires |replies| < |acts|
    ensures Step(s, ActivityFetch(acts, replies, reply), now) ==
            (s, if reply.userId in s
                then ActivityWrite(acts, replies, reply,
                                   Stored(s[reply.userId]).(lastLogin := acts[|replies|].timestamp))
                else ActivityNext(acts, replies + [reply]))
  {
  }

  lemma StepActivityWrite(s: Store, acts: seq<Activity>, replies: seq<ActivityReply>, reply: ActivityReply,
                          user: User, now: Time)
    ensures Step(s, ActivityWrite(acts, replies, reply, user), now) ==
            (if user.id in s then s[user.id := Stored(user)] else s, ActivityNext(acts, replies + [reply]))
  {
  }

  lemma StepAddCount(s: Store, u: User, now: Time)
    requires ValidMessage(u) && (|s| != 0 || u.role == ADMIN)
    ensures Step(s, AddCount(u), now) == (s, AddInsert(u))
  {
  }

  lemma StepAddInsert(s: Store, u: User, now: Time)
    requires u.id !in s
    ensures Step(s, AddInsert(u), now) == (s[u.id := Stored(WithDefaults(u, now))], Done(Empty))
  {
  }

  lemma StepDeleteWrite(s: Store, id: Id, now: Time)
    requires id in s
    ensures Step(s, DeleteWrite(id), now) == (s - {id}, Done(Empty))
  {
  }

  lemma StepDone(s: Store, r: Response, now: Time)
    ensures Step(s, Done(r), now) == (s, Done(r))
  {
  }

  /** A handler running alone, one step per reading of the clock */
  function Solo(s: Store, l: Local, times: seq<Time>): (Store, Local) {
    if times == [] then (s, l)
    else
      var (s', l') := Solo(s, l, times[..|times| - 1]);
      Step(s', l', times[|times| - 1])
  }

  lemma SoloExtends(s: Store, l: Local, times: seq<Time>, now: Time)
    ensures Solo(s, l, times + [now]) ==
            Step(Solo(s, l, times).0, Solo(s, l, times).1, now)
  {
    assert (times + [now])[..|times|] == times;
  }

  /** call, running alone from s, has come to the store s' and the program counter l after times. */
  ghost predicate Reaches(s: Store, call: Call, times: seq<Time>, s': Store, l: Local) {
    Solo(s, Start(call), times) == (s', l)
  }

  lemma ReachesStart(s: Store, call: Call)
    ensures Reaches(s, call, [], s, Start(call))
  {
  }

  lemma ReachesNext(s: Store, call: Call, times: seq<Time>, s': Store, l: Local, now: Time)
    requires Reaches(s, call, times, s', l)
    ensures Reaches(s, call, times + [now], Step(s', l, now).0, Step(s', l, now).1)
  {
    hide Step;
    SoloExtends(s, Start(call), times, now);
  }

  lemma BatchReachesNext(s: Store, users: seq<User>, times: seq<Time>, s': Store, added: nat,
                         errors: seq<BatchError>, now: Time)
    requires Reaches(s, BatchAddUsers(users), times, s', BatchNext(users, |times|, added, errors))
    ensures var n := |times|;
            if n >= |users| then
              Reaches(s, BatchAddUsers(users), times + [now], s', Done(BatchSummary(n, added, errors)))
            else if users[n].id == 0 || users[n].username == "" then
              var refusal := if users[n].id == 0 then IdIsZero else UsernameEmpty;
              Reaches(s, BatchAddUsers(users), times + [now], s',
                      BatchNext(users, n + 1, added, errors + [BatchError(n + 1, refusal)]))
            else if users[n].id in s' then
              Reaches(s, BatchAddUsers(users), times + [now], s',
                      BatchNext(users, n + 1, added, errors + [BatchError(n + 1, AlreadyExists)]))
            else
              Reaches(s, BatchAddUsers(users), times + [now],
                      s'[users[n].id := Stored(WithDefaults(users[n], now))],
                      BatchNext(users, n + 1, added + 1, errors))
  {
    ReachesNext(s, BatchAddUsers(users), times, s', BatchNext(users, |times|, added, errors), now);
    hide Reaches;
    if |times| < |users| {
      StepBatch(s', users, |times|, added, errors, now);
      hide Step;
    }
  }

  /** Alone, the existence check of SyncUsers still holds at the write. */
  lemma SyncReachesNext(s: Store, users: seq<User>, times: seq<Time>, s': Store, answers: seq<SyncReply>, now: Time)
    requires Reaches(s, SyncUsers(users), times, s', SyncNext(users, answers))
    ensures var n := |answers|;
            if n >= |users| then
              Reaches(s, SyncUsers(users), times + [now], s', Done(SyncReplies(answers)))
            else if users[n].id == 0 then
              Reaches(s, SyncUsers(users), times + [now], s',
                      SyncNext(users, answers + [SyncReply(0, Rejected(IdIsZero))]))
            else if users[n].id in s' then
              Reaches(s, SyncUsers(users), times + [now] + [now], s'[users[n].id := Stored(users[n])],
                      SyncNext(users, answers + [SyncReply(users[n].id, Updated)]))
            else
              Reaches(s, SyncUsers(users), times + [now] + [now],
                      s'[users[n].id := Stored(WithDefaults(users[n], now))],
                      SyncNext(users, answers + [SyncReply(users[n].id, Created)]))
  {
    hide Reaches, Step;
    var n := |answers|;
    ReachesNext(s, SyncUsers(users), times, s', SyncNext(users, answers), now);
    StepSyncNext(s', users, answers, now);
    if n < |users| && users[n].id != 0 {
      var found := users[n].id in s';
      ReachesNext(s, SyncUsers(users), times + [now], s', SyncWrite(users, answers, found), now);
      StepSyncWrite(s', users, answers, found, now);
    }
  }

  lemma ActivityReachesNext(s: Store, acts: seq<Activity>, times: seq<Time>, s': Store,
                            replies: seq<ActivityReply>, now: Time)
    requires Reaches(s, UserActivityStream(acts), times, s', ActivityNext(acts, replies))
    ensures var n := |replies|;
            if n >= |acts| then
              Reaches(s, UserActivityStream(acts), times + [now], s', Done(ActivityReplies(replies)))
            else
              var id := acts[n].userId;
              var replies' := replies + [ActivityReply(id, id in s', now)];
              if id in s' && acts[n].kind == LOGIN then
                var user := Stored(s'[id]).(lastLogin := acts[n].timestamp);
                Reaches(s, UserActivityStream(acts), times + [now] + [now] + [now], After(s', Update(user), now),
                        ActivityNext(acts, replies'))
              else
                Reaches(s, UserActivityStream(acts), times + [now], s', ActivityNext(acts, replies'))
  {
    hide Reaches, Step;
    var n := |replies|;
    ReachesNext(s, UserActivityStream(acts), times, s', ActivityNext(acts, replies), now);
    StepActivityNext(s', acts, replies, now);
    if n < |acts| && acts[n].userId in s' && acts[n].kind == LOGIN {
      var reply := ActivityReply(acts[n].userId, true, now);
      var user := Stored(s'[acts[n].userId]).(lastLogin := acts[n].timestamp);
      ReachesNext(s, UserActivityStream(acts), times + [now], s', ActivityFetch(acts, replies, reply), now);
      StepActivityFetch(s', acts, replies, reply, now);
      ReachesNext(s, UserActivityStream(acts), times + [now] + [now], s',
                  ActivityWrite(acts, replies, reply, user), now);
      StepActivityWrite(s', acts, replies, reply, user, now);
    }
  }

  /** A unary call with nothing running beside it: it makes at most two storage calls. */
  function Serve(s: Store, call: Call, now: Time): (Store, Local) {
    var (s', l) := Step(s, Start(call), now);
    Step(s', l, now)
  }

  /** call, alone on s, leaves s' and answers with r. */
  ghost predicate Serves(s: Store, call: Call, now: Time, s': Store, r: Response) {
    Serve(s, call, now) == (s', Done(r))
  }

  lemma ServeAddUser(s: Store, u: User, now: Time)
    ensures |s| == 0 && u.role != ADMIN ==> Serves(s, AddUser(u), now, s, Fail(FirstUserNotAdmin))
    ensures !(|s| == 0 && u.role != ADMIN) && MessageError(u).Some? ==>
              Serves(s, AddUser(u), now, s, Fail(MessageError(u).value))
    ensures !(|s| == 0 && u.role != ADMIN) && MessageError(u).None? ==>
              Serves(s, AddUser(u), now, After(s, Add(u), now), EmptyOr(Answer(s, Add(u))))
  {
  }

  /** AddUser alone, in full: the refusals in their order, and what is stored otherwise */
  lemma AddUserInFull(s: Store, u: User, now: Time)
    ensures var kept := u.(createDate := if u.createDate.None? then Some(now) else u.createDate,
                           status := if u.status == 0 then 1 else u.status, email := "", phone := "");
            if |s| == 0 && u.role != 2 then Serves(s, AddUser(u), now, s, Fail(FirstUserNotAdmin))
            else if u.id == 0 then Serves(s, AddUser(u), now, s, Fail(IdIsZero))
            else if u.username == "" then Serves(s, AddUser(u), now, s, Fail(UsernameEmpty))
            else if u.id in s then Serves(s, AddUser(u), now, s, Fail(AlreadyExists))
            else Serves(s, AddUser(u), now, s[u.id := kept], Empty)
  {
    ServeAddUser(s, u, now);
    hide Serves;
  }

  lemma ServeGetUser(s: Store, id: Id, now: Time)
    ensures id == 0 ==> Serves(s, GetUser(id), now, s, Fail(IdIsZero))
    ensures id != 0 && id !in s ==> Serves(s, GetUser(id), now, s, Fail(NotFound))
    ensures id != 0 && id in s ==> Serves(s, GetUser(id), now, s, OneUser(Stored(s[id])))
  {
    assert Step(s, GetFetch(id), now) == (s, Done(if id in s then OneUser(Stored(s[id])) else Fail(NotFound)));
    hide Step;
    StepDone(s, Fail(IdIsZero), now);
    StepDone(s, Fail(NotFound), now);
    if id in s {
      StepDone(s, OneUser(Stored(s[id])), now);
    }
  }

  lemma ServeUpdateNothing(s: Store, mask: seq<string>, now: Time)
    ensures Serves(s, UpdateUser(None, mask), now, s, Fail(UserMissing))
  {
  }

  lemma StepUpdateFetch(s: Store, req: User, mask: seq<string>, now: Time)
    ensures Step(s, UpdateFetch(req, mask), now) ==
            (s, if req.id !in s then Done(Fail(NotFound))
                else
                  match Edited(Stored(s[req.id]), req, mask)
                  case Failure(e) => Done(Fail(e))
                  case Success(edited) => UpdateWrite(edited))
  {
    hide Edited;
  }

  lemma StepUpdateWrite(s: Store, edited: User, now: Time)
    ensures Step(s, UpdateWrite(edited), now) ==
            (After(s, Update(edited), now), Done(if edited.id in s then OneUser(edited) else Fail(NotFound)))
  {
  }

  /** After the fetch, a mask that applies leads to a write of the edited copy. */
  lemma ServeUpdateUser(s: Store, req: User, mask: seq<string>, now: Time)
    ensures req.id == 0 ==> Serves(s, UpdateUser(Some(req), mask), now, s, Fail(IdIsZero))
    ensures req.id != 0 && req.id !in s ==>
              Serves(s, UpdateUser(Some(req), mask), now, s, Fail(NotFound))
    ensures req.id != 0 && req.id in s ==>
              match Edited(Stored(s[req.id]), req, mask)
              case Failure(e) => Serves(s, UpdateUser(Some(req), mask), now, s, Fail(e))
              case Success(edited) =>
                Serves(s, UpdateUser(Some(req), mask), now, After(s, Update(edited), now),
                       if edited.id in s then OneUser(edited) else Fail(NotFound))
  {
    hide Edited, Step;
    if req.id == 0 {
      StepDone(s, Fail(IdIsZero), now);
    } else {
      StepUpdateFetch(s, req, mask, now);
      if req.id in s {
        match Edited(Stored(s[req.id]), req, mask) {
          case Failure(e) => StepDone(s, Fail(e), now);
          case Success(edited) => StepUpdateWrite(s, edited, now);
        }
      } else {
        StepDone(s, Fail(NotFound), now);
      }
    }
  }

  lemma ServeDeleteUser(s: Store, id: Id, now: Time)
    ensures id != 0 && id !in s ==> Serves(s, DeleteUser(id), now, s, Fail(NotFound))
    ensures id != 0 && id in s ==> Serves(s, DeleteUser(id), now, s - {id}, Empty)
    ensures id == 0 ==> Serves(s, DeleteUser(id), now, s, Fail(IdIsZero))
    ensures id != 0 ==>
              Serves(s, DeleteUser(id), now, After(s, Delete(id), now), EmptyOr(Answer(s, Delete(id))))
  {
    assert id in s ==> After(s, Delete(id), now) == s - {id} && EmptyOr(Answer(s, Delete(id))) == Empty;
    assert id !in s ==> After(s, Delete(id), now) == s && EmptyOr(Answer(s, Delete(id))) == Fail(NotFound);
    hide Step, After, Answer, EmptyOr;
    if id == 0 {
      StepDone(s, Fail(IdIsZero), now);
    } else {
      StepDone(After(s, Delete(id), now), EmptyOr(Answer(s, Delete(id))), now);
    }
  }

  lemma StepRoleFetch(s: Store, role: Int32, now: Time)
    ensures Step(s, RoleFetch(role), now) == (s, Done(UsersOr(Listed(UsersInRole(s, role)))))
  {
    hide UsersOr, UsersInRole;
  }

  lemma StepListFetch(s: Store, list: ListRequest, now: Time)
    ensures Step(s, ListFetch(list), now)
         == (s, Done(UsersOr(Listed(UsersPassing(s, FilterOf(list, now), Readings(now, now))))))
  {
    hide UsersOr, UsersPassing, FilterOf;
  }

  /** The listing of a role alone: the users who are stored with that role, or NotFound when there are none */
  lemma ServeListUsersByRole(s: Store, role: Int32, now: Time)
    requires WellKept(s)
    ensures var users := set id | id in s && s[id].role == role :: s[id];
            Serves(s, ListUsersByRole(role), now, s, if users == {} then Fail(NotFound) else Users(users))
  {
    assert UsersInRole(s, role) == set id | id in s && s[id].role == role :: s[id];
    hide Step, UsersInRole;
    StepRoleFetch(s, role, now);
    StepDone(s, UsersOr(Listed(UsersInRole(s, role))), now);
  }

  /** ListUsers alone: only users within the bounds of the request, all that are clear of them, and NotFound when
      nobody passes, whatever the page size and token */
  lemma ServeListUsers(s: Store, list: ListRequest, now: Time)
    requires WellKept(s)
    ensures var users := UsersPassing(s, FilterOf(list, now), Readings(now, now));
            && Serves(s, ListUsers(list), now, s, if users == {} then Fail(NotFound) else Users(users))
            && (forall u | u in users :: u.id in s && s[u.id] == u && UserWithinBounds(u, list, now))
            && forall id | id in s && ClearOfBounds(s[id], list, now, Readings(now, now)) :: s[id] in users
  {
    var users := UsersPassing(s, FilterOf(list, now), Readings(now, now));
    forall id | id in s
      ensures Passes(s[id], FilterOf(list, now), Readings(now, now)) ==> UserWithinBounds(s[id], list, now)
      ensures ClearOfBounds(s[id], list, now, Readings(now, now)) ==>
                Passes(s[id], FilterOf(list, now), Readings(now, now))
    {
      if Passes(s[id], FilterOf(list, now), Readings(now, now)) {
        ListedWithinBounds(s[id], list, now, Readings(now, now));
      }
      if ClearOfBounds(s[id], list, now, Readings(now, now)) {
        ClearOfBoundsIsListed(s[id], list, now, Readings(now, now));
      }
    }
    hide Step, Passes, UserWithinBounds, ClearOfBounds, FilterOf;
    assert users == set id | id in s && Passes(s[id], FilterOf(list, now), Readings(now, now)) :: s[id];
    StepListFetch(s, list, now);
    StepDone(s, UsersOr(Listed(users)), now);
  }
}
