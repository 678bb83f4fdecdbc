/** What the three stream handlers do and answer over the Postgres table, over whole streams, when nothing runs beside
    them and no statement fails. */
module TableStreams {
  import opened Values
  import opened StoreSpec
  import opened Handlers
  import opened PostgresTable
  import opened TableSerializability
  import opened TableCalls
  import Streams
  import TableHonesty

  /** call, alone on t, has come to table t' and thread th after n statements. */
  ghost predicate Comes(t: Table, call: Call, now: Time, n: nat, t': Table, th: Thread) {
    Alone(t, Thread(Start(call), None), Calm(n, now)) == (t', th)
  }

  lemma ComesNext(t: Table, call: Call, now: Time, n: nat, t': Table, th: Thread)
    requires Comes(t, call, now, n, t', th)
    ensures Comes(t, call, now, n + 1, Issue(t', th, now, false).0, Issue(t', th, now, false).1)
  {
    hide Alone, Issue, Calm;
    CalmNext(t, Thread(Start(call), None), n, now);
  }

  lemma ComesFirst(t: Table, call: Call, now: Time)
    ensures Comes(t, call, now, 0, t, Thread(Start(call), None))
  {
    hide Alone, Calm;
    CalmStart(t, Thread(Start(call), None), now);
  }

  // ---------- Messages that are written ----------

  /** The message is written: it has an id, in a batch also a username, and no other row has its username. */
  ghost predicate Accepts(t: Table, u: User, batch: bool) {
    u.id != 0 && (batch ==> u.username != "") && !Taken(t, u.id, u.username)
  }

  /** The table after the first n messages */
  ghost function Received(t: Table, users: seq<User>, n: nat, batch: bool): Table
    requires n <= |users|
  {
    if n == 0 then t
    else
      var (before, u) := (Received(t, users, n - 1, batch), users[n - 1]);
      if !Accepts(before, u, batch) then before
      else if u.id in before then before[u.id := RowFor(u).(createDate := before[u.id].createDate)]
      else before[u.id := RowFor(u)]
  }

  ghost predicate Accepted(t: Table, users: seq<User>, k: nat, batch: bool)
    requires k < |users|
  {
    Accepts(Received(t, users, k, batch), users[k], batch)
  }

  /** Of the first n messages, the last for this user that is written */
  ghost function LastWritten(t: Table, users: seq<User>, n: nat, batch: bool, id: Id): (r: Option<nat>)
    requires n <= |users|
    ensures r.Some? ==> r.value < n
  {
    if n == 0 then None
    else if users[n - 1].id == id && Accepted(t, users, n - 1, batch) then Some(n - 1)
    else LastWritten(t, users, n - 1, batch, id)
  }

  /** The first */
  ghost function FirstWritten(t: Table, users: seq<User>, n: nat, batch: bool, id: Id): (r: Option<nat>)
    requires n <= |users|
    ensures r.Some? ==> r.value < n
  {
    if n == 0 then None
    else
      match FirstWritten(t, users, n - 1, batch, id)
      case Some(k) => Some(k)
      case None => if users[n - 1].id == id && Accepted(t, users, n - 1, batch) then Some(n - 1) else None
  }

  lemma {:induction false} WrittenAreLastAndFirst(t: Table, users: seq<User>, n: nat, batch: bool, id: Id)
    requires n <= |users|
    ensures match LastWritten(t, users, n, batch, id)
            case None => forall m | 0 <= m < n && users[m].id == id :: !Accepted(t, users, m, batch)
            case Some(k) => users[k].id == id && Accepted(t, users, k, batch)
                            && forall m | k < m < n && users[m].id == id :: !Accepted(t, users, m, batch)
    ensures match FirstWritten(t, users, n, batch, id)
            case None => forall m | 0 <= m < n && users[m].id == id :: !Accepted(t, users, m, batch)
            case Some(k) => users[k].id == id && Accepted(t, users, k, batch)
                            && forall m | 0 <= m < k && users[m].id == id :: !Accepted(t, users, m, batch)
  {
    hide Accepted;
    if n > 0 {
      WrittenAreLastAndFirst(t, users, n - 1, batch, id);
    }
  }

  lemma OneReceived(t: Table, users: seq<User>, n: nat, batch: bool, id: Id)
    requires 0 < n <= |users|
    ensures var (before, end, u) := (Received(t, users, n - 1, batch), Received(t, users, n, batch), users[n - 1]);
            if u.id == id && Accepted(t, users, n - 1, batch) then
              && id in end && (id in before ==> end[id] == RowFor(u).(createDate := before[id].createDate))
              && (id !in before ==> end[id] == RowFor(u))
            else SameRow(end, before, id)
  {
    hide Accepts, RowFor;
  }

  /** The row of a user after n messages: as before if none of the user's messages is written, and otherwise that of the
      last one, with the create date that was there, or that of the first one if the user was not there. */
  lemma {:induction false} ReceivedMeans(t: Table, users: seq<User>, n: nat, batch: bool, id: Id)
    requires n <= |users|
    ensures var end := Received(t, users, n, batch);
            match (FirstWritten(t, users, n, batch, id), LastWritten(t, users, n, batch, id))
            case (None, None) => SameRow(end, t, id)
            case (Some(first), Some(last)) =>
              && id in end
              && end[id] == RowFor(users[last]).(createDate :=
                   if id in t then t[id].createDate
                   else if users[first].createDate.Some? then users[first].createDate.value else 0)
            case _ => false
  {
    hide Accepted;
    if n > 0 {
      ReceivedMeans(t, users, n - 1, batch, id);
      OneReceived(t, users, n, batch, id);
      hide Received, RowFor;
    }
  }

  // ---------- BatchAddUsers ----------

  /** The errors of the first n messages: one for each message that is not written, at its position from 1 */
  ghost function Refusals(t: Table, users: seq<User>, n: nat): seq<BatchError>
    requires n <= |users|
  {
    if n == 0 then []
    else if Accepted(t, users, n - 1, true) then Refusals(t, users, n - 1)
    else Refusals(t, users, n - 1) + [BatchError(n, RefusalOf(users[n - 1]))]
  }

  function RefusalOf(u: User): Error {
    if u.id == 0 then IdIsZero else if u.username == "" then UsernameEmpty else Internal
  }

  lemma {:induction false} RefusalPositions(t: Table, users: seq<User>, n: nat)
    requires n <= |users|
    ensures |Refusals(t, users, n)| <= n
    ensures forall e | e in Refusals(t, users, n) :: 1 <= e.position <= n && e.error == RefusalOf(users[e.position - 1])
    ensures forall i, j | 0 <= i < j < |Refusals(t, users, n)| ::
              Refusals(t, users, n)[i].position < Refusals(t, users, n)[j].position
    ensures forall k | 0 <= k < n ::
              (exists e :: e in Refusals(t, users, n) && e.position == k + 1) <==> !Accepted(t, users, k, true)
  {
    hide Accepted, RefusalOf;
    if n > 0 {
      RefusalPositions(t, users, n - 1);
      var before, errors := Refusals(t, users, n - 1), Refusals(t, users, n);
      if !Accepted(t, users, n - 1, true) {
        assert errors[|before|] in errors;
        forall e | e in before ensures e in errors {
        }
      }
    }
  }

  lemma IssueBatch(t: Table, users: seq<User>, n: nat, added: nat, errors: seq<BatchError>, now: Time)
    ensures var th := Thread(BatchNext(users, n, added, errors), None);
            Issue(t, th, now, false) ==
            if n >= |users| then (t, Thread(Done(BatchSummary(n, added, errors)), None))
            else if !Accepts(t, users[n], true) then
              (t, Thread(BatchNext(users, n + 1, added, errors + [BatchError(n + 1, RefusalOf(users[n]))]), None))
            else
              (t[users[n].id := TableHonesty.Upserted(t, users[n])],
               Thread(BatchNext(users, n + 1, added + 1, errors), None))
  {
    if n < |users| {
      TakenIsNotFree(t, users[n].id, users[n].username);
    }
    hide NameFree, RowFor, Taken;
  }

  lemma {:induction false} BatchComes(t: Table, users: seq<User>, n: nat, now: Time)
    requires n <= |users|
    ensures |Refusals(t, users, n)| <= n
    ensures Comes(t, BatchAddUsers(users), now, n, Received(t, users, n, true),
                  Thread(BatchNext(users, n, n - |Refusals(t, users, n)|, Refusals(t, users, n)), None))
  {
    hide Comes, Issue, Accepts, RefusalOf, RowFor;
    if n == 0 {
      ComesFirst(t, BatchAddUsers(users), now);
    } else {
      BatchComes(t, users, n - 1, now);
      var before, errors := Received(t, users, n - 1, true), Refusals(t, users, n - 1);
      ComesNext(t, BatchAddUsers(users), now, n - 1, before,
                Thread(BatchNext(users, n - 1, n - 1 - |errors|, errors), None));
      IssueBatch(before, users, n - 1, n - 1 - |errors|, errors, now);
    }
  }

  /** A whole batch: every message counts once, as written or as an error at its position; a user who is there is no
      reason to refuse. */
  lemma BatchAnswers(t: Table, users: seq<User>, now: Time)
    ensures var errors := Refusals(t, users, |users|);
            && |errors| <= |users|
            && Comes(t, BatchAddUsers(users), now, |users| + 1, Received(t, users, |users|, true),
                     Thread(Done(BatchSummary(|users|, |users| - |errors|, errors)), None))
  {
    hide Comes, Issue, Refusals, Received, Accepts, RefusalOf;
    BatchComes(t, users, |users|, now);
    var end, errors := Received(t, users, |users|, true), Refusals(t, users, |users|);
    ComesNext(t, BatchAddUsers(users), now, |users|, end,
              Thread(BatchNext(users, |users|, |users| - |errors|, errors), None));
    IssueBatchEnd(end, users, |users| - |errors|, errors, now);
  }

  lemma IssueBatchEnd(t: Table, users: seq<User>, added: nat, errors: seq<BatchError>, now: Time)
    ensures Issue(t, Thread(BatchNext(users, |users|, added, errors), None), now, false)
         == (t, Thread(Done(BatchSummary(|users|, added, errors)), None))
  {
  }

  // ---------- SyncUsers ----------

  ghost function OutcomeOf(t: Table, users: seq<User>, k: nat): Outcome
    requires k < |users|
  {
    var before := Received(t, users, k, false);
    if users[k].id == 0 then Rejected(IdIsZero)
    else if !Accepted(t, users, k, false) then Rejected(Internal)
    else if users[k].id in before then Updated else Created
  }

  ghost function Answers(t: Table, users: seq<User>, n: nat): (answers: seq<SyncReply>)
    requires n <= |users|
    ensures |answers| == n
  {
    seq(n, k requires 0 <= k < n => SyncReply(users[k].id, OutcomeOf(t, users, k)))
  }

  /** The statements of the first n messages: none for a message with id 0, but one turn; a check and the insert for a
      user who is not there, one check more for one who is */
  ghost function Statements(t: Table, users: seq<User>, n: nat): nat
    requires n <= |users|
  {
    if n == 0 then 0
    else
      Statements(t, users, n - 1)
      + if users[n - 1].id == 0 then 1 else if users[n - 1].id in Received(t, users, n - 1, false) then 3 else 2
  }

  lemma OneAnswerMore(t: Table, users: seq<User>, n: nat)
    requires n < |users|
    ensures Answers(t, users, n + 1) == Answers(t, users, n) + [SyncReply(users[n].id, OutcomeOf(t, users, n))]
  {
    hide OutcomeOf;
  }

  /** One message: from its check to its answer */
  lemma SyncMessage(t: Table, users: seq<User>, answers: seq<SyncReply>, now: Time, t0: Table, n: nat)
    requires |answers| < |users| && Comes(t0, SyncUsers(users), now, n, t, Thread(SyncNext(users, answers), None))
    ensures var u := users[|answers|];
            var steps := if u.id == 0 then 1 else if u.id in t then 3 else 2;
            var outcome := if u.id == 0 then Rejected(IdIsZero) else if !Accepts(t, u, false) then Rejected(Internal)
                           else if u.id in t then Updated else Created;
            Comes(t0, SyncUsers(users), now, n + steps,
                  if Accepts(t, u, false) then t[u.id := TableHonesty.Upserted(t, u)] else t,
                  Thread(SyncNext(users, answers + [SyncReply(u.id, outcome)]), None))
  {
    hide Comes, Issue, NameFree, Taken, TableHonesty.Upserted;
    var call, u := SyncUsers(users), users[|answers|];
    ComesNext(t0, call, now, n, t, Thread(SyncNext(users, answers), None));
    TableHonesty.IssueSyncNext(t, users, answers, now, false);
    TakenIsNotFree(t, u.id, u.username);
    if u.id != 0 {
      var found := u.id in t;
      ComesNext(t0, call, now, n + 1, t, Thread(SyncWrite(users, answers, found), None));
      if found {
        TableHonesty.IssueSyncCheck(t, users, answers, now, false);
        ComesNext(t0, call, now, n + 2, t, Thread(SyncWrite(users, answers, true), Some(u)));
        TableHonesty.IssueSyncUpdate(t, users, answers, now, false);
      } else {
        TableHonesty.IssueSyncAdd(t, users, answers, now, false);
      }
    }
  }

  lemma {:induction false} SyncComes(t: Table, users: seq<User>, n: nat, now: Time)
    requires n <= |users|
    ensures Comes(t, SyncUsers(users), now, Statements(t, users, n), Received(t, users, n, false),
                  Thread(SyncNext(users, Answers(t, users, n)), None))
  {
    hide Comes, Issue, Accepts, RowFor, Answers;
    if n == 0 {
      ComesFirst(t, SyncUsers(users), now);
    } else {
      SyncComes(t, users, n - 1, now);
      SyncMessage(Received(t, users, n - 1, false), users, Answers(t, users, n - 1), now, t,
                  Statements(t, users, n - 1));
      OneAnswerMore(t, users, n - 1);
    }
  }

  /** A whole sync: one answer for each message in order; failed for id 0 and for a username that another user has,
      updated for a user who is there, created for one who is not. */
  lemma SyncAnswers(t: Table, users: seq<User>, now: Time)
    ensures Comes(t, SyncUsers(users), now, Statements(t, users, |users|) + 1, Received(t, users, |users|, false),
                  Thread(Done(SyncReplies(Answers(t, users, |users|))), None))
  {
    SyncComes(t, users, |users|, now);
    hide Comes, Issue, Statements, Received, Answers;
    var end, answers := Received(t, users, |users|, false), Answers(t, users, |users|);
    ComesNext(t, SyncUsers(users), now, Statements(t, users, |users|), end, Thread(SyncNext(users, answers), None));
    TableHonesty.IssueSyncNext(end, users, answers, now, false);
  }

  // ---------- UserActivityStream ----------

  /** The row with the last login of the user's last LOGIN (0) among the first n activities */
  function LoggedIn(r: Row, id: Id, acts: seq<Activity>, n: nat): Row
    requires n <= |acts|
  {
    match Streams.LastLogin(acts, n, id)
    case None => r
    case Some(k) => if k < |acts| then r.(lastLogin := acts[k].timestamp) else r
  }

  /** The table after the first n activities */
  function Logged(t: Table, acts: seq<Activity>, n: nat): Table
    requires n <= |acts|
  {
    map id | id in t :: LoggedIn(t[id], id, acts, n)
  }

  function Replies(t: Table, acts: seq<Activity>, n: nat, now: Time): (replies: seq<ActivityReply>)
    requires n <= |acts|
    ensures |replies| == n
  {
    seq(n, k requires 0 <= k < n => ActivityReply(acts[k].userId, acts[k].userId in t, now))
  }

  /** One check for an activity, and three statements more for a LOGIN of a user who is there */
  function Checks(t: Table, acts: seq<Activity>, n: nat): nat
    requires n <= |acts|
  {
    if n == 0 then 0
    else Checks(t, acts, n - 1) + if acts[n - 1].userId in t && acts[n - 1].kind == 0 then 4 else 1
  }

  lemma IssueActivityNext(t: Table, acts: seq<Activity>, replies: seq<ActivityReply>, now: Time)
    ensures Issue(t, Thread(ActivityNext(acts, replies), None), now, false) ==
            (t, Thread(if |replies| >= |acts| then Done(ActivityReplies(replies))
                       else
                         var a := acts[|replies|];
                         var reply := ActivityReply(a.userId, a.userId in t, now);
                         if a.userId in t && a.kind == 0 then ActivityFetch(acts, replies, reply)
                         else ActivityNext(acts, replies + [reply]), None))
  {
  }

  /** The three statements of a LOGIN: fetch, check and update of a row whose username no other has */
  lemma IssueLogin(t: Table, acts: seq<Activity>, replies: seq<ActivityReply>, reply: ActivityReply, now: Time)
    requires NamesUnique(t) && |replies| < |acts| && reply.userId in t
    ensures var id, r := reply.userId, t[reply.userId];
            var u := UserOf(id, r).(lastLogin := acts[|replies|].timestamp);
            var write := ActivityWrite(acts, replies, reply, u);
            && Issue(t, Thread(ActivityFetch(acts, replies, reply), None), now, false) == (t, Thread(write, None))
            && Issue(t, Thread(write, None), now, false) == (t, Thread(write, Some(u)))
            && Issue(t, Thread(write, Some(u)), now, false)
               == (t[id := r.(lastLogin := acts[|replies|].timestamp)],
                   Thread(ActivityNext(acts, replies + [reply]), None))
  {
    var id, r := reply.userId, t[reply.userId];
    var u := UserOf(id, r).(lastLogin := acts[|replies|].timestamp);
    assert NameFree(t, id, r.username);
    assert RowFor(u).(createDate := r.createDate) == r.(lastLogin := acts[|replies|].timestamp);
    hide NameFree, RowFor, Upsert, Matches, InRole;
  }

  lemma LoggedStaysUnique(t: Table, acts: seq<Activity>, n: nat)
    requires NamesUnique(t) && n <= |acts|
    ensures NamesUnique(Logged(t, acts, n)) && Logged(t, acts, n).Keys == t.Keys
  {
    hide LoggedIn;
    forall id | id in t ensures LoggedIn(t[id], id, acts, n).username == t[id].username {
      LoginKeepsName(t[id], id, acts, n);
    }
  }

  lemma LoginKeepsName(r: Row, id: Id, acts: seq<Activity>, n: nat)
    requires n <= |acts|
    ensures LoggedIn(r, id, acts, n).username == r.username
  {
  }

  lemma OneActivityMore(t: Table, acts: seq<Activity>, n: nat)
    requires n < |acts|
    ensures var (before, a) := (Logged(t, acts, n), acts[n]);
            Logged(t, acts, n + 1) == if a.userId in t && a.kind == 0
                                      then before[a.userId := before[a.userId].(lastLogin := a.timestamp)] else before
  {
    var (before, a) := (Logged(t, acts, n), acts[n]);
    forall id | id in t
      ensures LoggedIn(t[id], id, acts, n + 1) == if a.userId == id && a.kind == 0
                                                  then LoggedIn(t[id], id, acts, n).(lastLogin := a.timestamp)
                                                  else LoggedIn(t[id], id, acts, n)
    {
      Streams.LastLoginIsLast(acts, n, id);
    }
    hide LoggedIn;
  }

  lemma OneReplyMore(t: Table, acts: seq<Activity>, n: nat, now: Time)
    requires n < |acts|
    ensures Replies(t, acts, n + 1, now)
         == Replies(t, acts, n, now) + [ActivityReply(acts[n].userId, acts[n].userId in t, now)]
  {
  }

  /** One activity, from its check to its reply */
  lemma ActivityMessage(t0: Table, acts: seq<Activity>, now: Time, n: nat, t: Table, replies: seq<ActivityReply>)
    requires NamesUnique(t) && |replies| < |acts|
    requires Comes(t0, UserActivityStream(acts), now, n, t, Thread(ActivityNext(acts, replies), None))
    ensures var a := acts[|replies|];
            var login := a.userId in t && a.kind == 0;
            Comes(t0, UserActivityStream(acts), now, n + if login then 4 else 1,
                  if login then t[a.userId := t[a.userId].(lastLogin := a.timestamp)] else t,
                  Thread(ActivityNext(acts, replies + [ActivityReply(a.userId, a.userId in t, now)]), None))
  {
    hide Comes, Issue, UserOf, NamesUnique;
    var call, a := UserActivityStream(acts), acts[|replies|];
    var reply := ActivityReply(a.userId, a.userId in t, now);
    ComesNext(t0, call, now, n, t, Thread(ActivityNext(acts, replies), None));
    IssueActivityNext(t, acts, replies, now);
    if a.userId in t && a.kind == 0 {
      IssueLogin(t, acts, replies, reply, now);
      var u := UserOf(a.userId, t[a.userId]).(lastLogin := a.timestamp);
      ComesNext(t0, call, now, n + 1, t, Thread(ActivityFetch(acts, replies, reply), None));
      ComesNext(t0, call, now, n + 2, t, Thread(ActivityWrite(acts, replies, reply, u), None));
      ComesNext(t0, call, now, n + 3, t, Thread(ActivityWrite(acts, replies, reply, u), Some(u)));
    }
  }

  lemma NothingLogged(t: Table, acts: seq<Activity>)
    ensures Logged(t, acts, 0) == t
  {
  }

  lemma {:induction false} ActivityComes(t: Table, acts: seq<Activity>, n: nat, now: Time)
    requires NamesUnique(t) && n <= |acts|
    ensures Comes(t, UserActivityStream(acts), now, Checks(t, acts, n), Logged(t, acts, n),
                  Thread(ActivityNext(acts, Replies(t, acts, n, now)), None))
  {
    hide Comes, Logged, Replies, NamesUnique;
    if n == 0 {
      ComesFirst(t, UserActivityStream(acts), now);
      NothingLogged(t, acts);
    } else {
      ActivityComes(t, acts, n - 1, now);
      LoggedStaysUnique(t, acts, n - 1);
      ActivityMessage(t, acts, now, Checks(t, acts, n - 1), Logged(t, acts, n - 1), Replies(t, acts, n - 1, now));
      OneActivityMore(t, acts, n - 1);
      OneReplyMore(t, acts, n - 1, now);
      assert acts[n - 1].userId in t.Keys <==> acts[n - 1].userId in Logged(t, acts, n - 1).Keys;
    }
  }

  /** A whole activity stream, over a table with unique usernames: one reply for each activity, acknowledged exactly
      when the user is there; only last logins change, to the timestamp of the user's last LOGIN. */
  lemma ActivityAnswers(t: Table, acts: seq<Activity>, now: Time)
    requires NamesUnique(t)
    ensures Comes(t, UserActivityStream(acts), now, Checks(t, acts, |acts|) + 1, Logged(t, acts, |acts|),
                  Thread(Done(ActivityReplies(Replies(t, acts, |acts|, now))), None))
  {
    hide Comes, Issue, Logged, Replies, NamesUnique, Checks;
    ActivityComes(t, acts, |acts|, now);
    var end, replies := Logged(t, acts, |acts|), Replies(t, acts, |acts|, now);
    ComesNext(t, UserActivityStream(acts), now, Checks(t, acts, |acts|), end,
              Thread(ActivityNext(acts, replies), None));
    IssueActivityNext(end, acts, replies, now);
  }
}
