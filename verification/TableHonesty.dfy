/** What the answers of SyncUsers and UpdateUser say over the Postgres table, against a log of the rows written:
    what is always true of them, and exactly when every update that they report has been written. */
module TableHonesty {
  import opened Values
  import opened FieldMask
  import opened StoreSpec
  import opened Handlers
  import opened PostgresTable
  import Interleaving
  import SyncHonesty

  // ---------- The log ----------

  /** What a statement does to the rows */
  datatype RowWrite =
    | RowInserted(id: Id, row: Row)
    | RowOverwritten(id: Id, row: Row)
    | RowUpdated(id: Id, row: Row)
    | RowRemoved(id: Id)

  type Entry = SyncHonesty.Entry<RowWrite>

  function RowWritten(t: Table, th: Thread, now: Time, fault: bool): Option<RowWrite> {
    if fault then None
    else if th.update.Some? then
      var u := th.update.value;
      if u.id in t && NameFree(t, u.id, u.username)
      then Some(RowUpdated(u.id, RowFor(u).(createDate := t[u.id].createDate)))
      else None
    else
      match Ask(th.l, now)
      case Add(u) =>
        if !NameFree(t, u.id, u.username) then None
        else if u.id in t then Some(RowOverwritten(u.id, RowFor(u).(createDate := t[u.id].createDate)))
        else Some(RowInserted(u.id, RowFor(u)))
      case Delete(id) => if id in t then Some(RowRemoved(id)) else None
      case _ => None
  }

  function Put(t: Table, w: RowWrite): Table {
    match w
    case RowInserted(id, row) => t[id := row]
    case RowOverwritten(id, row) => t[id := row]
    case RowUpdated(id, row) => t[id := row]
    case RowRemoved(id) => t - {id}
  }

  /** An insert finds its id absent, every other write finds it present. */
  predicate Legal(t: Table, w: RowWrite) {
    w.RowInserted? <==> w.id !in t
  }

  function EntryBy(who: nat, t: Table, th: Thread, now: Time, fault: bool): seq<Entry> {
    match RowWritten(t, th, now, fault)
    case None => []
    case Some(w) => [SyncHonesty.Entry(who, SyncHonesty.Item(th.l), now, w)]
  }

  function EntryOf(st: State, tick: Tick): seq<Entry> {
    if tick.who >= |st.threads| then []
    else EntryBy(tick.who, st.table, st.threads[tick.who], tick.now, tick.fault)
  }

  /** All writes of a run, in order */
  function Log(st: State, ticks: seq<Tick>): seq<Entry> {
    if ticks == [] then []
    else
      var before := ticks[..|ticks| - 1];
      Log(st, before) + EntryOf(Exec(st, before), ticks[|ticks| - 1])
  }

  function Replay(t: Table, log: seq<Entry>): Table {
    if log == [] then t else Put(Replay(t, log[..|log| - 1]), log[|log| - 1].write)
  }

  lemma WrittenIsTheStep(t: Table, th: Thread, now: Time, fault: bool)
    ensures Issue(t, th, now, fault).0
         == match RowWritten(t, th, now, fault) case None => t case Some(w) => Put(t, w)
    ensures RowWritten(t, th, now, fault).Some? ==> Legal(t, RowWritten(t, th, now, fault).value)
  {
    hide Resume, Ask, NameFree, RowFor, Query;
  }

  /** Replaying the log gives the table. */
  lemma {:induction false} LogIsComplete(st: State, ticks: seq<Tick>)
    ensures Replay(st.table, Log(st, ticks)) == Exec(st, ticks).table
    decreases |ticks|
  {
    if ticks != [] {
      var before, tick := ticks[..|ticks| - 1], ticks[|ticks| - 1];
      LogIsComplete(st, before);
      hide Issue, RowWritten, Put;
      var now := Exec(st, before);
      if tick.who < |now.threads| {
        WrittenIsTheStep(now.table, now.threads[tick.who], tick.now, tick.fault);
      }
      var log, e := Log(st, before), EntryOf(now, tick);
      if e == [] {
        assert log + e == log;
      } else {
        assert (log + e)[..|log|] == log;
      }
    }
  }

  // ---------- Threads and their calls ----------

  /** A thread is at a program counter of its call, and a pending UPDATE is for the user it asks to update. */
  predicate Doing(call: Call, th: Thread) {
    && Interleaving.Of(call, th.l)
    && (th.update.Some? ==> Ask(th.l, 0) == Update(th.update.value))
    && (call.UpdateUser? && th.l.UpdateWrite? ==>
          call.req.Some? && th.l.edited.id == call.req.value.id && call.req.value.id != 0 && Known(call.mask))
  }

  ghost predicate AllDoing(calls: seq<Call>, st: State) {
    |st.threads| == |calls| && forall i | 0 <= i < |calls| :: Doing(calls[i], st.threads[i])
  }

  lemma ResumeOf(call: Call, l: Local, reply: Reply, now: Time)
    requires Interleaving.Of(call, l)
    ensures Interleaving.Of(call, Resume(l, reply, now))
  {
    hide Edited;
  }

  lemma AfterFetchKeepsId(req: User, mask: seq<string>, reply: Reply)
    requires reply.Found? ==> reply.user.id == req.id
    ensures AfterFetch(req, mask, reply).UpdateWrite? ==>
              Known(mask) && AfterFetch(req, mask, reply).edited.id == req.id
  {
    hide Edited, Known, Named, Merged, PathError;
    if reply.Found? {
      MaskMeaning(reply.user, req, mask);
    }
  }

  /** A statement's reply leads on as the handler says, or the existence check makes the UPDATE pending. */
  lemma IssueGoesOn(t: Table, th: Thread, now: Time, fault: bool)
    ensures var th' := Issue(t, th, now, fault).1;
            if th'.update.Some? then
              && th'.l == th.l && Ask(th.l, now) == Update(th'.update.value)
              && th.update.None? && th'.update.value.id in t && !fault
            else exists reply :: th'.l == Resume(th.l, reply, now) && (reply.Found? && Ask(th.l, now).Get? ==>
                                                                      reply.user.id == Ask(th.l, now).id)
  {
    hide Resume, Ask, NameFree, Upsert, UpdateRow, Matches, InRole;
    var th' := Issue(t, th, now, fault).1;
    if th'.update.None? {
      var reply := ReplyTo(t, th, now, fault);
      assert th'.l == Resume(th.l, reply, now);
    }
  }

  function ReplyTo(t: Table, th: Thread, now: Time, fault: bool): Reply {
    if fault then Failed(Internal)
    else if th.update.Some? then if UpdateRow(t, th.update.value).None? then Failed(Internal) else Ok
    else
      match Ask(th.l, now)
      case Update(u) => Failed(NotFound)
      case Add(u) => if Upsert(t, u).None? then Failed(Internal) else Ok
      case Delete(id) => if id in t then Ok else Failed(NotFound)
      case req => Query(t, req)
  }

  lemma DoingNext(call: Call, t: Table, th: Thread, now: Time, fault: bool)
    requires Doing(call, th)
    ensures Doing(call, Issue(t, th, now, fault).1)
  {
    IssueGoesOn(t, th, now, fault);
    var th' := Issue(t, th, now, fault).1;
    hide Issue;
    if th'.update.None? {
      var reply :| th'.l == Resume(th.l, reply, now)
        && (reply.Found? && Ask(th.l, now).Get? ==> reply.user.id == Ask(th.l, now).id);
      ResumeOf(call, th.l, reply, now);
      if th.l.UpdateFetch? {
        AfterFetchKeepsId(th.l.req, th.l.mask, reply);
      }
      hide Resume;
    }
  }

  lemma {:induction false} AlwaysDoing(t: Table, calls: seq<Call>, ticks: seq<Tick>)
    ensures AllDoing(calls, Exec(Initial(t, calls), ticks))
    decreases |ticks|
  {
    if ticks == [] {
      forall i | 0 <= i < |calls| ensures Doing(calls[i], Thread(Start(calls[i]), None)) {
      }
    } else {
      AlwaysDoing(t, calls, ticks[..|ticks| - 1]);
      var before, tick := Exec(Initial(t, calls), ticks[..|ticks| - 1]), ticks[|ticks| - 1];
      hide Issue, Doing;
      if tick.who < |calls| {
        DoingNext(calls[tick.who], before.table, before.threads[tick.who], tick.now, tick.fault);
      }
    }
  }

  /** Only DeleteUser removes a row, and only its own. */
  lemma OnlyDeleteRemoves(call: Call, t: Table, th: Thread, now: Time, fault: bool, id: Id)
    requires Doing(call, th) && id in t && call != DeleteUser(id)
    ensures id in Issue(t, th, now, fault).0
  {
    WrittenIsTheStep(t, th, now, fault);
    hide Issue, NameFree, RowFor;
  }

  lemma OnlyAddsInsert(call: Call, t: Table, th: Thread, now: Time, fault: bool, id: Id)
    requires Doing(call, th) && id !in t && id in Issue(t, th, now, fault).0
    ensures CanInsert(call, id)
  {
    WrittenIsTheStep(t, th, now, fault);
    hide Issue, NameFree, RowFor;
  }

  // ---------- The statements of SyncUsers and UpdateUser ----------

  function WithAnswer(answers: seq<SyncReply>, u: User, outcome: Outcome): seq<SyncReply> {
    answers + [SyncReply(u.id, outcome)]
  }

  /** The row that the upsert leaves */
  function Upserted(t: Table, u: User): Row {
    if u.id in t then RowFor(u).(createDate := t[u.id].createDate) else RowFor(u)
  }

  lemma IssueSyncNext(t: Table, users: seq<User>, answers: seq<SyncReply>, now: Time, fault: bool)
    ensures var th := Thread(SyncNext(users, answers), None);
            && RowWritten(t, th, now, fault) == None
            && Issue(t, th, now, fault) ==
               (t, Thread(if |answers| >= |users| then Done(SyncReplies(answers))
                          else
                            var u := users[|answers|];
                            if u.id == 0 then SyncNext(users, WithAnswer(answers, u, Rejected(IdIsZero)))
                            else if fault then SyncNext(users, WithAnswer(answers, u, Rejected(Internal)))
                            else SyncWrite(users, answers, u.id in t), None))
  {
  }

  lemma IssueSyncCheck(t: Table, users: seq<User>, answers: seq<SyncReply>, now: Time, fault: bool)
    requires |answers| < |users|
    ensures var u, th := users[|answers|], Thread(SyncWrite(users, answers, true), None);
            && RowWritten(t, th, now, fault) == None
            && Issue(t, th, now, fault) ==
               (t, if fault then Thread(SyncNext(users, WithAnswer(answers, u, Rejected(Internal))), None)
                   else if u.id in t then Thread(SyncWrite(users, answers, true), Some(u))
                   else Thread(SyncNext(users, WithAnswer(answers, u, Rejected(NotFound))), None))
  {
  }

  lemma IssueSyncUpdate(t: Table, users: seq<User>, answers: seq<SyncReply>, now: Time, fault: bool)
    requires |answers| < |users|
    ensures var u, th := users[|answers|], Thread(SyncWrite(users, answers, true), Some(users[|answers|]));
            var refused := Thread(SyncNext(users, WithAnswer(answers, u, Rejected(Internal))), None);
            var updated := Thread(SyncNext(users, WithAnswer(answers, u, Updated)), None);
            if fault || (u.id in t && !NameFree(t, u.id, u.username)) then
              RowWritten(t, th, now, fault) == None && Issue(t, th, now, fault) == (t, refused)
            else if u.id !in t then
              RowWritten(t, th, now, fault) == None && Issue(t, th, now, fault) == (t, updated)
            else
              && RowWritten(t, th, now, fault) == Some(RowUpdated(u.id, Upserted(t, u)))
              && Issue(t, th, now, fault) == (t[u.id := Upserted(t, u)], updated)
  {
    hide RowFor, NameFree;
  }

  lemma IssueSyncAdd(t: Table, users: seq<User>, answers: seq<SyncReply>, now: Time, fault: bool)
    requires |answers| < |users|
    ensures var u, th := users[|answers|], Thread(SyncWrite(users, answers, false), None);
            if fault || !NameFree(t, u.id, u.username) then
              && RowWritten(t, th, now, fault) == None
              && Issue(t, th, now, fault)
                 == (t, Thread(SyncNext(users, WithAnswer(answers, u, Rejected(Internal))), None))
            else
              && RowWritten(t, th, now, fault)
                 == Some(if u.id in t then RowOverwritten(u.id, Upserted(t, u)) else RowInserted(u.id, Upserted(t, u)))
              && Issue(t, th, now, fault)
                 == (t[u.id := Upserted(t, u)], Thread(SyncNext(users, WithAnswer(answers, u, Created)), None))
  {
    hide RowFor, NameFree;
  }

  lemma IssueDone(t: Table, r: Response, now: Time, fault: bool)
    ensures var th := Thread(Done(r), None);
            RowWritten(t, th, now, fault) == None && Issue(t, th, now, fault) == (t, th)
  {
  }

  lemma IssueUpdateWrite(t: Table, edited: User, now: Time, fault: bool)
    ensures var check := Thread(UpdateWrite(edited), None);
            var failed := Thread(Done(Fail(Internal)), None);
            && RowWritten(t, check, now, fault) == None
            && Issue(t, check, now, fault) ==
               (t, if fault then failed
                   else if edited.id in t then Thread(UpdateWrite(edited), Some(edited))
                   else Thread(Done(Fail(NotFound)), None))
    ensures var write := Thread(UpdateWrite(edited), Some(edited));
            var failed, done := Thread(Done(Fail(Internal)), None), Thread(Done(OneUser(edited)), None);
            if fault || (edited.id in t && !NameFree(t, edited.id, edited.username)) then
              RowWritten(t, write, now, fault) == None && Issue(t, write, now, fault) == (t, failed)
            else if edited.id !in t then
              RowWritten(t, write, now, fault) == None && Issue(t, write, now, fault) == (t, done)
            else
              && RowWritten(t, write, now, fault) == Some(RowUpdated(edited.id, Upserted(t, edited)))
              && Issue(t, write, now, fault) == (t[edited.id := Upserted(t, edited)], done)
  {
    hide RowFor, NameFree;
  }

  lemma IssueUpdateFetch(t: Table, req: User, mask: seq<string>, now: Time, fault: bool)
    ensures var th := Thread(UpdateFetch(req, mask), None);
            && RowWritten(t, th, now, fault) == None
            && Issue(t, th, now, fault).0 == t && Issue(t, th, now, fault).1.update == None
            && (Issue(t, th, now, fault).1.l.Done? ==> Issue(t, th, now, fault).1.l.response.Fail?)
            && Issue(t, th, now, fault).1.l ==
               AfterFetch(req, mask, if fault then Failed(Internal)
                                     else if req.id in t then Found(UserOf(req.id, t[req.id])) else Failed(NotFound))
  {
    hide Edited, UserOf;
  }

  // ---------- What is always true ----------

  predicate SameButDate(r: Row, r': Row) {
    r == r'.(createDate := r.createDate)
  }

  /** An update reported stands for at most one write, which is the update of that user. */
  predicate ToldOfUpdate(entries: seq<Entry>, u: User) {
    entries != [] ==>
      && |entries| == 1 && entries[0].write.RowUpdated?
      && entries[0].write.id == u.id && SameButDate(entries[0].write.row, RowFor(u))
  }

  /** A creation reported stands for exactly one write, an insert or an overwrite by that user. */
  predicate ToldOfAdd(entries: seq<Entry>, u: User) {
    && |entries| == 1 && (entries[0].write.RowInserted? || entries[0].write.RowOverwritten?)
    && entries[0].write.id == u.id && SameButDate(entries[0].write.row, RowFor(u))
  }

  predicate Told(entries: seq<Entry>, answer: SyncReply, u: User) {
    && answer.userId == u.id
    && match answer.outcome
       case Rejected(_) => entries == []
       case Created => ToldOfAdd(entries, u)
       case Updated => ToldOfUpdate(entries, u)
  }

  ghost predicate SyncSoFar(users: seq<User>, answers: seq<SyncReply>, log: seq<Entry>, who: nat) {
    && |answers| <= |users|
    && (forall k | 0 <= k < |answers| :: Told(SyncHonesty.OfMessage(log, who, k), answers[k], users[k]))
    && (forall k: nat | |answers| <= k :: SyncHonesty.OfMessage(log, who, k) == [])
  }

  predicate UpdateSoFar(l: Local, log: seq<Entry>, who: nat) {
    if l.Done? && l.response.OneUser?
    then ToldOfUpdate(SyncHonesty.OfMessage(log, who, 0), l.response.user)
    else SyncHonesty.OfMessage(log, who, 0) == []
  }

  ghost predicate SoFar(call: Call, l: Local, log: seq<Entry>, who: nat) {
    && (call.SyncUsers? ==> SyncSoFar(call.users, SyncHonesty.AnswersOf(l), log, who))
    && (call.UpdateUser? ==> UpdateSoFar(l, log, who))
  }

  lemma OfMessageGrows(log: seq<Entry>, e: seq<Entry>, who: nat, k: nat)
    requires |e| <= 1
    ensures SyncHonesty.OfMessage(log + e, who, k)
         == SyncHonesty.OfMessage(log, who, k) + if e != [] && e[0].who == who && e[0].item == k then e else []
  {
    if e == [] {
      assert log + e == log;
    } else {
      assert e == [e[0]];
    }
  }

  lemma OthersStaySoFar(call: Call, l: Local, log: seq<Entry>, who: nat, e: seq<Entry>)
    requires SoFar(call, l, log, who) && |e| <= 1 && (e != [] ==> e[0].who != who)
    ensures SoFar(call, l, log + e, who)
  {
    hide Told, ToldOfUpdate;
    forall k: nat ensures SyncHonesty.OfMessage(log + e, who, k) == SyncHonesty.OfMessage(log, who, k) {
      OfMessageGrows(log, e, who, k);
    }
  }

  lemma AnswerSoFar(users: seq<User>, answers: seq<SyncReply>, log: seq<Entry>, who: nat, e: seq<Entry>,
                    outcome: Outcome)
    requires SyncSoFar(users, answers, log, who) && |answers| < |users| && |e| <= 1
    requires e != [] ==> e[0].who == who && e[0].item == |answers|
    requires Told(e, SyncReply(users[|answers|].id, outcome), users[|answers|])
    ensures SyncSoFar(users, WithAnswer(answers, users[|answers|], outcome), log + e, who)
  {
    hide Told;
    forall k: nat
      ensures SyncHonesty.OfMessage(log + e, who, k)
           == if k == |answers| then e else SyncHonesty.OfMessage(log, who, k)
    {
      OfMessageGrows(log, e, who, k);
    }
  }

  lemma SyncStepSoFar(users: seq<User>, t: Table, th: Thread, now: Time, fault: bool, log: seq<Entry>, who: nat)
    requires Doing(SyncUsers(users), th) && SyncSoFar(users, SyncHonesty.AnswersOf(th.l), log, who)
    ensures SyncSoFar(users, SyncHonesty.AnswersOf(Issue(t, th, now, fault).1.l),
                      log + EntryBy(who, t, th, now, fault), who)
  {
    hide SyncSoFar, Issue, RowWritten, RowFor, NameFree;
    var answers, e := SyncHonesty.AnswersOf(th.l), EntryBy(who, t, th, now, fault);
    assert e == [] ==> log + e == log;
    match th.l {
      case SyncNext(_, _) =>
        IssueSyncNext(t, users, answers, now, fault);
        if |answers| < |users| {
          AnswerSoFar(users, answers, log, who, [], Rejected(if users[|answers|].id == 0 then IdIsZero else Internal));
        }
      case SyncWrite(_, _, false) =>
        IssueSyncAdd(t, users, answers, now, fault);
        var refused := fault || !NameFree(t, users[|answers|].id, users[|answers|].username);
        AnswerSoFar(users, answers, log, who, e, if refused then Rejected(Internal) else Created);
      case SyncWrite(_, _, true) =>
        if th.update.None? {
          IssueSyncCheck(t, users, answers, now, fault);
          AnswerSoFar(users, answers, log, who, [], Rejected(if fault then Internal else NotFound));
        } else {
          IssueSyncUpdate(t, users, answers, now, fault);
          var u := users[|answers|];
          var refused := fault || (u.id in t && !NameFree(t, u.id, u.username));
          AnswerSoFar(users, answers, log, who, e, if refused then Rejected(Internal) else Updated);
        }
      case Done(r) =>
        IssueDone(t, r, now, fault);
    }
  }

  lemma UpdateStepSoFar(call: Call, t: Table, th: Thread, now: Time, fault: bool, log: seq<Entry>, who: nat)
    requires call.UpdateUser? && Doing(call, th) && UpdateSoFar(th.l, log, who)
    ensures UpdateSoFar(Issue(t, th, now, fault).1.l, log + EntryBy(who, t, th, now, fault), who)
  {
    hide Issue, RowWritten, RowFor, NameFree, AfterFetch, SyncHonesty.OfMessage;
    var e := EntryBy(who, t, th, now, fault);
    OfMessageGrows(log, e, who, 0);
    match th.l {
      case UpdateFetch(req, mask) =>
        IssueUpdateFetch(t, req, mask, now, fault);
      case UpdateWrite(edited) =>
        assert th == Thread(UpdateWrite(edited), th.update) && (th.update.Some? ==> th.update.value == edited);
        IssueUpdateWrite(t, edited, now, fault);
        assert [] + e == e;
      case Done(r) =>
        IssueDone(t, r, now, fault);
    }
  }

  /** In any interleaving with failing statements: a FAILED answer of SyncUsers means that the message wrote
      nothing, "created" stands for exactly one upsert of its user, and "updated", like the user that UpdateUser
      returns, for at most one write, which is the update to that user. What has not been answered has not written. */
  lemma {:induction false} AnswersAreTold(t: Table, calls: seq<Call>, ticks: seq<Tick>, i: nat)
    requires i < |calls|
    ensures AllDoing(calls, Exec(Initial(t, calls), ticks))
    ensures SoFar(calls[i], Exec(Initial(t, calls), ticks).threads[i].l, Log(Initial(t, calls), ticks), i)
    decreases |ticks|
  {
    AlwaysDoing(t, calls, ticks);
    if ticks != [] {
      var before, tick := ticks[..|ticks| - 1], ticks[|ticks| - 1];
      AnswersAreTold(t, calls, before, i);
      hide Issue, RowWritten, Doing, SyncSoFar, UpdateSoFar;
      var st, log := Exec(Initial(t, calls), before), Log(Initial(t, calls), before);
      if tick.who == i {
        OwnStepSoFar(calls[i], st.table, st.threads[i], tick.now, tick.fault, log, i);
      } else {
        OthersStaySoFar(calls[i], st.threads[i].l, log, i, EntryOf(st, tick));
      }
    }
  }

  lemma OwnStepSoFar(call: Call, t: Table, th: Thread, now: Time, fault: bool, log: seq<Entry>, who: nat)
    requires Doing(call, th) && SoFar(call, th.l, log, who)
    ensures SoFar(call, Issue(t, th, now, fault).1.l, log + EntryBy(who, t, th, now, fault), who)
  {
    if call.SyncUsers? {
      SyncStepSoFar(call.users, t, th, now, fault, log, who);
    } else if call.UpdateUser? {
      UpdateStepSoFar(call, t, th, now, fault, log, who);
    }
    hide SyncSoFar, UpdateSoFar, Issue, EntryBy;
  }

  // ---------- When every update reported has been written ----------

  /** The updates reported by a call have each written their row. */
  ghost predicate ReportsWritten(call: Call, l: Local, log: seq<Entry>, who: nat) {
    && (call.SyncUsers? ==>
          forall k | 0 <= k < |SyncHonesty.AnswersOf(l)| && SyncHonesty.AnswersOf(l)[k].outcome.Updated? ::
            SyncHonesty.OfMessage(log, who, k) != [])
    && (call.UpdateUser? && l.Done? && l.response.OneUser? ==> SyncHonesty.OfMessage(log, who, 0) != [])
  }

  ghost predicate ReportsAt(t: Table, calls: seq<Call>, ticks: seq<Tick>, i: nat)
    requires i < |calls|
  {
    ReportsWritten(calls[i], Exec(Initial(t, calls), ticks).threads[i].l, Log(Initial(t, calls), ticks), i)
  }

  /** In all interleavings of the calls, from every table, with any statements failing */
  ghost predicate UpdatesAlwaysWritten(calls: seq<Call>) {
    forall t: Table, ticks: seq<Tick>, i: nat | i < |calls| ::
      ReportsAt(t, calls, ticks, i)
  }

  /** The users that a call may report as updated */
  predicate MayReport(call: Call, id: Id) {
    match call
    case SyncUsers(users) => exists k | 0 <= k < |users| :: users[k].id == id && id != 0
    case UpdateUser(req, mask) => req.Some? && req.value.id == id && id != 0 && Known(mask)
    case _ => false
  }

  ghost predicate Undeleted(calls: seq<Call>) {
    forall call: Call, id: Id | call in calls && MayReport(call, id) :: DeleteUser(id) !in calls
  }

  /** The row of a pending UPDATE is still there. */
  predicate StillThere(call: Call, t: Table, th: Thread) {
    (call.SyncUsers? || call.UpdateUser?) && th.update.Some? ==> th.update.value.id in t
  }

  lemma PendingMayReport(call: Call, th: Thread)
    requires Doing(call, th) && th.update.Some? && (call.SyncUsers? || call.UpdateUser?)
    ensures MayReport(call, th.update.value.id)
  {
    if call.SyncUsers? {
      var users, answers := call.users, th.l.answers;
      assert users[|answers|].id == th.update.value.id && users[|answers|].id != 0;
    }
  }

  lemma OthersStillThere(calls: seq<Call>, st: State, tick: Tick, i: nat)
    requires Undeleted(calls) && AllDoing(calls, st) && i < |calls| && i != tick.who
    requires StillThere(calls[i], st.table, st.threads[i])
    ensures StillThere(calls[i], Next(st, tick).table, Next(st, tick).threads[i])
  {
    hide Issue, Doing, MayReport;
    if tick.who < |calls| && (calls[i].SyncUsers? || calls[i].UpdateUser?) && st.threads[i].update.Some? {
      var id := st.threads[i].update.value.id;
      PendingMayReport(calls[i], st.threads[i]);
      assert calls[i] in calls && calls[tick.who] in calls;
      var th := st.threads[tick.who];
      OnlyDeleteRemoves(calls[tick.who], st.table, th, tick.now, tick.fault, id);
    }
  }

  lemma AllStillThereNext(calls: seq<Call>, st: State, tick: Tick)
    requires Undeleted(calls) && AllDoing(calls, st)
    requires forall i | 0 <= i < |calls| :: StillThere(calls[i], st.table, st.threads[i])
    ensures forall i | 0 <= i < |calls| :: StillThere(calls[i], Next(st, tick).table, Next(st, tick).threads[i])
  {
    forall i | 0 <= i < |calls| ensures StillThere(calls[i], Next(st, tick).table, Next(st, tick).threads[i]) {
      if i != tick.who {
        OthersStillThere(calls, st, tick, i);
      }
      hide Issue, StillThere, Undeleted, AllDoing;
    }
  }

  lemma {:induction false} AlwaysStillThere(t: Table, calls: seq<Call>, ticks: seq<Tick>)
    requires Undeleted(calls)
    ensures forall i | 0 <= i < |calls| ::
              StillThere(calls[i], Exec(Initial(t, calls), ticks).table, Exec(Initial(t, calls), ticks).threads[i])
    decreases |ticks|
  {
    if ticks != [] {
      AlwaysStillThere(t, calls, ticks[..|ticks| - 1]);
      AlwaysDoing(t, calls, ticks[..|ticks| - 1]);
      hide Next, StillThere, Undeleted, AllDoing;
      AllStillThereNext(calls, Exec(Initial(t, calls), ticks[..|ticks| - 1]), ticks[|ticks| - 1]);
    }
  }

  lemma OthersReportsWritten(call: Call, l: Local, log: seq<Entry>, who: nat, e: seq<Entry>)
    requires ReportsWritten(call, l, log, who) && |e| <= 1
    ensures ReportsWritten(call, l, log + e, who)
  {
    forall k: nat
      ensures SyncHonesty.OfMessage(log, who, k) != [] ==> SyncHonesty.OfMessage(log + e, who, k) != []
    {
      OfMessageGrows(log, e, who, k);
    }
  }

  lemma OneMoreWritten(call: Call, l: Local, l': Local, log: seq<Entry>, who: nat, e: seq<Entry>)
    requires call.SyncUsers? && ReportsWritten(call, l, log, who) && |e| <= 1
    requires var answers, answers' := SyncHonesty.AnswersOf(l), SyncHonesty.AnswersOf(l');
             || answers' == answers
             || (exists answer: SyncReply :: answers' == answers + [answer]
                   && (answer.outcome.Updated? ==> e != [] && e[0].who == who && e[0].item == |answers|))
    ensures ReportsWritten(call, l', log + e, who)
  {
    OthersReportsWritten(call, l, log, who, e);
    OfMessageGrows(log, e, who, |SyncHonesty.AnswersOf(l)|);
    hide SyncHonesty.AnswersOf;
  }

  lemma SyncStepWritten(call: Call, t: Table, th: Thread, now: Time, fault: bool, log: seq<Entry>, who: nat)
    requires call.SyncUsers? && Doing(call, th) && StillThere(call, t, th) && ReportsWritten(call, th.l, log, who)
    ensures ReportsWritten(call, Issue(t, th, now, fault).1.l, log + EntryBy(who, t, th, now, fault), who)
  {
    hide ReportsWritten, Issue, RowWritten, RowFor, NameFree;
    var users, answers := call.users, SyncHonesty.AnswersOf(th.l);
    match th.l {
      case SyncNext(_, _) =>
        IssueSyncNext(t, users, answers, now, fault);
      case SyncWrite(_, _, false) =>
        IssueSyncAdd(t, users, answers, now, fault);
      case SyncWrite(_, _, true) =>
        if th.update.None? {
          IssueSyncCheck(t, users, answers, now, fault);
        } else {
          IssueSyncUpdate(t, users, answers, now, fault);
        }
      case Done(r) =>
        IssueDone(t, r, now, fault);
    }
    OneMoreWritten(call, th.l, Issue(t, th, now, fault).1.l, log, who, EntryBy(who, t, th, now, fault));
  }

  lemma UpdateStepWritten(call: Call, t: Table, th: Thread, now: Time, fault: bool, log: seq<Entry>, who: nat)
    requires call.UpdateUser? && Doing(call, th) && StillThere(call, t, th) && ReportsWritten(call, th.l, log, who)
    ensures ReportsWritten(call, Issue(t, th, now, fault).1.l, log + EntryBy(who, t, th, now, fault), who)
  {
    hide Issue, RowWritten, RowFor, NameFree, AfterFetch, SyncHonesty.OfMessage;
    OfMessageGrows(log, EntryBy(who, t, th, now, fault), who, 0);
    match th.l {
      case UpdateFetch(req, mask) =>
        IssueUpdateFetch(t, req, mask, now, fault);
      case UpdateWrite(edited) =>
        assert th == Thread(UpdateWrite(edited), th.update) && (th.update.Some? ==> th.update.value == edited);
        IssueUpdateWrite(t, edited, now, fault);
      case Done(r) =>
        IssueDone(t, r, now, fault);
    }
  }

  lemma {:induction false} UpdatesWrittenUnlessDeleted(t: Table, calls: seq<Call>, ticks: seq<Tick>, i: nat)
    requires Undeleted(calls) && i < |calls|
    ensures ReportsAt(t, calls, ticks, i)
    decreases |ticks|
  {
    if ticks != [] {
      var before, tick := ticks[..|ticks| - 1], ticks[|ticks| - 1];
      UpdatesWrittenUnlessDeleted(t, calls, before, i);
      AlwaysStillThere(t, calls, before);
      AlwaysDoing(t, calls, before);
      hide Issue, RowWritten, Doing, StillThere, ReportsWritten, Undeleted;
      var st, log := Exec(Initial(t, calls), before), Log(Initial(t, calls), before);
      var call, th := calls[i], st.threads[i];
      if tick.who != i {
        OthersReportsWritten(call, th.l, log, i, EntryOf(st, tick));
      } else if call.SyncUsers? {
        SyncStepWritten(call, st.table, th, tick.now, tick.fault, log, i);
      } else if call.UpdateUser? {
        UpdateStepWritten(call, st.table, th, tick.now, tick.fault, log, i);
      }
    }
  }

  // ---------- Runs of one thread ----------

  /** Thread th alone, statement k failing when faults[k] says so */
  function Run(t: Table, th: Thread, faults: seq<bool>): (Table, Thread) {
    if faults == [] then (t, th)
    else
      var (t', th') := Run(t, th, faults[..|faults| - 1]);
      Issue(t', th', 0, faults[|faults| - 1])
  }

  function TicksOf(who: nat, faults: seq<bool>): seq<Tick> {
    seq(|faults|, i requires 0 <= i < |faults| => Tick(who, 0, faults[i]))
  }

  lemma RunExtends(t: Table, th: Thread, faults: seq<bool>, fault: bool)
    ensures Run(t, th, faults + [fault]) == Issue(Run(t, th, faults).0, Run(t, th, faults).1, 0, fault)
  {
    hide Issue;
    assert (faults + [fault])[..|faults|] == faults;
  }

  lemma {:induction false} RunAppends(t: Table, th: Thread, first: seq<bool>, rest: seq<bool>)
    ensures Run(t, th, first + rest) == Run(Run(t, th, first).0, Run(t, th, first).1, rest)
    decreases |rest|
  {
    if rest == [] {
      assert first + rest == first;
    } else {
      hide Issue;
      var init := rest[..|rest| - 1];
      assert (first + rest)[..|first + rest| - 1] == first + init;
      RunAppends(t, th, first, init);
    }
  }

  lemma {:induction false} ExecAppends(st: State, first: seq<Tick>, rest: seq<Tick>)
    ensures Exec(st, first + rest) == Exec(Exec(st, first), rest)
    decreases |rest|
  {
    if rest == [] {
      assert first + rest == first;
    } else {
      hide Next;
      var init := rest[..|rest| - 1];
      assert (first + rest)[..|first + rest| - 1] == first + init;
      ExecAppends(st, first, init);
    }
  }

  lemma {:induction false} ExecRun(st: State, who: nat, faults: seq<bool>)
    requires who < |st.threads|
    ensures Exec(st, TicksOf(who, faults))
         == State(Run(st.table, st.threads[who], faults).0, st.threads[who := Run(st.table, st.threads[who], faults).1])
    decreases |faults|
  {
    hide Issue;
    if faults == [] {
      assert TicksOf(who, faults) == [] && st.threads[who := st.threads[who]] == st.threads;
    } else {
      var init, last := faults[..|faults| - 1], faults[|faults| - 1];
      ExecRun(st, who, init);
      assert faults == init + [last] && TicksOf(who, faults) == TicksOf(who, init) + [Tick(who, 0, last)];
      RunExtends(st.table, st.threads[who], init, last);
      hide TicksOf, Exec, Run;
      var (t', th') := Run(st.table, st.threads[who], init);
      var th'' := Issue(t', th', 0, last).1;
      assert st.threads[who := th'][who := th''] == st.threads[who := th''];
    }
  }

  /** One message of a sync, alone and with no statement failing: it is answered, and no row goes. */
  lemma MessageRun(t: Table, users: seq<User>, answers: seq<SyncReply>)
    returns (faults: seq<bool>, t': Table, answer: SyncReply)
    requires |answers| < |users|
    ensures Run(t, Thread(SyncNext(users, answers), None), faults)
         == (t', Thread(SyncNext(users, answers + [answer]), None))
    ensures t.Keys <= t'.Keys && forall fault | fault in faults :: !fault
  {
    hide Issue, RowFor, NameFree;
    var u, th := users[|answers|], Thread(SyncNext(users, answers), None);
    IssueSyncNext(t, users, answers, 0, false);
    RunExtends(t, th, [], false);
    faults, t', answer := [] + [false], t, SyncReply(u.id, Rejected(IdIsZero));
    if u.id != 0 {
      if u.id in t {
        IssueSyncCheck(t, users, answers, 0, false);
        RunExtends(t, th, faults, false);
        faults := faults + [false];
        IssueSyncUpdate(t, users, answers, 0, false);
      } else {
        IssueSyncAdd(t, users, answers, 0, false);
      }
      RunExtends(t, th, faults, false);
      hide Run;
      faults := faults + [false];
      var end := Run(t, th, faults);
      t', answer := end.0, end.1.l.answers[|answers|];
    }
  }

  lemma {:induction false} SyncRun(t: Table, users: seq<User>, k: nat)
    returns (faults: seq<bool>, t': Table, answers: seq<SyncReply>)
    requires k <= |users|
    ensures Run(t, Thread(SyncNext(users, []), None), faults) == (t', Thread(SyncNext(users, answers), None))
    ensures |answers| == k && t.Keys <= t'.Keys && forall fault | fault in faults :: !fault
  {
    if k == 0 {
      faults, t', answers := [], t, [];
    } else {
      hide Run;
      var before, middle, earlier := SyncRun(t, users, k - 1);
      var more, answer;
      more, t', answer := MessageRun(middle, users, earlier);
      RunAppends(t, Thread(SyncNext(users, []), None), before, more);
      faults, answers := before + more, earlier + [answer];
    }
  }

  // ---------- An update that is lost ----------

  /** Thread i is about to send the UPDATE for user u, the rows being those of a run of the calls. */
  ghost predicate AboutToUpdate(t: Table, calls: seq<Call>, ticks: seq<Tick>, i: nat, u: User) {
    i < |calls| && (calls[i].SyncUsers? || calls[i].UpdateUser?)
    && Exec(Initial(t, calls), ticks).threads[i].update == Some(u)
  }

  lemma LostSync(users: seq<User>, answers: seq<SyncReply>, t: Table, log: seq<Entry>, who: nat)
    requires SyncSoFar(users, answers, log, who) && |answers| < |users| && users[|answers|].id !in t
    ensures var th := Thread(SyncWrite(users, answers, true), Some(users[|answers|]));
            && EntryBy(who, t, th, 0, false) == []
            && !ReportsWritten(SyncUsers(users), Issue(t, th, 0, false).1.l, log, who)
  {
    IssueSyncUpdate(t, users, answers, 0, false);
    hide Issue, RowWritten, RowFor, NameFree, Told, SyncHonesty.OfMessage;
    assert SyncHonesty.OfMessage(log, who, |answers|) == [];
    assert WithAnswer(answers, users[|answers|], Updated)[|answers|].outcome.Updated?;
  }

  /** When the row is gone, success is reported and nothing is written. */
  lemma LostUpdate(call: Call, t: Table, th: Thread, log: seq<Entry>, who: nat, u: User)
    requires (call.SyncUsers? || call.UpdateUser?) && Doing(call, th) && SoFar(call, th.l, log, who)
    requires th.update == Some(u) && u.id !in t
    ensures EntryBy(who, t, th, 0, false) == []
    ensures !ReportsWritten(call, Issue(t, th, 0, false).1.l, log, who)
  {
    if call.SyncUsers? {
      assert th == Thread(SyncWrite(call.users, th.l.answers, true), Some(call.users[|th.l.answers|]));
      hide ReportsWritten, SyncSoFar, EntryBy;
      LostSync(call.users, th.l.answers, t, log, who);
    } else {
      assert th == Thread(UpdateWrite(u), Some(u));
      IssueUpdateWrite(t, u, 0, false);
      hide Issue, RowWritten, RowFor, NameFree, SyncHonesty.OfMessage;
    }
  }

  lemma LateUpdateIsLost(t: Table, calls: seq<Call>, ticks: seq<Tick>, i: nat, u: User)
    requires AboutToUpdate(t, calls, ticks, i, u) && u.id !in Exec(Initial(t, calls), ticks).table
    ensures !ReportsAt(t, calls, ticks + [Tick(i, 0, false)], i)
  {
    AnswersAreTold(t, calls, ticks, i);
    hide Issue, Log, Initial, Exec, SoFar, EntryBy, ReportsWritten, Doing;
    var st, log := Exec(Initial(t, calls), ticks), Log(Initial(t, calls), ticks);
    LostUpdate(calls[i], st.table, st.threads[i], log, i, u);
    assert log + [] == log;
  }

  /** Thread i comes to its UPDATE for id, alone on a table that has such a row. */
  lemma ComesToUpdate(call: Call, id: Id) returns (t: Table, faults: seq<bool>, t': Table, th: Thread, u: User)
    requires MayReport(call, id)
    ensures Run(t, Thread(Start(call), None), faults) == (t', th)
    ensures th.update == Some(u) && u.id == id && id in t' && forall fault | fault in faults :: !fault
  {
    t := map[id := RowFor(NO_USER)];
    if call.SyncUsers? {
      var k :| 0 <= k < |call.users| && call.users[k].id == id;
      var answers;
      faults, t', answers := SyncRun(t, call.users, k);
      hide Run, Issue, RowFor;
      u := call.users[k];
      var start := Thread(Start(call), None);
      IssueSyncNext(t', call.users, answers, 0, false);
      RunExtends(t, start, faults, false);
      IssueSyncCheck(t', call.users, answers, 0, false);
      RunExtends(t, start, faults + [false], false);
      faults, th := faults + [false] + [false], Thread(SyncWrite(call.users, answers, true), Some(u));
    } else {
      var req, mask := call.req.value, call.mask;
      var found := UserOf(id, t[id]);
      MaskMeaning(found, req, mask);
      hide Run, Issue, RowFor, UserOf, Edited, Known, Named, Merged;
      u := Edited(found, req, mask).value;
      var start := Thread(Start(call), None);
      RunNone(t, start);
      IssueUpdateFetch(t, req, mask, 0, false);
      RunExtends(t, start, [], false);
      IssueUpdateWrite(t, u, 0, false);
      RunExtends(t, start, [] + [false], false);
      faults, t', th := [] + [false] + [false], t, Thread(UpdateWrite(u), Some(u));
    }
  }

  lemma RunNone(t: Table, th: Thread)
    ensures Run(t, th, []) == (t, th)
  {
  }

  lemma DeletedMeanwhile(calls: seq<Call>, t: Table, faults: seq<bool>, i: nat, d: nat, t': Table, th: Thread, id: Id)
    requires i < |calls| && d < |calls| && i != d && calls[d] == DeleteUser(id) && id != 0 && id in t'
    requires Run(t, Thread(Start(calls[i]), None), faults) == (t', th)
    ensures var st := Exec(Initial(t, calls), TicksOf(i, faults) + [Tick(d, 0, false)]);
            st.table == t' - {id} && st.threads[i] == th
  {
    var st, remove := Initial(t, calls), Tick(d, 0, false);
    assert st.threads[d] == Thread(DeleteWrite(id), None) && st.threads[i] == Thread(Start(calls[i]), None);
    hide Run, Issue, Exec, Initial, TicksOf;
    ExecRun(st, i, faults);
    assert Exec(st, TicksOf(i, faults) + [remove]) == Next(State(t', st.threads[i := th]), remove);
  }

  /** Without any statement failing: the thread comes to its UPDATE, the row is deleted, the update is lost. */
  lemma UpdateGetsLost(calls: seq<Call>, i: nat, d: nat, id: Id) returns (t: Table, ticks: seq<Tick>)
    requires i < |calls| && d < |calls| && MayReport(calls[i], id) && calls[d] == DeleteUser(id)
    ensures !ReportsAt(t, calls, ticks, i)
    ensures forall tick | tick in ticks :: !tick.fault
  {
    var faults, t', th, u;
    t, faults, t', th, u := ComesToUpdate(calls[i], id);
    assert i != d && id != 0 && (calls[i].SyncUsers? || calls[i].UpdateUser?);
    hide Run, Issue, Exec, Initial, Log, ReportsAt, Start, MayReport, TicksOf;
    DeletedMeanwhile(calls, t, faults, i, d, t', th, id);
    var before := TicksOf(i, faults) + [Tick(d, 0, false)];
    assert AboutToUpdate(t, calls, before, i, u);
    LateUpdateIsLost(t, calls, before, i, u);
    ticks := before + [Tick(i, 0, false)];
    NoFaults(i, faults);
  }

  lemma NoFaults(who: nat, faults: seq<bool>)
    requires forall fault | fault in faults :: !fault
    ensures forall tick | tick in TicksOf(who, faults) :: !tick.fault
  {
    forall k | 0 <= k < |faults| ensures !TicksOf(who, faults)[k].fault {
      assert faults[k] in faults;
    }
  }

  /** For all families of calls: in every interleaving, from every table, every update that SyncUsers or UpdateUser
      reports has written its row exactly when no call deletes a user that a sync sends or an update is for. */
  lemma UpdatesAreWrittenExactly(calls: seq<Call>)
    ensures UpdatesAlwaysWritten(calls) <==> Undeleted(calls)
  {
    if Undeleted(calls) {
      forall t: Table, ticks: seq<Tick>, i: nat | i < |calls|
        ensures ReportsAt(t, calls, ticks, i)
      {
        UpdatesWrittenUnlessDeleted(t, calls, ticks, i);
      }
    } else {
      var call: Call, id: Id :| call in calls && MayReport(call, id) && DeleteUser(id) in calls;
      var i :| 0 <= i < |calls| && calls[i] == call;
      var d :| 0 <= d < |calls| && calls[d] == DeleteUser(id);
      var t, ticks := UpdateGetsLost(calls, i, d, id);
    }
  }

  // ---------- The fields reported ----------

  /** The fields of a row that the list for an update does not name, but for the date, which stays */
  predicate SameUnnamed(r: Row, u: User) {
    && r.email == u.email && r.phone == u.phone && r.tags == u.tags && r.metadata == u.metadata
    && r.lastLogin == u.lastLogin && r.addresses == u.addresses
  }

  /** When SyncUsers updates a row, the fields it reports cover those it changes exactly when email, phone, tags,
      metadata, last login and addresses were those of the message. The create date never changes. */
  lemma ReportedFieldsCoverExactly(t: Table, users: seq<User>, answers: seq<SyncReply>, now: Time)
    requires |answers| < |users|
    requires var u := users[|answers|]; u.id in t && NameFree(t, u.id, u.username)
    ensures var u := users[|answers|];
            var (t', th) := Issue(t, Thread(SyncWrite(users, answers, true), Some(u)), now, false);
            && th.l == SyncNext(users, WithAnswer(answers, u, Updated)) && u.id in t'
            && (SyncHonesty.ChangedFields(UserOf(u.id, t[u.id]), UserOf(u.id, t'[u.id]))
                  <= SyncHonesty.UpdatedFields(Updated)
                <==> SameUnnamed(t[u.id], u))
  {
    var u := users[|answers|];
    IssueSyncUpdate(t, users, answers, now, false);
    hide Issue, RowFor, UserOf, NameFree, SyncHonesty.ChangedFields, SyncHonesty.UpdatedFields, RowWritten;
  }
}
