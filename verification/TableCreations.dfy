/** Exactly when every creation that SyncUsers reports over the Postgres table is an insert, and not the overwrite
    of a user whom another call has inserted meanwhile. */
module TableCreations {
  import opened Values
  import opened StoreSpec
  import opened Handlers
  import opened PostgresTable
  import opened TableHonesty
  import Interleaving
  import SyncHonesty

  // ---------- When every creation reported is an insert ----------

  /** The creations reported by a call have each inserted a row. */
  ghost predicate CreationsInserted(call: Call, l: Local, log: seq<Entry>, who: nat) {
    call.SyncUsers? ==>
      forall k | 0 <= k < |SyncHonesty.AnswersOf(l)| && SyncHonesty.AnswersOf(l)[k].outcome.Created? ::
        OneInsert(SyncHonesty.OfMessage(log, who, k))
  }

  predicate OneInsert(entries: seq<Entry>) {
    |entries| == 1 && entries[0].write.RowInserted?
  }

  ghost predicate CreationsAt(t: Table, calls: seq<Call>, ticks: seq<Tick>, i: nat)
    requires i < |calls|
  {
    CreationsInserted(calls[i], Exec(Initial(t, calls), ticks).threads[i].l, Log(Initial(t, calls), ticks), i)
  }

  /** In all interleavings of the calls, from every table, with any statements failing */
  ghost predicate CreationsAlwaysInserted(calls: seq<Call>) {
    forall t: Table, ticks: seq<Tick>, i: nat | i < |calls| :: CreationsAt(t, calls, ticks, i)
  }

  /** No other call can insert a user that a sync sends. */
  ghost predicate SoleInserters(calls: seq<Call>) {
    forall i: nat, j: nat, id: Id | i < |calls| && j < |calls| && i != j && calls[i].SyncUsers? ::
      !(CanInsert(calls[i], id) && CanInsert(calls[j], id))
  }

  /** A user that SyncUsers has found missing is still missing. */
  predicate StillMissing(t: Table, l: Local) {
    l.SyncWrite? && !l.found && |l.answers| < |l.users| ==> l.users[|l.answers|].id !in t
  }

  lemma OthersLeaveMissing(calls: seq<Call>, st: State, tick: Tick, i: nat)
    requires SoleInserters(calls) && AllDoing(calls, st) && i < |calls| && i != tick.who && calls[i].SyncUsers?
    requires StillMissing(st.table, st.threads[i].l)
    ensures StillMissing(Next(st, tick).table, Next(st, tick).threads[i].l)
  {
    hide Issue;
    var l := st.threads[i].l;
    if tick.who < |calls| && l.SyncWrite? && !l.found && l.users[|l.answers|].id in Next(st, tick).table {
      var th := st.threads[tick.who];
      OnlyAddsInsert(calls[tick.who], st.table, th, tick.now, tick.fault, l.users[|l.answers|].id);
      assert false;
    }
  }

  lemma OwnStillMissing(users: seq<User>, t: Table, th: Thread, now: Time, fault: bool)
    requires Doing(SyncUsers(users), th)
    ensures StillMissing(Issue(t, th, now, fault).0, Issue(t, th, now, fault).1.l)
  {
    hide Issue, NameFree, RowFor, RowWritten;
    match th.l {
      case SyncNext(_, answers) =>
        IssueSyncNext(t, users, answers, now, fault);
      case SyncWrite(_, answers, false) =>
        IssueSyncAdd(t, users, answers, now, fault);
      case SyncWrite(_, answers, true) =>
        if th.update.None? {
          IssueSyncCheck(t, users, answers, now, fault);
        } else {
          IssueSyncUpdate(t, users, answers, now, fault);
        }
      case Done(r) =>
        IssueDone(t, r, now, fault);
    }
  }

  lemma {:induction false} AlwaysStillMissing(t: Table, calls: seq<Call>, ticks: seq<Tick>, i: nat)
    requires SoleInserters(calls) && i < |calls| && calls[i].SyncUsers?
    ensures StillMissing(Exec(Initial(t, calls), ticks).table, Exec(Initial(t, calls), ticks).threads[i].l)
    decreases |ticks|
  {
    if ticks != [] {
      var before, tick := ticks[..|ticks| - 1], ticks[|ticks| - 1];
      AlwaysStillMissing(t, calls, before, i);
      AlwaysDoing(t, calls, before);
      var st := Exec(Initial(t, calls), before);
      if tick.who == i {
        OwnStillMissing(calls[i].users, st.table, st.threads[i], tick.now, tick.fault);
        hide Issue, StillMissing;
      } else {
        OthersLeaveMissing(calls, st, tick, i);
      }
    }
  }

  lemma OneMoreInserted(call: Call, l: Local, l': Local, log: seq<Entry>, who: nat, e: seq<Entry>)
    requires call.SyncUsers? && CreationsInserted(call, l, log, who) && |e| <= 1
    requires SyncSoFar(call.users, SyncHonesty.AnswersOf(l), log, who)
    requires e != [] ==> e[0].item == |SyncHonesty.AnswersOf(l)| && e[0].who == who
    requires var answers, answers' := SyncHonesty.AnswersOf(l), SyncHonesty.AnswersOf(l');
             || answers' == answers
             || exists answer: SyncReply :: answers' == answers + [answer] && (answer.outcome.Created? ==> OneInsert(e))
    ensures CreationsInserted(call, l', log + e, who)
  {
    hide SyncHonesty.AnswersOf, Told;
    var answers, answers' := SyncHonesty.AnswersOf(l), SyncHonesty.AnswersOf(l');
    forall k | 0 <= k < |answers'| && answers'[k].outcome.Created?
      ensures OneInsert(SyncHonesty.OfMessage(log + e, who, k))
    {
      OfMessageGrows(log, e, who, k);
      if k < |answers| {
        assert SyncHonesty.OfMessage(log + e, who, k) == SyncHonesty.OfMessage(log, who, k);
      } else {
        assert SyncHonesty.OfMessage(log + e, who, k) == e;
      }
    }
  }

  lemma SyncStepInserted(call: Call, t: Table, th: Thread, now: Time, fault: bool, log: seq<Entry>, who: nat)
    requires call.SyncUsers? && Doing(call, th) && StillMissing(t, th.l) && CreationsInserted(call, th.l, log, who)
    requires SyncSoFar(call.users, SyncHonesty.AnswersOf(th.l), log, who)
    ensures CreationsInserted(call, Issue(t, th, now, fault).1.l, log + EntryBy(who, t, th, now, fault), who)
  {
    hide CreationsInserted, SyncSoFar, Issue, RowWritten, RowFor, NameFree;
    var users, answers := call.users, SyncHonesty.AnswersOf(th.l);
    match th.l {
      case SyncNext(_, _) =>
        IssueSyncNext(t, users, answers, now, fault);
      case SyncWrite(_, _, false) =>
        IssueSyncAdd(t, users, answers, now, fault);
      case SyncWrite(_, _, true) =>
        if th.update.None? {
          IssueSyncCheck(t, users, answers, now, fault);
        } else {
          IssueSyncUpdate(t, users, answers, now, fault);
        }
      case Done(r) =>
        IssueDone(t, r, now, fault);
    }
    OneMoreInserted(call, th.l, Issue(t, th, now, fault).1.l, log, who, EntryBy(who, t, th, now, fault));
  }

  lemma OthersCreationsInserted(call: Call, l: Local, log: seq<Entry>, who: nat, e: seq<Entry>)
    requires CreationsInserted(call, l, log, who) && |e| <= 1 && (e != [] ==> e[0].who != who)
    ensures CreationsInserted(call, l, log + e, who)
  {
    forall k: nat ensures SyncHonesty.OfMessage(log + e, who, k) == SyncHonesty.OfMessage(log, who, k) {
      OfMessageGrows(log, e, who, k);
    }
  }

  lemma {:induction false} CreationsInsertedIfSole(t: Table, calls: seq<Call>, ticks: seq<Tick>, i: nat)
    requires SoleInserters(calls) && i < |calls|
    ensures CreationsAt(t, calls, ticks, i)
    decreases |ticks|
  {
    if ticks != [] && calls[i].SyncUsers? {
      var before, tick := ticks[..|ticks| - 1], ticks[|ticks| - 1];
      CreationsInsertedIfSole(t, calls, before, i);
      AlwaysStillMissing(t, calls, before, i);
      AnswersAreTold(t, calls, before, i);
      hide Issue, RowWritten, Doing, StillMissing, CreationsInserted, SoleInserters, SyncSoFar;
      var st, log := Exec(Initial(t, calls), before), Log(Initial(t, calls), before);
      if tick.who != i {
        OthersCreationsInserted(calls[i], st.threads[i].l, log, i, EntryOf(st, tick));
      } else {
        SyncStepInserted(calls[i], st.table, st.threads[i], tick.now, tick.fault, log, i);
      }
    }
  }

  // ---------- A creation that overwrites ----------

  /** With its statements failing, a stream passes its first n messages without a trace. */
  lemma {:induction false} SyncFails(t: Table, users: seq<User>, n: nat)
    returns (faults: seq<bool>, answers: seq<SyncReply>)
    requires n <= |users|
    ensures Run(t, Thread(SyncNext(users, []), None), faults) == (t, Thread(SyncNext(users, answers), None))
    ensures |answers| == n
  {
    if n == 0 {
      faults, answers := [], [];
    } else {
      hide Run, Issue;
      faults, answers := SyncFails(t, users, n - 1);
      IssueSyncNext(t, users, answers, 0, true);
      RunExtends(t, Thread(SyncNext(users, []), None), faults, true);
      var u := users[n - 1];
      faults, answers := faults + [true], WithAnswer(answers, u, Rejected(if u.id == 0 then IdIsZero else Internal));
    }
  }

  lemma {:induction false} BatchFails(t: Table, users: seq<User>, n: nat)
    returns (faults: seq<bool>, errors: seq<BatchError>)
    requires n <= |users|
    ensures Run(t, Thread(BatchNext(users, 0, 0, []), None), faults)
         == (t, Thread(BatchNext(users, n, 0, errors), None))
  {
    if n == 0 {
      faults, errors := [], [];
    } else {
      hide Run, Issue;
      faults, errors := BatchFails(t, users, n - 1);
      var error := IssueBatchFails(t, users, n - 1, errors);
      RunExtends(t, Thread(BatchNext(users, 0, 0, []), None), faults, true);
      faults, errors := faults + [true], errors + [error];
    }
  }

  lemma IssueBatchFails(t: Table, users: seq<User>, n: nat, errors: seq<BatchError>) returns (error: BatchError)
    requires n < |users|
    ensures Issue(t, Thread(BatchNext(users, n, 0, errors), None), 0, true)
         == (t, Thread(BatchNext(users, n + 1, 0, errors + [error]), None))
  {
    error := BatchError(n + 1, if ValidMessage(users[n]) then Internal else MessageError(users[n]).value);
  }

  lemma IssueBatchAdds(t: Table, users: seq<User>, n: nat, errors: seq<BatchError>)
    requires n < |users| && ValidMessage(users[n]) && NameFree(t, users[n].id, users[n].username)
    ensures Issue(t, Thread(BatchNext(users, n, 0, errors), None), 0, false).0
         == t[users[n].id := Upserted(t, users[n])]
  {
    hide RowFor, NameFree;
  }

  lemma IssueAddUser(t: Table, u: User)
    requires ValidMessage(u) && t != map[] && NameFree(t, u.id, u.username)
    ensures Issue(t, Thread(AddCount(u), None), 0, false) == (t, Thread(AddInsert(u), None))
    ensures Issue(t, Thread(AddInsert(u), None), 0, false).0 == t[u.id := Upserted(t, u)]
  {
    hide RowFor, NameFree;
    var id :| id in t;
    assert |t| != 0;
  }

  /** A call that can insert id does so, alone on a table where nothing stands in the way. */
  lemma Inserts(call: Call, v: User, t: Table) returns (faults: seq<bool>)
    requires InsertsUser(call, v) && t != map[] && NameFree(t, v.id, v.username)
    ensures Run(t, Thread(Start(call), None), faults).0 == t[v.id := Upserted(t, v)]
  {
    hide Run, Issue, NameFree, RowFor, Upserted;
    var start := Thread(Start(call), None);
    match call {
      case AddUser(u) =>
        IssueAddUser(t, u);
        RunNone(t, start);
        RunExtends(t, start, [], false);
        RunExtends(t, start, [] + [false], false);
        faults := [] + [false] + [false];
      case BatchAddUsers(users) =>
        var k :| 0 <= k < |users| && users[k] == v && ValidMessage(v);
        var errors;
        faults, errors := BatchFails(t, users, k);
        IssueBatchAdds(t, users, k, errors);
        RunExtends(t, start, faults, false);
        faults := faults + [false];
      case SyncUsers(users) =>
        var k :| 0 <= k < |users| && users[k] == v && v.id != 0;
        var answers;
        faults, answers := SyncFails(t, users, k);
        IssueSyncNext(t, users, answers, 0, false);
        RunExtends(t, start, faults, false);
        if v.id in t {
          IssueSyncCheck(t, users, answers, 0, false);
          RunExtends(t, start, faults + [false], false);
          IssueSyncUpdate(t, users, answers, 0, false);
          RunExtends(t, start, faults + [false] + [false], false);
          faults := faults + [false] + [false] + [false];
        } else {
          IssueSyncAdd(t, users, answers, 0, false);
          RunExtends(t, start, faults + [false], false);
          faults := faults + [false] + [false];
        }
    }
  }

  /** v is a user that the call inserts */
  predicate InsertsUser(call: Call, v: User) {
    match call
    case AddUser(u) => ValidMessage(u) && u == v
    case BatchAddUsers(users) => exists k | 0 <= k < |users| :: users[k] == v && ValidMessage(v)
    case SyncUsers(users) => exists k | 0 <= k < |users| :: users[k] == v && v.id != 0
    case _ => false
  }

  lemma UserInserted(call: Call, id: Id) returns (v: User)
    requires CanInsert(call, id)
    ensures InsertsUser(call, v) && v.id == id
  {
    match call {
      case AddUser(u) => v := u;
      case BatchAddUsers(users) =>
        var k :| 0 <= k < |users| && users[k].id == id && ValidMessage(users[k]);
        v := users[k];
      case SyncUsers(users) =>
        var k :| 0 <= k < |users| && users[k].id == id && id != 0;
        v := users[k];
    }
  }

  /** A sync finds the user missing. */
  lemma FindsMissing(users: seq<User>, k: nat, t: Table) returns (faults: seq<bool>, answers: seq<SyncReply>)
    requires k < |users| && users[k].id != 0 && users[k].id !in t
    ensures Run(t, Thread(SyncNext(users, []), None), faults) == (t, Thread(SyncWrite(users, answers, false), None))
    ensures |answers| == k
  {
    hide Run, Issue;
    faults, answers := SyncFails(t, users, k);
    IssueSyncNext(t, users, answers, 0, false);
    RunExtends(t, Thread(SyncNext(users, []), None), faults, false);
    faults := faults + [false];
  }

  /** A table with one row that has neither the id nor any of the two names */
  function Elsewhere(id: Id, u: User, v: User): Table {
    var other: Id := if id == 1 then 2 else 1;
    map[other := RowFor(NO_USER).(username := u.username + v.username + "x")]
  }

  lemma ElsewhereIsFree(id: Id, u: User, v: User, row: Row)
    requires u.id == v.id == id
    ensures var t := Elsewhere(id, u, v);
            t != map[] && id !in t && NameFree(t, id, v.username) && NameFree(t[id := row], id, u.username)
  {
    hide RowFor;
    assert |u.username + v.username + "x"| > |u.username| && |u.username + v.username + "x"| > |v.username|;
    assert (if id == 1 then 2 else 1) in Elsewhere(id, u, v);
  }

  /** When another has inserted the user meanwhile, "created" is reported for an overwrite. */
  lemma LateAdd(users: seq<User>, answers: seq<SyncReply>, t: Table, log: seq<Entry>, who: nat)
    requires SyncSoFar(users, answers, log, who) && |answers| < |users|
    requires users[|answers|].id in t && NameFree(t, users[|answers|].id, users[|answers|].username)
    ensures var th := Thread(SyncWrite(users, answers, false), None);
            !CreationsInserted(SyncUsers(users), Issue(t, th, 0, false).1.l, log + EntryBy(who, t, th, 0, false), who)
  {
    IssueSyncAdd(t, users, answers, 0, false);
    var e := EntryBy(who, t, Thread(SyncWrite(users, answers, false), None), 0, false);
    assert |e| == 1 && e[0].who == who && e[0].item == |answers| && !OneInsert(e);
    hide Issue, RowWritten, RowFor, NameFree, Told, SyncHonesty.OfMessage, EntryBy, CreationsInserted, OneInsert;
    OfMessageGrows(log, e, who, |answers|);
    assert SyncHonesty.OfMessage(log + e, who, |answers|) == e;
  }

  lemma LateAddOverwrites(t: Table, calls: seq<Call>, ticks: seq<Tick>, i: nat, users: seq<User>,
                          answers: seq<SyncReply>)
    requires i < |calls| && calls[i] == SyncUsers(users) && |answers| < |users|
    requires Exec(Initial(t, calls), ticks).threads[i] == Thread(SyncWrite(users, answers, false), None)
    requires var now := Exec(Initial(t, calls), ticks).table;
             users[|answers|].id in now && NameFree(now, users[|answers|].id, users[|answers|].username)
    ensures !CreationsAt(t, calls, ticks + [Tick(i, 0, false)], i)
  {
    AnswersAreTold(t, calls, ticks, i);
    hide Issue, Log, Initial, Exec, SyncSoFar, EntryBy, CreationsInserted, Doing, NameFree;
    LateAdd(users, answers, Exec(Initial(t, calls), ticks).table, Log(Initial(t, calls), ticks), i);
  }

  /** One thread, then another, each alone */
  lemma OneThenOther(calls: seq<Call>, t: Table, i: nat, j: nat, first: seq<bool>, t1: Table, th: Thread,
                     second: seq<bool>)
    requires i < |calls| && j < |calls| && i != j
    requires Run(t, Thread(Start(calls[i]), None), first) == (t1, th)
    ensures var st := Exec(Initial(t, calls), TicksOf(i, first) + TicksOf(j, second));
            st.threads[i] == th && st.table == Run(t1, Thread(Start(calls[j]), None), second).0
  {
    var st := Initial(t, calls);
    assert st.threads[i] == Thread(Start(calls[i]), None) && st.threads[j] == Thread(Start(calls[j]), None);
    hide Run, Issue, Exec, Initial, TicksOf, Start;
    ExecRun(st, i, first);
    var middle := Exec(st, TicksOf(i, first));
    assert middle.threads[j] == st.threads[j];
    ExecRun(middle, j, second);
    ExecAppends(st, TicksOf(i, first), TicksOf(j, second));
  }

  /** A sync finds a user missing, another call inserts it, and the sync overwrites it and reports a creation. */
  lemma CreationOverwrites(calls: seq<Call>, i: nat, j: nat, id: Id) returns (t: Table, ticks: seq<Tick>)
    requires i < |calls| && j < |calls| && i != j && calls[i].SyncUsers?
    requires CanInsert(calls[i], id) && CanInsert(calls[j], id)
    ensures !CreationsAt(t, calls, ticks, i)
  {
    var users := calls[i].users;
    var k :| 0 <= k < |users| && users[k].id == id && id != 0;
    var v := UserInserted(calls[j], id);
    t := Elsewhere(id, users[k], v);
    ElsewhereIsFree(id, users[k], v, Upserted(t, v));
    hide Run, Issue, Exec, Initial, NameFree, CreationsAt, Upserted, Elsewhere, InsertsUser, CanInsert, TicksOf;
    var first, answers := FindsMissing(users, k, t);
    var second := Inserts(calls[j], v, t);
    OneThenOther(calls, t, i, j, first, t, Thread(SyncWrite(users, answers, false), None), second);
    var before := TicksOf(i, first) + TicksOf(j, second);
    LateAddOverwrites(t, calls, before, i, users, answers);
    ticks := before + [Tick(i, 0, false)];
  }

  /** For all families of calls: in every interleaving, from every table, with any statements failing, every
      creation that SyncUsers reports is an insert exactly when no other call can insert a user that it sends. */
  lemma CreationsAreInsertsExactly(calls: seq<Call>)
    ensures CreationsAlwaysInserted(calls) <==> SoleInserters(calls)
  {
    if SoleInserters(calls) {
      forall t: Table, ticks: seq<Tick>, i: nat | i < |calls| ensures CreationsAt(t, calls, ticks, i) {
        CreationsInsertedIfSole(t, calls, ticks, i);
      }
    } else {
      var i: nat, j: nat, id: Id :| i < |calls| && j < |calls| && i != j && calls[i].SyncUsers?
                                    && CanInsert(calls[i], id) && CanInsert(calls[j], id);
      var t, ticks := CreationOverwrites(calls, i, j, id);
    }
  }

  // ---------- Without failing statements ----------

  /** The messages that a call sends to be added */
  function Sent(call: Call): seq<User> {
    match call
    case AddUser(u) => [u]
    case BatchAddUsers(users) => users
    case SyncUsers(users) => users
    case _ => []
  }

  /** Messages for different users carry different usernames. */
  predicate NamesApart(users: seq<User>) {
    forall a, b | a in users && b in users && a.id != b.id :: a.username != b.username
  }

  ghost predicate AllNamesApart(calls: seq<Call>) {
    forall i, j | 0 <= i < |calls| && 0 <= j < |calls| :: NamesApart(Sent(calls[i]) + Sent(calls[j]))
  }

  predicate FaultFree(ticks: seq<Tick>) {
    forall tick | tick in ticks :: !tick.fault
  }

  /** A name longer than any of the users' */
  function FreshName(users: seq<User>): string {
    if users == [] then "x" else users[0].username + FreshName(users[1..])
  }

  lemma {:induction false} FreshNameIsFresh(users: seq<User>)
    ensures forall u | u in users :: |u.username| < |FreshName(users)|
    ensures |FreshName(users)| > 0
  {
    if users != [] {
      FreshNameIsFresh(users[1..]);
      assert forall u | u in users :: u == users[0] || u in users[1..];
    }
  }

  /** Every row carries the fresh name or that of a message for its user. */
  ghost predicate NamedBy(t: Table, users: seq<User>) {
    forall id | id in t ::
      t[id].username == FreshName(users) || exists u :: u in users && u.id == id && u.username == t[id].username
  }

  lemma NothingInTheWay(t: Table, users: seq<User>, u: User)
    requires NamedBy(t, users) && NamesApart(users) && u in users
    ensures NameFree(t, u.id, u.username)
  {
    FreshNameIsFresh(users);
    forall other | other in t && other != u.id ensures t[other].username != u.username {
      if t[other].username != FreshName(users) {
        var v :| v in users && v.id == other && v.username == t[other].username;
      }
    }
  }

  lemma StaysNamedBy(t: Table, users: seq<User>, u: User)
    requires NamedBy(t, users) && u in users
    ensures NamedBy(t[u.id := Upserted(t, u)], users)
  {
    assert Upserted(t, u).username == u.username;
    hide Upserted;
  }

  /** One message of a sync, alone: if it has an id, its user is stored afterwards. */
  lemma NamedMessageRun(t: Table, users: seq<User>, answers: seq<SyncReply>, known: seq<User>)
    returns (faults: seq<bool>, t': Table, answer: SyncReply)
    requires |answers| < |users| && users[|answers|] in known && NamedBy(t, known) && NamesApart(known)
    ensures Run(t, Thread(SyncNext(users, answers), None), faults)
         == (t', Thread(SyncNext(users, answers + [answer]), None))
    ensures NamedBy(t', known) && forall fault | fault in faults :: !fault
    ensures t'.Keys == t.Keys + if users[|answers|].id == 0 then {} else {users[|answers|].id}
  {
    hide Issue, RowFor, NameFree, NamedBy, NamesApart, Upserted;
    var u, th := users[|answers|], Thread(SyncNext(users, answers), None);
    NothingInTheWay(t, known, u);
    StaysNamedBy(t, known, u);
    IssueSyncNext(t, users, answers, 0, false);
    RunExtends(t, th, [], false);
    faults, t', answer := [] + [false], t, SyncReply(u.id, Rejected(IdIsZero));
    if u.id != 0 {
      if u.id in t {
        IssueSyncCheck(t, users, answers, 0, false);
        RunExtends(t, th, faults, false);
        faults, answer := faults + [false], SyncReply(u.id, Updated);
        IssueSyncUpdate(t, users, answers, 0, false);
      } else {
        IssueSyncAdd(t, users, answers, 0, false);
        answer := SyncReply(u.id, Created);
      }
      RunExtends(t, th, faults, false);
      hide Run;
      faults, t' := faults + [false], t[u.id := Upserted(t, u)];
    }
  }

  /** The ids among the first n messages */
  function IdsOf(users: seq<User>, n: nat): set<Id>
    requires n <= |users|
  {
    set k | 0 <= k < n && users[k].id != 0 :: users[k].id
  }

  lemma {:induction false} NamedSyncRun(t: Table, users: seq<User>, k: nat, known: seq<User>)
    returns (faults: seq<bool>, t': Table, answers: seq<SyncReply>)
    requires k <= |users| && (forall u | u in users :: u in known) && NamedBy(t, known) && NamesApart(known)
    ensures Run(t, Thread(SyncNext(users, []), None), faults) == (t', Thread(SyncNext(users, answers), None))
    ensures |answers| == k && NamedBy(t', known) && forall fault | fault in faults :: !fault
    ensures t'.Keys == t.Keys + IdsOf(users, k)
  {
    hide Run, NamedBy, NamesApart;
    if k == 0 {
      RunNone(t, Thread(SyncNext(users, []), None));
      faults, t', answers := [], t, [];
    } else {
      var before, middle, earlier := NamedSyncRun(t, users, k - 1, known);
      var more, answer;
      more, t', answer := NamedMessageRun(middle, users, earlier, known);
      RunAppends(t, Thread(SyncNext(users, []), None), before, more);
      faults, answers := before + more, earlier + [answer];
      assert IdsOf(users, k) == IdsOf(users, k - 1) + if users[k - 1].id == 0 then {} else {users[k - 1].id};
    }
  }

  lemma {:induction false} NamedBatchRun(t: Table, users: seq<User>, n: nat, known: seq<User>)
    returns (faults: seq<bool>, t': Table, added: nat, errors: seq<BatchError>)
    requires n <= |users| && (forall u | u in users :: u in known) && NamedBy(t, known) && NamesApart(known)
    ensures Run(t, Thread(BatchNext(users, 0, 0, []), None), faults)
         == (t', Thread(BatchNext(users, n, added, errors), None))
    ensures NamedBy(t', known) && forall fault | fault in faults :: !fault
    ensures forall k | 0 <= k < n && ValidMessage(users[k]) :: users[k].id in t'
  {
    hide Run, NamedBy, NamesApart, Issue, ValidMessage, Upserted;
    var start := Thread(BatchNext(users, 0, 0, []), None);
    if n == 0 {
      RunNone(t, start);
      faults, t', added, errors := [], t, 0, [];
    } else {
      var middle;
      faults, middle, added, errors := NamedBatchRun(t, users, n - 1, known);
      var u := users[n - 1];
      NothingInTheWay(middle, known, u);
      StaysNamedBy(middle, known, u);
      RunExtends(t, start, faults, false);
      t', added, errors := IssueBatch(middle, users, n - 1, added, errors);
      faults := faults + [false];
    }
  }

  lemma IssueBatch(t: Table, users: seq<User>, n: nat, added: nat, errors: seq<BatchError>)
    returns (t': Table, added': nat, errors': seq<BatchError>)
    requires n < |users| && NameFree(t, users[n].id, users[n].username)
    ensures Issue(t, Thread(BatchNext(users, n, added, errors), None), 0, false)
         == (t', Thread(BatchNext(users, n + 1, added', errors'), None))
    ensures t' == if ValidMessage(users[n]) then t[users[n].id := Upserted(t, users[n])] else t
  {
    hide RowFor, NameFree;
    if ValidMessage(users[n]) {
      t', added', errors' := t[users[n].id := Upserted(t, users[n])], added + 1, errors;
    } else {
      t', added', errors' := t, added, errors + [BatchError(n + 1, MessageError(users[n]).value)];
    }
  }

  /** A call that can insert id does so without any statement failing, when no name stands in the way. */
  lemma NamedInserts(call: Call, id: Id, t: Table, known: seq<User>) returns (faults: seq<bool>)
    requires CanInsert(call, id) && (forall u | u in Sent(call) :: u in known)
    requires t != map[] && NamedBy(t, known) && NamesApart(known)
    ensures var end := Run(t, Thread(Start(call), None), faults).0; id in end && NamedBy(end, known)
    ensures forall fault | fault in faults :: !fault
  {
    hide Run, Issue, NamedBy, NamesApart, NameFree, RowFor, Upserted;
    var start := Thread(Start(call), None);
    match call {
      case AddUser(u) =>
        assert u in Sent(call);
        NothingInTheWay(t, known, u);
        StaysNamedBy(t, known, u);
        IssueAddUser(t, u);
        RunNone(t, start);
        RunExtends(t, start, [], false);
        RunExtends(t, start, [] + [false], false);
        faults := [] + [false] + [false];
      case BatchAddUsers(users) =>
        var k :| 0 <= k < |users| && users[k].id == id && ValidMessage(users[k]);
        var t', added, errors;
        faults, t', added, errors := NamedBatchRun(t, users, k + 1, known);
      case SyncUsers(users) =>
        var k :| 0 <= k < |users| && users[k].id == id && id != 0;
        var t', answers;
        faults, t', answers := NamedSyncRun(t, users, k + 1, known);
        assert id in IdsOf(users, k + 1);
    }
  }

  lemma FirstWithId(users: seq<User>, id: Id) returns (k: nat)
    requires exists m :: 0 <= m < |users| && users[m].id == id
    ensures k < |users| && users[k].id == id && forall m | 0 <= m < k :: users[m].id != id
  {
    k := 0;
    while users[k].id != id
      invariant k < |users| && forall m | 0 <= m < k :: users[m].id != id
      decreases |users| - k
    {
      k := k + 1;
    }
  }

  /** A table with one row, for another user and with a name of its own */
  function Aside(id: Id, known: seq<User>): Table {
    var other: Id := if id == 1 then 2 else 1;
    map[other := RowFor(NO_USER).(username := FreshName(known))]
  }

  lemma AsideIsNamed(id: Id, known: seq<User>)
    ensures Aside(id, known) != map[] && id !in Aside(id, known) && NamedBy(Aside(id, known), known)
  {
    var other: Id := if id == 1 then 2 else 1;
    assert other in Aside(id, known);
  }

  /** Without any statement failing, a sync comes to its first message for a user and finds it missing. */
  lemma FindsMissingNamed(users: seq<User>, id: Id, t: Table, known: seq<User>)
    returns (faults: seq<bool>, t': Table, answers: seq<SyncReply>)
    requires id != 0 && (exists m :: 0 <= m < |users| && users[m].id == id) && id !in t
    requires (forall u | u in users :: u in known) && NamedBy(t, known) && NamesApart(known) && t != map[]
    ensures Run(t, Thread(SyncNext(users, []), None), faults) == (t', Thread(SyncWrite(users, answers, false), None))
    ensures |answers| < |users| && users[|answers|].id == id && id !in t' && t' != map[] && NamedBy(t', known)
    ensures forall fault | fault in faults :: !fault
  {
    hide Run, Issue, NamedBy, NamesApart;
    var k := FirstWithId(users, id);
    faults, t', answers := NamedSyncRun(t, users, k, known);
    assert id !in IdsOf(users, k);
    var some :| some in t;
    assert some in t'.Keys;
    IssueSyncNext(t', users, answers, 0, false);
    RunExtends(t, Thread(SyncNext(users, []), None), faults, false);
    faults := faults + [false];
  }

  /** A sync finds a user missing, and another call inserts it before the sync goes on, no statement failing. */
  lemma InsertedMeanwhile(calls: seq<Call>, i: nat, j: nat, id: Id)
    returns (t: Table, ticks: seq<Tick>, answers: seq<SyncReply>)
    requires i < |calls| && j < |calls| && i != j && calls[i].SyncUsers? && NamesApart(Sent(calls[i]) + Sent(calls[j]))
    requires CanInsert(calls[i], id) && CanInsert(calls[j], id)
    ensures |answers| < |calls[i].users| && FaultFree(ticks)
    ensures Exec(Initial(t, calls), ticks).threads[i] == Thread(SyncWrite(calls[i].users, answers, false), None)
    ensures var u, now := calls[i].users[|answers|], Exec(Initial(t, calls), ticks).table;
            u.id in now && NameFree(now, u.id, u.username)
  {
    var users, known := calls[i].users, Sent(calls[i]) + Sent(calls[j]);
    assert id != 0 && exists m :: 0 <= m < |users| && users[m].id == id;
    t := Aside(id, known);
    AsideIsNamed(id, known);
    assert (forall u | u in users :: u in known) && forall u | u in Sent(calls[j]) :: u in known;
    hide Run, Issue, Exec, Initial, NameFree, NamedBy, NamesApart, Aside, CanInsert, TicksOf, Sent, RowFor;
    var first, t1;
    first, t1, answers := FindsMissingNamed(users, id, t, known);
    var second := NamedInserts(calls[j], id, t1, known);
    NothingInTheWay(Run(t1, Thread(Start(calls[j]), None), second).0, known, users[|answers|]);
    OneThenOther(calls, t, i, j, first, t1, Thread(SyncWrite(users, answers, false), None), second);
    ticks := TicksOf(i, first) + TicksOf(j, second);
    NoFaults(i, first);
    NoFaults(j, second);
  }

  /** A sync finds a user missing, another call inserts it, and the sync overwrites it, no statement failing. */
  lemma CreationOverwritesFaultFree(calls: seq<Call>, i: nat, j: nat, id: Id) returns (t: Table, ticks: seq<Tick>)
    requires i < |calls| && j < |calls| && i != j && calls[i].SyncUsers? && AllNamesApart(calls)
    requires CanInsert(calls[i], id) && CanInsert(calls[j], id)
    ensures !CreationsAt(t, calls, ticks, i) && FaultFree(ticks)
  {
    hide CanInsert, NamesApart, Sent, Exec, Initial, NameFree, CreationsAt;
    var before, answers;
    t, before, answers := InsertedMeanwhile(calls, i, j, id);
    LateAddOverwrites(t, calls, before, i, calls[i].users, answers);
    ticks := before + [Tick(i, 0, false)];
  }

  /** The same without any statement failing, for calls whose messages for different users carry different
      usernames: every creation reported is an insert exactly when no other call can insert a user that a sync sends. */
  lemma CreationsAreInsertsExactlyFaultFree(calls: seq<Call>)
    requires AllNamesApart(calls)
    ensures (forall t: Table, ticks: seq<Tick>, i: nat | i < |calls| && FaultFree(ticks) ::
               CreationsAt(t, calls, ticks, i))
            <==> SoleInserters(calls)
  {
    hide CreationsAt;
    if SoleInserters(calls) {
      forall t: Table, ticks: seq<Tick>, i: nat | i < |calls| && FaultFree(ticks)
        ensures CreationsAt(t, calls, ticks, i)
      {
        CreationsInsertedIfSole(t, calls, ticks, i);
      }
    } else {
      var i: nat, j: nat, id: Id :| i < |calls| && j < |calls| && i != j && calls[i].SyncUsers?
                                    && CanInsert(calls[i], id) && CanInsert(calls[j], id);
      var t, ticks := CreationOverwritesFaultFree(calls, i, j, id);
    }
  }
}
