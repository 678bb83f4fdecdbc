/** When calls on different users do not disturb each other over the Postgres table: the usernames that they write
    or hold must be apart as well, since username is UNIQUE over all rows. */
module TableSerializability {
  import opened Values
  import opened FieldMask
  import opened StoreSpec
  import opened Handlers
  import opened PostgresTable
  import opened Serializability

  // ---------- The part of the table that a call works on ----------

  /** The ids that a call may look at or write, and the usernames that it may write or that its rows may hold */
  datatype Ward = Ward(ids: set<Id>, names: set<string>)

  function BatchNames(users: seq<User>): set<string> {
    set u | u in users && ValidMessage(u) :: u.username
  }

  function SyncNames(users: seq<User>): set<string> {
    set u | u in users && u.id != 0 :: u.username
  }

  /** An update with this mask writes the request's username. */
  predicate Renames(mask: seq<string>) {
    Known(mask) && Field.Username in Named(mask)
  }

  /** The usernames that a handler may still write, apart from those that it reads from its rows */
  function Names(l: Local): set<string> {
    match l
    case AddInsert(u) => {u.username}
    case UpdateFetch(req, mask) => if Renames(mask) then {req.username} else {}
    case UpdateWrite(u) => {u.username}
    case BatchNext(users, _, _, _) => BatchNames(users)
    case ActivityWrite(_, _, _, u) => {u.username}
    case SyncNext(users, _) => SyncNames(users)
    case SyncWrite(users, answers, _) =>
      SyncNames(users) + if |answers| < |users| then {users[|answers|].username} else {}
    case _ => {}
  }

  predicate StaysWithin(w: Ward, l: Local) {
    Keyed(l) && Ids(l) <= w.ids && Names(l) <= w.names
  }

  predicate Guards(w: Ward, th: Thread) {
    && StaysWithin(w, th.l)
    && (th.update.Some? ==> th.update.value.id in w.ids && th.update.value.username in w.names)
  }

  /** The rows of the ward hold usernames of the ward. */
  ghost predicate Holds(w: Ward, t: Table) {
    forall id | id in t && id in w.ids :: t[id].username in w.names
  }

  predicate SameRow(t: Table, v: Table, id: Id) {
    (id in t <==> id in v) && (id in t ==> t[id] == v[id])
  }

  /** A row outside the ward holds the name. */
  ghost predicate TakenOutside(t: Table, w: Ward, name: string) {
    exists id :: id in t && id !in w.ids && t[id].username == name
  }

  /** Two tables between which the ward can see no difference */
  ghost predicate Alike(w: Ward, t: Table, v: Table) {
    && (forall id: Id | id in w.ids :: SameRow(t, v, id))
    && (forall name | name in w.names :: TakenOutside(t, w, name) <==> TakenOutside(v, w, name))
  }

  ghost predicate SameOutside(ids: set<Id>, t: Table, v: Table) {
    forall id: Id | id !in ids :: SameRow(t, v, id)
  }

  lemma ResumeStaysWithin(w: Ward, l: Local, reply: Reply, now: Time)
    requires StaysWithin(w, l)
    requires reply.Found? && Ask(l, now).Get? ==> reply.user.id == Ask(l, now).id && reply.user.username in w.names
    requires Ask(l, now).Get? || !reply.Found?
    ensures StaysWithin(w, Resume(l, reply, now))
  {
    hide Edited, ValidMessage, MessageError, BatchIds, SyncIds, ActivityIds, BatchNames, SyncNames;
    hide ErrorOf, EmptyOr, UsersOr;
    match l {
      case UpdateFetch(req, mask) => FetchStaysWithin(w, req, mask, reply);
      case SyncNext(users, answers) => SyncCheckStaysWithin(w, users, answers, reply);
      case ActivityNext(acts, replies) => ActivityCheckStaysWithin(w, acts, replies, reply, now);
      case _ =>
    }
  }

  lemma SyncCheckStaysWithin(w: Ward, users: seq<User>, answers: seq<SyncReply>, reply: Reply)
    requires SyncIds(users) <= w.ids && SyncNames(users) <= w.names
    ensures StaysWithin(w, AfterSyncCheck(users, answers, reply))
  {
    if |answers| < |users| && users[|answers|].id != 0 {
      assert users[|answers|].id in SyncIds(users) && users[|answers|].username in SyncNames(users);
    }
    hide SyncIds, SyncNames;
  }

  lemma ActivityCheckStaysWithin(w: Ward, acts: seq<Activity>, replies: seq<ActivityReply>, reply: Reply, now: Time)
    requires ActivityIds(acts) <= w.ids
    ensures StaysWithin(w, AfterActivityCheck(acts, replies, reply, now))
  {
    if |replies| < |acts| {
      assert acts[|replies|].userId in ActivityIds(acts);
    }
    hide ActivityIds;
  }

  lemma FetchStaysWithin(w: Ward, req: User, mask: seq<string>, reply: Reply)
    requires req.id in w.ids && (Renames(mask) ==> req.username in w.names)
    requires reply.Found? ==> reply.user.id == req.id && reply.user.username in w.names
    ensures StaysWithin(w, AfterFetch(req, mask, reply))
  {
    if reply.Found? {
      MaskMeaning(reply.user, req, mask);
      hide Edited, Known, Named, PathError;
    }
  }

  // ---------- One statement ----------

  /** What one statement did to table t, and what it did to table v, look the same to the ward, and neither changed
      anything outside. */
  ghost predicate Framed(w: Ward, t: Table, v: Table, t': Table, v': Table) {
    && (forall id: Id | id in w.ids :: SameRow(t', v', id))
    && SameOutside(w.ids, t', t) && SameOutside(w.ids, v', v) && Holds(w, t')
  }

  lemma PutFramed(w: Ward, t: Table, v: Table, id: Id, row: Row)
    requires Alike(w, t, v) && Holds(w, t) && id in w.ids && row.username in w.names
    ensures Framed(w, t, v, t[id := row], v[id := row])
  {
  }

  lemma UpsertFramed(w: Ward, t: Table, v: Table, u: User)
    requires Alike(w, t, v) && Holds(w, t) && u.id in w.ids && u.username in w.names
    ensures Upsert(t, u).Some? <==> Upsert(v, u).Some?
    ensures Upsert(t, u).Some? ==> Framed(w, t, v, Upsert(t, u).value, Upsert(v, u).value)
  {
    assert SameRow(t, v, u.id);
    var row := if u.id in t then RowFor(u).(createDate := t[u.id].createDate) else RowFor(u);
    assert row.username == u.username;
    PutFramed(w, t, v, u.id, row);
    hide NameFree, RowFor, Alike, Framed;
  }

  lemma UpdateRowFramed(w: Ward, t: Table, v: Table, u: User)
    requires Alike(w, t, v) && Holds(w, t) && u.id in w.ids && u.username in w.names
    ensures UpdateRow(t, u).Some? <==> UpdateRow(v, u).Some?
    ensures UpdateRow(t, u).Some? ==> Framed(w, t, v, UpdateRow(t, u).value, UpdateRow(v, u).value)
  {
    assert SameRow(t, v, u.id);
    NothingFramed(w, t, v);
    if u.id in t {
      var row := RowFor(u).(createDate := t[u.id].createDate);
      assert row.username == u.username;
      PutFramed(w, t, v, u.id, row);
    }
    hide NameFree, RowFor, Alike, Framed;
  }

  lemma NothingFramed(w: Ward, t: Table, v: Table)
    requires Alike(w, t, v) && Holds(w, t)
    ensures Framed(w, t, v, t, v)
  {
  }

  lemma DeleteFramed(w: Ward, t: Table, v: Table, id: Id)
    requires Alike(w, t, v) && Holds(w, t) && id in w.ids
    ensures (id in t <==> id in v) && Framed(w, t, v, t - {id}, v - {id})
  {
    assert SameRow(t, v, id);
  }

  /** A statement of a thread over two tables that look alike to its ward takes the same way, keeps to the ward, and
      leaves the tables looking alike. */
  lemma IssueFramed(w: Ward, t: Table, v: Table, th: Thread, now: Time, fault: bool)
    requires Guards(w, th) && Holds(w, t) && Alike(w, t, v)
    ensures Issue(t, th, now, fault).1 == Issue(v, th, now, fault).1 && Guards(w, Issue(t, th, now, fault).1)
    ensures Framed(w, t, v, Issue(t, th, now, fault).0, Issue(v, th, now, fault).0)
  {
    var req := Ask(th.l, now);
    NothingFramed(w, t, v);
    assert forall id: Id | id in w.ids :: SameRow(t, v, id);
    hide Ask, Resume, Upsert, UpdateRow, Framed, Alike, Names, Ids, Keyed, Matches, InRole, RowFor;
    if fault {
      ResumeStaysWithin(w, th.l, Failed(Internal), now);
    } else if th.update.Some? {
      UpdateRowFramed(w, t, v, th.update.value);
      ResumeStaysWithin(w, th.l, Failed(Internal), now);
      ResumeStaysWithin(w, th.l, Ok, now);
    } else {
      RequestFramed(w, t, v, th.l, req, now);
    }
  }

  lemma AlikeAt(w: Ward, t: Table, v: Table, id: Id)
    requires Alike(w, t, v) && id in w.ids
    ensures SameRow(t, v, id)
  {
  }

  lemma RequestFramed(w: Ward, t: Table, v: Table, l: Local, req: Request, now: Time)
    requires StaysWithin(w, l) && Holds(w, t) && Alike(w, t, v) && Touches(req, w.ids) && req == Ask(l, now)
    requires req.Add? || req.Update? ==> req.user.username in w.names
    ensures var (a, b) := (Issue(t, Thread(l, None), now, false), Issue(v, Thread(l, None), now, false));
            a.1 == b.1 && Guards(w, a.1) && Framed(w, t, v, a.0, b.0)
  {
    NothingFramed(w, t, v);
    hide Ask, Resume, Upsert, Framed, Alike, Names, Ids, Keyed, Matches, InRole, StaysWithin, UserOf;
    match req {
      case Add(u) =>
        UpsertFramed(w, t, v, u);
        ResumeStaysWithin(w, l, Failed(Internal), now);
        ResumeStaysWithin(w, l, Ok, now);
      case Update(u) =>
        AlikeAt(w, t, v, u.id);
        ResumeStaysWithin(w, l, Failed(NotFound), now);
      case Delete(id) =>
        DeleteFramed(w, t, v, id);
        ResumeStaysWithin(w, l, Failed(NotFound), now);
        ResumeStaysWithin(w, l, Ok, now);
      case Get(id) =>
        AlikeAt(w, t, v, id);
        RowNames(id, t);
        ResumeStaysWithin(w, l, Query(t, req), now);
      case Exists(id) =>
        AlikeAt(w, t, v, id);
        ResumeStaysWithin(w, l, Query(t, req), now);
      case Nothing =>
        ResumeStaysWithin(w, l, Query(t, req), now);
    }
  }

  lemma RowNames(id: Id, t: Table)
    ensures id in t ==> UserOf(id, t[id]).id == id && UserOf(id, t[id]).username == t[id].username
  {
  }

  // ---------- Runs ----------

  /** A step of one thread: its reading of the clock, and whether its statement fails */
  datatype Turn = Turn(now: Time, fault: bool)

  /** The turns of one thread */
  function Turns(ticks: seq<Tick>, who: nat): seq<Turn> {
    if ticks == [] then []
    else
      var last := ticks[|ticks| - 1];
      Turns(ticks[..|ticks| - 1], who) + if last.who == who then [Turn(last.now, last.fault)] else []
  }

  lemma TurnsGrow(before: seq<Tick>, tick: Tick, i: nat)
    ensures Turns(before + [tick], i)
         == if i == tick.who then Turns(before, i) + [Turn(tick.now, tick.fault)] else Turns(before, i)
  {
    assert (before + [tick])[..|before|] == before;
  }

  /** A thread alone */
  function Alone(t: Table, th: Thread, turns: seq<Turn>): (Table, Thread) {
    if turns == [] then (t, th)
    else
      var (t', th') := Alone(t, th, turns[..|turns| - 1]);
      Issue(t', th', turns[|turns| - 1].now, turns[|turns| - 1].fault)
  }

  /** n statements at this reading of the clock, none of which fails */
  function Calm(n: nat, now: Time): (turns: seq<Turn>)
    ensures |turns| == n && forall turn | turn in turns :: !turn.fault
  {
    seq(n, _ => Turn(now, false))
  }

  lemma CalmNext(t: Table, th: Thread, n: nat, now: Time)
    ensures Alone(t, th, Calm(n + 1, now))
         == Issue(Alone(t, th, Calm(n, now)).0, Alone(t, th, Calm(n, now)).1, now, false)
  {
    assert Calm(n + 1, now) == Calm(n, now) + [Turn(now, false)];
    hide Issue, Alone, Calm;
  }

  lemma CalmStart(t: Table, th: Thread, now: Time)
    ensures Alone(t, th, Calm(0, now)) == (t, th)
  {
  }

  /** The wards have neither users nor usernames in common. */
  ghost predicate WardsApart(wards: seq<Ward>) {
    forall i, j | 0 <= i < |wards| && 0 <= j < |wards| && i != j ::
      wards[i].ids !! wards[j].ids && wards[i].names !! wards[j].names
  }

  /** Every thread keeps to its ward, and the rows there hold names of the ward. */
  ghost predicate Warded(wards: seq<Ward>, st: State) {
    && |wards| == |st.threads|
    && forall i | 0 <= i < |wards| :: Guards(wards[i], st.threads[i]) && Holds(wards[i], st.table)
  }

  /** The ids of no ward */
  ghost predicate Unwarded(wards: seq<Ward>, id: Id) {
    forall i | 0 <= i < |wards| :: id !in wards[i].ids
  }

  /** Thread who is where it would be had it run alone, and its ward sees the table that it would have left. */
  ghost predicate AsAlone(wards: seq<Ward>, st0: State, st: State, who: nat, turns: seq<Turn>)
    requires who < |wards| == |st0.threads|
  {
    var (t, th) := Alone(st0.table, st0.threads[who], turns);
    && |st.threads| == |st0.threads| && st.threads[who] == th && Guards(wards[who], th)
    && Holds(wards[who], st.table) && Alike(wards[who], st.table, t)
  }

  lemma AlikeAfter(w: Ward, t: Table, v: Table, t': Table, v': Table)
    requires Alike(w, t, v) && Framed(w, t, v, t', v')
    ensures Alike(w, t', v') && Holds(w, t')
  {
    forall name | name in w.names ensures TakenOutside(t', w, name) <==> TakenOutside(v', w, name) {
      SameTaken(w, t, t', name);
      SameTaken(w, v, v', name);
    }
  }

  lemma SameTaken(w: Ward, t: Table, t': Table, name: string)
    requires SameOutside(w.ids, t', t)
    ensures TakenOutside(t', w, name) <==> TakenOutside(t, w, name)
  {
    if TakenOutside(t, w, name) {
      var id :| id in t && id !in w.ids && t[id].username == name;
      assert SameRow(t', t, id);
    }
    if TakenOutside(t', w, name) {
      var id :| id in t' && id !in w.ids && t'[id].username == name;
      assert SameRow(t', t, id);
    }
  }

  lemma MoverStaysAsAlone(wards: seq<Ward>, st0: State, st: State, tick: Tick, turns: seq<Turn>)
    requires tick.who < |wards| == |st0.threads| && AsAlone(wards, st0, st, tick.who, turns)
    ensures AsAlone(wards, st0, Next(st, tick), tick.who, turns + [Turn(tick.now, tick.fault)])
    ensures SameOutside(wards[tick.who].ids, Next(st, tick).table, st.table)
  {
    var w := wards[tick.who];
    var (t, th) := Alone(st0.table, st0.threads[tick.who], turns);
    IssueFramed(w, st.table, t, th, tick.now, tick.fault);
    AlikeAfter(w, st.table, t, Issue(st.table, th, tick.now, tick.fault).0, Issue(t, th, tick.now, tick.fault).0);
    hide Alike, Holds, Guards, Issue, Alone, SameOutside;
  }

  lemma SameOutsideBack(ids: set<Id>, t: Table, t': Table)
    requires SameOutside(ids, t', t)
    ensures SameOutside(ids, t, t')
  {
    forall id: Id | id !in ids ensures SameRow(t, t', id) {
      assert SameRow(t', t, id);
    }
  }

  ghost predicate AllAsAlone(wards: seq<Ward>, st0: State, st: State, ticks: seq<Tick>)
    requires |wards| == |st0.threads|
  {
    && |st.threads| == |st0.threads|
    && (forall i | 0 <= i < |wards| :: AsAlone(wards, st0, st, i, Turns(ticks, i)))
    && (forall id: Id | Unwarded(wards, id) :: SameRow(st.table, st0.table, id))
  }

  lemma OthersStayAsAlone(wards: seq<Ward>, st0: State, st: State, tick: Tick, who: nat, turns: seq<Turn>)
    requires |wards| == |st0.threads| == |st.threads| && tick.who < |wards| && who < |wards| && who != tick.who
    requires WardsApart(wards) && AsAlone(wards, st0, st, who, turns)
    requires Holds(wards[tick.who], st.table) && Holds(wards[tick.who], Next(st, tick).table)
    requires SameOutside(wards[tick.who].ids, Next(st, tick).table, st.table)
    ensures AsAlone(wards, st0, Next(st, tick), who, turns)
  {
    SameOutsideBack(wards[tick.who].ids, st.table, Next(st, tick).table);
    hide Alike, Holds, Guards, Issue, Alone, SameOutside;
  }

  lemma StepAsAlone(wards: seq<Ward>, st0: State, st: State, before: seq<Tick>, tick: Tick)
    requires |wards| == |st0.threads| && WardsApart(wards) && AllAsAlone(wards, st0, st, before)
    ensures AllAsAlone(wards, st0, Next(st, tick), before + [tick])
  {
    forall i: nat
      ensures Turns(before + [tick], i)
           == if i == tick.who then Turns(before, i) + [Turn(tick.now, tick.fault)] else Turns(before, i)
    {
      TurnsGrow(before, tick, i);
    }
    hide Issue, Turns, WardsApart, Alone, Alike, Holds, Guards;
    if tick.who < |wards| {
      MoverStaysAsAlone(wards, st0, st, tick, Turns(before, tick.who));
      forall i | 0 <= i < |wards| && i != tick.who ensures AsAlone(wards, st0, Next(st, tick), i, Turns(before, i)) {
        OthersStayAsAlone(wards, st0, st, tick, i, Turns(before, i));
      }
      forall id: Id | Unwarded(wards, id) ensures SameRow(Next(st, tick).table, st0.table, id) {
        assert SameRow(Next(st, tick).table, st.table, id) && SameRow(st.table, st0.table, id);
      }
    }
  }

  /** In any interleaving with any statements failing, every thread is where it would be alone. */
  lemma {:induction false} EveryThreadAsAlone(wards: seq<Ward>, st0: State, ticks: seq<Tick>)
    requires Warded(wards, st0) && WardsApart(wards)
    ensures AllAsAlone(wards, st0, Exec(st0, ticks), ticks)
    decreases |ticks|
  {
    if ticks == [] {
    } else {
      var before, tick := ticks[..|ticks| - 1], ticks[|ticks| - 1];
      EveryThreadAsAlone(wards, st0, before);
      hide AllAsAlone, WardsApart, Next;
      StepAsAlone(wards, st0, Exec(st0, before), before, tick);
      assert before + [tick] == ticks;
    }
  }

  // ---------- Any two schedules, and every serial order ----------

  /** Every thread is where it would be alone, the rows of its users are the ones that it would leave alone, and the
      rows of no thread's users are untouched. */
  ghost predicate EndsAsAlone(wards: seq<Ward>, st0: State, st: State, ticks: seq<Tick>)
    requires |wards| == |st0.threads|
  {
    && |st.threads| == |st0.threads|
    && (forall i | 0 <= i < |wards| :: OneEndsAsAlone(wards, st0, st, i, Turns(ticks, i)))
    && (forall id: Id | Unwarded(wards, id) :: SameRow(st.table, st0.table, id))
  }

  ghost predicate OneEndsAsAlone(wards: seq<Ward>, st0: State, st: State, who: nat, turns: seq<Turn>)
    requires who < |wards| == |st0.threads|
  {
    var (t, th) := Alone(st0.table, st0.threads[who], turns);
    && |st.threads| == |st0.threads| && st.threads[who] == th
    && forall id: Id | id in wards[who].ids :: SameRow(st.table, t, id)
  }

  lemma SameEnds(wards: seq<Ward>, st0: State, st: State, st': State, one: seq<Tick>, other: seq<Tick>, id: Id)
    requires |wards| == |st0.threads| && EndsAsAlone(wards, st0, st, one) && EndsAsAlone(wards, st0, st', other)
    requires forall i | 0 <= i < |wards| :: Turns(one, i) == Turns(other, i)
    ensures SameRow(st.table, st'.table, id)
  {
    hide Turns, Alone;
    if Unwarded(wards, id) {
      assert SameRow(st.table, st0.table, id) && SameRow(st'.table, st0.table, id);
    } else {
      var i :| 0 <= i < |wards| && id in wards[i].ids;
      assert OneEndsAsAlone(wards, st0, st, i, Turns(one, i)) && OneEndsAsAlone(wards, st0, st', i, Turns(other, i));
      var t := Alone(st0.table, st0.threads[i], Turns(one, i)).0;
      assert SameRow(st.table, t, id) && SameRow(st'.table, t, id);
    }
  }

  lemma SameThreads(wards: seq<Ward>, st0: State, st: State, st': State, one: seq<Tick>, other: seq<Tick>)
    requires |wards| == |st0.threads| && EndsAsAlone(wards, st0, st, one) && EndsAsAlone(wards, st0, st', other)
    requires forall i | 0 <= i < |wards| :: Turns(one, i) == Turns(other, i)
    ensures st.threads == st'.threads
  {
    hide Turns, Alone, SameRow;
    forall i | 0 <= i < |wards| ensures st.threads[i] == st'.threads[i] {
      assert OneEndsAsAlone(wards, st0, st, i, Turns(one, i)) && OneEndsAsAlone(wards, st0, st', i, Turns(other, i));
    }
  }

  /** Two runs in which every thread comes out as alone, each with the same turns, end alike. */
  lemma SameState(wards: seq<Ward>, st0: State, st: State, st': State, one: seq<Tick>, other: seq<Tick>)
    requires |wards| == |st0.threads| && EndsAsAlone(wards, st0, st, one) && EndsAsAlone(wards, st0, st', other)
    requires forall i | 0 <= i < |wards| :: Turns(one, i) == Turns(other, i)
    ensures st == st'
  {
    hide EndsAsAlone, Turns, SameRow;
    SameThreads(wards, st0, st, st', one, other);
    forall id: Id ensures SameRow(st.table, st'.table, id) {
      SameEnds(wards, st0, st, st', one, other, id);
    }
    SameTable(st.table, st'.table);
  }

  lemma SameTable(t: Table, v: Table)
    requires forall id: Id :: SameRow(t, v, id)
    ensures t == v
  {
    forall id | id in t ensures id in v && t[id] == v[id] {
      assert SameRow(t, v, id);
    }
    forall id | id in v ensures id in t {
      assert SameRow(t, v, id);
    }
  }

  /** Calls whose wards are apart: two schedules in which each thread has the same readings of the clock and the same
      failures end in the same table and give every caller the same answer, however their statements interleave. */
  lemma ApartCallsDoNotInterfere(wards: seq<Ward>, st0: State, one: seq<Tick>, other: seq<Tick>)
    requires Warded(wards, st0) && WardsApart(wards)
    requires forall i | 0 <= i < |wards| :: Turns(one, i) == Turns(other, i)
    ensures Exec(st0, one) == Exec(st0, other)
  {
    EveryThreadAsAlone(wards, st0, one);
    EveryThreadAsAlone(wards, st0, other);
    hide AllAsAlone, EndsAsAlone, WardsApart, Warded, Exec, Turns;
    SameState(wards, st0, Exec(st0, one), Exec(st0, other), one, other);
  }

  /** The turns of thread who, one after the other */
  function TicksOf(who: nat, turns: seq<Turn>): seq<Tick> {
    seq(|turns|, i requires 0 <= i < |turns| => Tick(who, turns[i].now, turns[i].fault))
  }

  /** The serial schedule: one thread after the other, in the given order, each with its own turns */
  function InOrder(ticks: seq<Tick>, order: seq<nat>): seq<Tick> {
    if order == [] then []
    else
      var who := order[|order| - 1];
      InOrder(ticks, order[..|order| - 1]) + TicksOf(who, Turns(ticks, who))
  }

  lemma {:induction false} TurnsAppend(first: seq<Tick>, rest: seq<Tick>, who: nat)
    ensures Turns(first + rest, who) == Turns(first, who) + Turns(rest, who)
    decreases |rest|
  {
    if rest == [] {
      assert first + rest == first;
    } else {
      var init := rest[..|rest| - 1];
      assert (first + rest)[..|first + rest| - 1] == first + init;
      TurnsAppend(first, init, who);
    }
  }

  lemma {:induction false} TurnsOfOne(who: nat, turns: seq<Turn>, i: nat)
    ensures Turns(TicksOf(who, turns), i) == if i == who then turns else []
    decreases |turns|
  {
    if turns == [] {
      assert TicksOf(who, turns) == [];
    } else {
      var init, last := turns[..|turns| - 1], turns[|turns| - 1];
      TurnsOfOne(who, init, i);
      assert turns == init + [last];
      assert TicksOf(who, turns) == TicksOf(who, init) + [Tick(who, last.now, last.fault)];
      hide TicksOf, Turns;
      TurnsGrow(TicksOf(who, init), Tick(who, last.now, last.fault), i);
    }
  }

  lemma {:induction false} TurnsInOrder(ticks: seq<Tick>, order: seq<nat>, i: nat)
    requires NoRepeats(order)
    ensures Turns(InOrder(ticks, order), i) == if i in order then Turns(ticks, i) else []
    decreases |order|
  {
    if order != [] {
      var who, rest := order[|order| - 1], order[..|order| - 1];
      TurnsInOrder(ticks, rest, i);
      TurnsAppend(InOrder(ticks, rest), TicksOf(who, Turns(ticks, who)), i);
      TurnsOfOne(who, Turns(ticks, who), i);
      assert i in order <==> i == who || i in rest;
    }
  }

  /** Over the table, any interleaving of calls whose wards are apart, with any statements failing, is equivalent to
      every serial order of them. */
  lemma EveryOrderAgrees(wards: seq<Ward>, t: Table, calls: seq<Call>, ticks: seq<Tick>, order: seq<nat>)
    requires Warded(wards, Initial(t, calls)) && WardsApart(wards) && NoRepeats(order)
    requires forall i: nat | i < |calls| :: i in order
    ensures Exec(Initial(t, calls), ticks) == Exec(Initial(t, calls), InOrder(ticks, order))
  {
    forall i: nat | i < |calls| ensures Turns(ticks, i) == Turns(InOrder(ticks, order), i) {
      TurnsInOrder(ticks, order, i);
    }
    ApartCallsDoNotInterfere(wards, Initial(t, calls), ticks, InOrder(ticks, order));
  }

  /** The usernames of the rows for these users */
  function HeldNames(t: Table, ids: set<Id>): set<string> {
    set id | id in ids && id in t :: t[id].username
  }

  function WardOf(t: Table, call: Call): Ward {
    Ward(Ids(Start(call)), Names(Start(call)) + HeldNames(t, Ids(Start(call))))
  }

  function WardsOf(t: Table, calls: seq<Call>): seq<Ward> {
    seq(|calls|, i requires 0 <= i < |calls| => WardOf(t, calls[i]))
  }

  /** The calls look only at users that they name, no two at the same, and no username that one can write is one
      that another can write or that a row of another holds. */
  ghost predicate CallsApart(t: Table, calls: seq<Call>) {
    && (forall i | 0 <= i < |calls| :: Keyed(Start(calls[i])))
    && forall i, j | 0 <= i < |calls| && 0 <= j < |calls| && i != j ::
         && Ids(Start(calls[i])) !! Ids(Start(calls[j]))
         && Names(Start(calls[i])) !! Names(Start(calls[j])) + HeldNames(t, Ids(Start(calls[j])))
  }

  lemma CallsHaveWards(t: Table, calls: seq<Call>)
    requires NamesUnique(t) && CallsApart(t, calls)
    ensures Warded(WardsOf(t, calls), Initial(t, calls)) && WardsApart(WardsOf(t, calls))
  {
    hide Ids, Names, Keyed, Start;
    forall i, j | 0 <= i < |calls| && 0 <= j < |calls| && i != j
      ensures HeldNames(t, Ids(Start(calls[i]))) !! HeldNames(t, Ids(Start(calls[j])))
    {
    }
  }

  /** Over the table, any interleaving of such calls, with any statements failing, is equivalent to every serial
      order of them. */
  lemma EverySerialOrderAgrees(t: Table, calls: seq<Call>, ticks: seq<Tick>, order: seq<nat>)
    requires NamesUnique(t) && CallsApart(t, calls) && NoRepeats(order)
    requires forall i: nat | i < |calls| :: i in order
    ensures Exec(Initial(t, calls), ticks) == Exec(Initial(t, calls), InOrder(ticks, order))
  {
    CallsHaveWards(t, calls);
    hide WardsApart, Warded;
    EveryOrderAgrees(WardsOf(t, calls), t, calls, ticks, order);
  }
}
