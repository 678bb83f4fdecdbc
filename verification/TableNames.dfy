/** Exactly when calls on different users are equivalent to every serial order of them over the Postgres table,
    whatever rows it has: not more than one of them may write usernames, and no other may then free one. */
module TableNames {
  import opened Values
  import opened FieldMask
  import opened StoreSpec
  import opened Handlers
  import opened PostgresTable
  import opened Serializability
  import opened TableSerializability
  import TableHonesty
  import TableCreations

  // ---------- The calls ----------

  /** The call can write a username to a row that held another. */
  predicate WritesName(call: Call) {
    match call
    case UpdateUser(req, mask) => req.Some? && req.value.id != 0 && Renames(mask)
    case BatchAddUsers(users) => exists u | u in users :: ValidMessage(u)
    case SyncUsers(users) => exists u | u in users :: u.id != 0
    case _ => false
  }

  /** The call can remove a row, and so free the username that it held. */
  predicate FreesName(call: Call) {
    call.DeleteUser? && call.id != 0
  }

  /** When a call can write a username, no other call can write or free one. */
  ghost predicate NamesSettled(calls: seq<Call>) {
    forall i, j | 0 <= i < |calls| && 0 <= j < |calls| && i != j && WritesName(calls[i]) ::
      !WritesName(calls[j]) && !FreesName(calls[j])
  }

  /** The calls look only at users that they name, and no two at the same. */
  ghost predicate OnDifferentUsers(calls: seq<Call>) {
    && (forall i | 0 <= i < |calls| :: Keyed(Start(calls[i])))
    && forall i, j | 0 <= i < |calls| && 0 <= j < |calls| && i != j :: Ids(Start(calls[i])) !! Ids(Start(calls[j]))
  }

  // ---------- Threads that leave usernames alone ----------

  /** The thread inserts and deletes nothing, and writes no username but those that it reads from its rows. */
  predicate Quiet(l: Local) {
    match l
    case GetFetch(_) => true
    case UpdateFetch(_, mask) => !Renames(mask)
    case UpdateWrite(_) => true
    case BatchNext(users, _, _, _) => BatchIds(users) == {}
    case ActivityNext(_, _) => true
    case ActivityFetch(_, _, _) => true
    case ActivityWrite(_, _, _, _) => true
    case SyncNext(users, _) => SyncIds(users) == {}
    case Done(_) => true
    case _ => false
  }

  /** The row of u, if there is one, holds the username of u. */
  predicate Carried(t: Table, u: User) {
    u.id in t ==> t[u.id].username == u.username
  }

  /** What the thread is about to write leaves the username of its row. */
  predicate Steady(ids: set<Id>, th: Thread, t: Table) {
    && Quiet(th.l) && Ids(th.l) <= ids
    && (th.l.UpdateWrite? ==> Carried(t, th.l.edited))
    && (th.l.ActivityWrite? ==> Carried(t, th.l.user))
    && (th.update.Some? ==> th.update.value.id in ids && Carried(t, th.update.value))
  }

  predicate SameShape(t: Table, v: Table) {
    t.Keys == v.Keys && forall id | id in t :: t[id].username == v[id].username
  }

  ghost predicate SameRows(ids: set<Id>, t: Table, v: Table) {
    forall id: Id | id in ids :: SameRow(t, v, id)
  }

  lemma StartIsQuiet(call: Call)
    requires Keyed(Start(call)) && !WritesName(call) && !FreesName(call)
    ensures Quiet(Start(call)) && !Start(call).UpdateWrite? && !Start(call).ActivityWrite?
  {
  }

  lemma StartWithoutNames(call: Call)
    requires !WritesName(call) && Keyed(Start(call))
    ensures Names(Start(call)) == {}
  {
  }

  lemma NoneValid(users: seq<User>)
    requires BatchIds(users) == {}
    ensures forall u | u in users :: !ValidMessage(u)
  {
    assert forall u | u in users && ValidMessage(u) :: u.id in BatchIds(users);
  }

  lemma NoneNamed(users: seq<User>)
    requires SyncIds(users) == {}
    ensures forall u | u in users :: u.id == 0
  {
    assert forall u | u in users && u.id != 0 :: u.id in SyncIds(users);
  }

  lemma QuietAsk(l: Local, now: Time)
    requires Quiet(l)
    ensures Keyed(l)
    ensures var req := Ask(l, now);
            req.Get? || req.Exists? || req.Nothing? || (l.UpdateWrite? && req == Update(l.edited))
            || (l.ActivityWrite? && req == Update(l.user))
  {
    match l {
      case BatchNext(users, _, _, _) => NoneValid(users);
      case SyncNext(users, _) => NoneNamed(users);
      case _ =>
    }
  }

  /** How a quiet thread goes on when it is given no user */
  lemma QuietResume(ids: set<Id>, l: Local, t: Table, reply: Reply, now: Time)
    requires Quiet(l) && Ids(l) <= ids && !reply.Found?
    ensures Steady(ids, Thread(Resume(l, reply, now), None), t)
  {
    hide ErrorOf, EmptyOr, UsersOr, MessageError, ValidMessage, BatchIds, SyncIds, ActivityIds, Renames, Edited;
    match l {
      case SyncNext(users, answers) => QuietSyncNext(users, answers, reply);
      case ActivityNext(acts, replies) => QuietActivityNext(acts, replies, reply, now);
      case _ =>
    }
  }

  lemma QuietSyncNext(users: seq<User>, answers: seq<SyncReply>, reply: Reply)
    requires SyncIds(users) == {}
    ensures var l := AfterSyncCheck(users, answers, reply); l.Done? || (l.SyncNext? && l.users == users)
  {
    NoneNamed(users);
  }

  lemma QuietActivityNext(acts: seq<Activity>, replies: seq<ActivityReply>, reply: Reply, now: Time)
    ensures var l := AfterActivityCheck(acts, replies, reply, now);
            Quiet(l) && !l.UpdateWrite? && !l.ActivityWrite? && Ids(l) <= ActivityIds(acts)
  {
    if |replies| < |acts| {
      assert acts[|replies|].userId in ActivityIds(acts);
    }
    hide ActivityIds;
  }

  /** How it goes on with the user of its row */
  lemma QuietFound(ids: set<Id>, l: Local, t: Table, now: Time)
    requires Quiet(l) && Ids(l) <= ids && Ask(l, now).Get? && Ask(l, now).id in t
    ensures var id := Ask(l, now).id; Steady(ids, Thread(Resume(l, Found(UserOf(id, t[id])), now), None), t)
  {
    hide ActivityIds, Renames, Edited;
    match l {
      case UpdateFetch(req, mask) => QuietFetch(req, mask, UserOf(req.id, t[req.id]));
      case _ =>
    }
  }

  lemma QuietFetch(req: User, mask: seq<string>, u: User)
    requires !Renames(mask)
    ensures var l := AfterFetch(req, mask, Found(u));
            l.Done? || (l.UpdateWrite? && l.edited.id == u.id && l.edited.username == u.username)
  {
    MaskMeaning(u, req, mask);
    hide Edited, Known, Named, PathError;
  }

  /** What a statement did to table t, and what it did to table v, is the same for these users, and it left all
      other rows and all usernames as they were. */
  ghost predicate QuietlyFramed(ids: set<Id>, t: Table, t': Table, v': Table) {
    SameRows(ids, t', v') && SameOutside(ids, t', t) && SameShape(t', t)
  }

  lemma QuietPut(ids: set<Id>, t: Table, v: Table, id: Id, row: Row)
    requires SameRows(ids, t, v) && id in ids && id in t && t[id].username == row.username
    ensures QuietlyFramed(ids, t, t[id := row], v[id := row])
  {
  }

  lemma QuietUpdateFramed(ids: set<Id>, t: Table, v: Table, u: User)
    requires NamesUnique(t) && NamesUnique(v) && SameRows(ids, t, v) && u.id in ids && Carried(t, u)
    ensures UpdateRow(t, u).Some? && UpdateRow(v, u).Some?
    ensures QuietlyFramed(ids, t, UpdateRow(t, u).value, UpdateRow(v, u).value)
  {
    assert SameRow(t, v, u.id);
    assert QuietlyFramed(ids, t, t, v);
    if u.id in t {
      assert RowFor(u).username == u.username;
      QuietPut(ids, t, v, u.id, RowFor(u).(createDate := t[u.id].createDate));
    }
    hide NameFree, NamesUnique, RowFor, UpdateRow, QuietlyFramed, SameRows;
  }

  /** A statement of a quiet thread over two tables that agree on its users takes the same way. */
  lemma QuietStep(ids: set<Id>, t: Table, v: Table, th: Thread, now: Time, fault: bool)
    requires Steady(ids, th, t) && NamesUnique(t) && NamesUnique(v) && SameRows(ids, t, v)
    ensures Issue(t, th, now, fault).1 == Issue(v, th, now, fault).1
    ensures Steady(ids, Issue(t, th, now, fault).1, Issue(t, th, now, fault).0)
    ensures QuietlyFramed(ids, t, Issue(t, th, now, fault).0, Issue(v, th, now, fault).0)
  {
    assert QuietlyFramed(ids, t, t, v);
    hide Ask, Resume, UpdateRow, Upsert, QuietlyFramed, SameRows, NamesUnique, Quiet, Ids, Matches, InRole;
    if fault {
      QuietResume(ids, th.l, t, Failed(Internal), now);
    } else if th.update.Some? {
      var u := th.update.value;
      QuietUpdateFramed(ids, t, v, u);
      QuietResume(ids, th.l, UpdateRow(t, u).value, Ok, now);
    } else {
      QuietRequest(ids, t, v, th.l, now);
    }
  }

  lemma QuietRequest(ids: set<Id>, t: Table, v: Table, l: Local, now: Time)
    requires Steady(ids, Thread(l, None), t) && SameRows(ids, t, v)
    ensures var (a, b) := (Issue(t, Thread(l, None), now, false), Issue(v, Thread(l, None), now, false));
            a.1 == b.1 && a.0 == t && b.0 == v && Steady(ids, a.1, t)
  {
    var req := Ask(l, now);
    QuietAsk(l, now);
    hide Ask, Resume, Upsert, UpdateRow, Quiet, Ids, Matches, InRole, UserOf, Keyed;
    match req {
      case Get(id) =>
        assert SameRow(t, v, id);
        if id in t {
          QuietFound(ids, l, t, now);
        } else {
          QuietResume(ids, l, t, Failed(NotFound), now);
        }
      case Exists(id) =>
        assert SameRow(t, v, id);
        QuietResume(ids, l, t, Present(id in t), now);
      case Update(u) =>
        assert SameRow(t, v, u.id);
        QuietResume(ids, l, t, Failed(NotFound), now);
      case Nothing =>
        QuietResume(ids, l, t, Ok, now);
    }
  }

  // ---------- One call that writes usernames among quiet ones ----------

  /** A quiet thread is where it would be alone, and the rows of its users are the ones that it would have left. */
  ghost predicate QuietAsAlone(ids: set<Id>, st0: State, st: State, who: nat, turns: seq<Turn>)
    requires who < |st0.threads|
  {
    var (t, th) := Alone(st0.table, st0.threads[who], turns);
    && |st.threads| == |st0.threads| && st.threads[who] == th && Steady(ids, th, st.table)
    && SameRows(ids, st.table, t) && NamesUnique(t)
  }

  lemma QuietMover(ids: set<Id>, st0: State, st: State, tick: Tick, turns: seq<Turn>)
    requires tick.who < |st0.threads| && QuietAsAlone(ids, st0, st, tick.who, turns) && NamesUnique(st.table)
    ensures QuietAsAlone(ids, st0, Next(st, tick), tick.who, turns + [Turn(tick.now, tick.fault)])
    ensures SameOutside(ids, Next(st, tick).table, st.table) && SameShape(Next(st, tick).table, st.table)
  {
    var (t, th) := Alone(st0.table, st0.threads[tick.who], turns);
    QuietStep(ids, st.table, t, th, tick.now, tick.fault);
    StepKeepsNamesUnique(t, th, tick.now, tick.fault);
    hide SameRows, SameOutside, SameShape, Issue, Alone, NamesUnique, Steady;
  }

  /** Another thread changes nothing for a quiet one, whose users it does not touch. */
  lemma QuietOther(ids: set<Id>, others: set<Id>, st0: State, st: State, tick: Tick, who: nat, turns: seq<Turn>)
    requires who < |st0.threads| && who != tick.who && QuietAsAlone(ids, st0, st, who, turns)
    requires ids !! others && SameOutside(others, Next(st, tick).table, st.table)
    ensures QuietAsAlone(ids, st0, Next(st, tick), who, turns)
  {
    hide Issue, Alone, NamesUnique, Quiet;
    forall id: Id | id in ids ensures SameRow(Next(st, tick).table, st.table, id) {
    }
    var (t, th) := Alone(st0.table, st0.threads[who], turns);
    forall id: Id | id in ids ensures SameRow(Next(st, tick).table, t, id) {
      assert SameRow(st.table, t, id) && SameRow(Next(st, tick).table, st.table, id);
    }
    assert Steady(ids, th, Next(st, tick).table);
  }

  /** A quiet thread changes nothing for one that writes usernames. */
  lemma NamerAside(wards: seq<Ward>, ids: set<Id>, st0: State, st: State, tick: Tick, w: nat, turns: seq<Turn>)
    requires w < |wards| == |st0.threads| && w != tick.who && TableSerializability.AsAlone(wards, st0, st, w, turns)
    requires wards[w].ids !! ids && SameOutside(ids, Next(st, tick).table, st.table)
    requires SameShape(Next(st, tick).table, st.table)
    ensures TableSerializability.AsAlone(wards, st0, Next(st, tick), w, turns)
  {
    hide Issue, Alone, Guards;
    var t, t', v := st.table, Next(st, tick).table, Alone(st0.table, st0.threads[w], turns).0;
    forall id: Id | id in wards[w].ids ensures SameRow(t', v, id) {
      assert SameRow(t', t, id) && SameRow(t, v, id);
    }
    forall name | name in wards[w].names
      ensures TakenOutside(t', wards[w], name) <==> TakenOutside(v, wards[w], name)
    {
      assert TakenOutside(t, wards[w], name) <==> TakenOutside(v, wards[w], name);
    }
  }

  /** All threads but w are quiet, and all are as if alone. */
  ghost predicate AllWithNamer(w: nat, wards: seq<Ward>, st0: State, st: State, ticks: seq<Tick>)
    requires w < |wards| == |st0.threads|
  {
    && |st.threads| == |st0.threads| && NamesUnique(st.table)
    && TableSerializability.AsAlone(wards, st0, st, w, Turns(ticks, w))
    && (forall i | 0 <= i < |wards| && i != w :: QuietAsAlone(wards[i].ids, st0, st, i, Turns(ticks, i)))
    && (forall id: Id | Unwarded(wards, id) :: SameRow(st.table, st0.table, id))
  }

  ghost predicate IdsApart(wards: seq<Ward>) {
    forall i, j | 0 <= i < |wards| && 0 <= j < |wards| && i != j :: wards[i].ids !! wards[j].ids
  }

  lemma UnwardedStays(wards: seq<Ward>, who: nat, t0: Table, t: Table, t': Table)
    requires who < |wards| && SameOutside(wards[who].ids, t', t)
    requires forall id: Id | Unwarded(wards, id) :: SameRow(t, t0, id)
    ensures forall id: Id | Unwarded(wards, id) :: SameRow(t', t0, id)
  {
    forall id: Id | Unwarded(wards, id) ensures SameRow(t', t0, id) {
      assert SameRow(t', t, id) && SameRow(t, t0, id);
    }
  }

  /** The quiet threads that do not move */
  lemma OthersStayQuiet(w: nat, wards: seq<Ward>, st0: State, st: State, before: seq<Tick>, tick: Tick)
    requires w < |wards| == |st0.threads| && IdsApart(wards) && AllWithNamer(w, wards, st0, st, before)
    requires tick.who < |wards| && SameOutside(wards[tick.who].ids, Next(st, tick).table, st.table)
    ensures forall i | 0 <= i < |wards| && i != w && i != tick.who ::
              QuietAsAlone(wards[i].ids, st0, Next(st, tick), i, Turns(before + [tick], i))
  {
    hide Turns, Next, QuietAsAlone, TableSerializability.AsAlone, Unwarded, SameOutside, NamesUnique;
    forall i | 0 <= i < |wards| && i != w && i != tick.who
      ensures QuietAsAlone(wards[i].ids, st0, Next(st, tick), i, Turns(before + [tick], i))
    {
      TurnsGrow(before, tick, i);
      QuietOther(wards[i].ids, wards[tick.who].ids, st0, st, tick, i, Turns(before, i));
    }
  }

  /** The thread that moves, and the one that writes usernames */
  lemma MoverWithNamer(w: nat, wards: seq<Ward>, st0: State, st: State, before: seq<Tick>, tick: Tick)
    requires w < |wards| == |st0.threads| && IdsApart(wards) && AllWithNamer(w, wards, st0, st, before)
    requires tick.who < |wards|
    ensures TableSerializability.AsAlone(wards, st0, Next(st, tick), w, Turns(before + [tick], w))
    ensures tick.who != w ==>
              QuietAsAlone(wards[tick.who].ids, st0, Next(st, tick), tick.who, Turns(before + [tick], tick.who))
    ensures SameOutside(wards[tick.who].ids, Next(st, tick).table, st.table)
  {
    hide Turns, Next, QuietAsAlone, TableSerializability.AsAlone, Unwarded, SameOutside, SameShape;
    hide NamesUnique;
    TurnsGrow(before, tick, w);
    if tick.who == w {
      TableSerializability.MoverStaysAsAlone(wards, st0, st, tick, Turns(before, w));
    } else {
      TurnsGrow(before, tick, tick.who);
      QuietMover(wards[tick.who].ids, st0, st, tick, Turns(before, tick.who));
      NamerAside(wards, wards[tick.who].ids, st0, st, tick, w, Turns(before, w));
    }
  }

  lemma StepWithNamer(w: nat, wards: seq<Ward>, st0: State, st: State, before: seq<Tick>, tick: Tick)
    requires w < |wards| == |st0.threads| && IdsApart(wards) && AllWithNamer(w, wards, st0, st, before)
    requires tick.who < |wards|
    ensures AllWithNamer(w, wards, st0, Next(st, tick), before + [tick])
  {
    hide Turns, Issue, QuietAsAlone, TableSerializability.AsAlone, Unwarded, SameRow, NamesUnique, IdsApart;
    hide SameOutside;
    MoverWithNamer(w, wards, st0, st, before, tick);
    OthersStayQuiet(w, wards, st0, st, before, tick);
    StepKeepsNamesUnique(st.table, st.threads[tick.who], tick.now, tick.fault);
    UnwardedStays(wards, tick.who, st0.table, st.table, Next(st, tick).table);
  }

  lemma NobodyMoves(w: nat, wards: seq<Ward>, st0: State, st: State, before: seq<Tick>, tick: Tick)
    requires w < |wards| == |st0.threads| <= tick.who && AllWithNamer(w, wards, st0, st, before)
    ensures AllWithNamer(w, wards, st0, Next(st, tick), before + [tick])
  {
    hide Turns, QuietAsAlone, TableSerializability.AsAlone, Unwarded, SameRow, NamesUnique;
    forall i: nat | i < |wards| ensures Turns(before + [tick], i) == Turns(before, i) {
      TurnsGrow(before, tick, i);
    }
  }

  lemma {:induction false} AlwaysWithNamer(w: nat, wards: seq<Ward>, st0: State, ticks: seq<Tick>)
    requires w < |wards| == |st0.threads| && IdsApart(wards) && AllWithNamer(w, wards, st0, st0, [])
    ensures AllWithNamer(w, wards, st0, Exec(st0, ticks), ticks)
    decreases |ticks|
  {
    if ticks != [] {
      var before, tick := ticks[..|ticks| - 1], ticks[|ticks| - 1];
      AlwaysWithNamer(w, wards, st0, before);
      hide AllWithNamer, IdsApart, Next;
      if tick.who < |wards| {
        StepWithNamer(w, wards, st0, Exec(st0, before), before, tick);
      } else {
        NobodyMoves(w, wards, st0, Exec(st0, before), before, tick);
      }
      assert before + [tick] == ticks;
    }
  }

  lemma NamerStarts(w: nat, t: Table, calls: seq<Call>)
    requires w < |calls| && NamesUnique(t) && OnDifferentUsers(calls) && NamesSettled(calls) && WritesName(calls[w])
    ensures AllWithNamer(w, WardsOf(t, calls), Initial(t, calls), Initial(t, calls), [])
    ensures IdsApart(WardsOf(t, calls))
  {
    var wards, st0 := WardsOf(t, calls), Initial(t, calls);
    hide Ids, Names, Keyed, Start, Quiet, WritesName, FreesName, NamesUnique;
    forall i | 0 <= i < |wards| && i != w ensures QuietAsAlone(wards[i].ids, st0, st0, i, []) {
      StartIsQuiet(calls[i]);
    }
  }

  /** One call may write usernames, and no other deletes: every serial order agrees. */
  lemma OneNamerAgrees(w: nat, t: Table, calls: seq<Call>, ticks: seq<Tick>, order: seq<nat>)
    requires w < |calls| && NamesUnique(t) && OnDifferentUsers(calls) && NamesSettled(calls) && WritesName(calls[w])
    requires NoRepeats(order) && forall i: nat | i < |calls| :: i in order
    ensures Exec(Initial(t, calls), ticks) == Exec(Initial(t, calls), InOrder(ticks, order))
  {
    var wards, st0, other := WardsOf(t, calls), Initial(t, calls), InOrder(ticks, order);
    NamerStarts(w, t, calls);
    hide AllWithNamer, EndsAsAlone, IdsApart, Exec, Turns, InOrder, NoRepeats, NamesSettled, OnDifferentUsers;
    AlwaysWithNamer(w, wards, st0, ticks);
    AlwaysWithNamer(w, wards, st0, other);
    forall i: nat | i < |calls| ensures Turns(ticks, i) == Turns(other, i) {
      TurnsInOrder(ticks, order, i);
    }
    SameState(wards, st0, Exec(st0, ticks), Exec(st0, other), ticks, other);
  }

  /** No call may write a username: the wards are apart, whatever the table holds. */
  lemma NoNamerAgrees(t: Table, calls: seq<Call>, ticks: seq<Tick>, order: seq<nat>)
    requires NamesUnique(t) && OnDifferentUsers(calls) && forall i | 0 <= i < |calls| :: !WritesName(calls[i])
    requires NoRepeats(order) && forall i: nat | i < |calls| :: i in order
    ensures Exec(Initial(t, calls), ticks) == Exec(Initial(t, calls), InOrder(ticks, order))
  {
    hide Ids, Keyed, Start, WritesName, Names, HeldNames, NamesUnique, NoRepeats;
    forall i | 0 <= i < |calls| ensures Names(Start(calls[i])) == {} {
      StartWithoutNames(calls[i]);
    }
    TableSerializability.EverySerialOrderAgrees(t, calls, ticks, order);
  }

  // ---------- A call that writes a username, alone ----------

  /** The row of id takes the name if no other row has it; nothing else changes but in that row. */
  ghost predicate TakesName(t: Table, t': Table, id: Id, name: string) {
    && t'.Keys == t.Keys && id in t && (forall other | other in t && other != id :: t'[other] == t[other])
    && t'[id].username == if NameFree(t, id, name) then name else t[id].username
  }

  /** n statements, none of which fails, at the epoch */
  function Plain(n: nat): (turns: seq<Turn>)
    ensures |turns| == n && forall turn | turn in turns :: !turn.fault
  {
    Calm(n, 0)
  }

  lemma AloneNext(t: Table, th: Thread, n: nat)
    ensures Alone(t, th, Plain(n + 1))
         == Issue(Alone(t, th, Plain(n)).0, Alone(t, th, Plain(n)).1, 0, false)
  {
    CalmNext(t, th, n, 0);
    hide Issue, Alone, Calm;
  }

  /** From every table that has the row, n statements of the thread give it the name if no other row has it. */
  ghost predicate TakesAlways(th: Thread, n: nat, id: Id, name: string) {
    forall t: Table | id in t :: TakesName(t, Alone(t, th, Plain(n)).0, id, name)
  }

  lemma UpdateTakes(t: Table, req: User, mask: seq<string>)
    requires req.id in t && Renames(mask)
    ensures TakesName(t, Alone(t, Thread(UpdateFetch(req, mask), None), Plain(3)).0, req.id, req.username)
  {
    var th, found := Thread(UpdateFetch(req, mask), None), UserOf(req.id, t[req.id]);
    MaskMeaning(found, req, mask);
    hide Issue, Alone, Edited, Known, Named, UserOf, TakesName, NameFree, TableHonesty.Upserted;
    AloneNone(t, th);
    AloneNext(t, th, 0);
    TableHonesty.IssueUpdateFetch(t, req, mask, 0, false);
    var edited := Edited(found, req, mask).value;
    assert edited.id == req.id && edited.username == req.username;
    AloneNext(t, th, 1);
    TableHonesty.IssueUpdateWrite(t, edited, 0, false);
    AloneNext(t, th, 2);
  }

  lemma AloneNone(t: Table, th: Thread)
    ensures Alone(t, th, Plain(0)) == (t, th)
  {
  }

  /** A batch passes messages that it refuses. */
  lemma {:induction false} BatchPasses(t: Table, users: seq<User>, n: nat) returns (errors: seq<BatchError>)
    requires n <= |users| && forall k | 0 <= k < n :: !ValidMessage(users[k])
    ensures Alone(t, Thread(BatchNext(users, 0, 0, []), None), Plain(n))
         == (t, Thread(BatchNext(users, n, 0, errors), None))
  {
    hide Alone, Issue;
    if n == 0 {
      AloneNone(t, Thread(BatchNext(users, 0, 0, []), None));
      errors := [];
    } else {
      errors := BatchPasses(t, users, n - 1);
      AloneNext(t, Thread(BatchNext(users, 0, 0, []), None), n - 1);
      IssueRefused(t, users, n - 1, errors);
      errors := errors + [BatchError(n, MessageError(users[n - 1]).value)];
    }
  }

  lemma IssueRefused(t: Table, users: seq<User>, n: nat, errors: seq<BatchError>)
    requires n < |users| && !ValidMessage(users[n])
    ensures Issue(t, Thread(BatchNext(users, n, 0, errors), None), 0, false)
         == (t, Thread(BatchNext(users, n + 1, 0, errors + [BatchError(n + 1, MessageError(users[n]).value)]), None))
  {
    hide Upsert;
  }

  lemma BatchTakes(t: Table, users: seq<User>, k: nat)
    requires k < |users| && users[k].id in t && ValidMessage(users[k])
    requires forall m | 0 <= m < k :: !ValidMessage(users[m])
    ensures TakesName(t, Alone(t, Thread(BatchNext(users, 0, 0, []), None), Plain(k + 1)).0, users[k].id,
                      users[k].username)
  {
    var errors := BatchPasses(t, users, k);
    AloneNext(t, Thread(BatchNext(users, 0, 0, []), None), k);
    hide Alone, NameFree, RowFor, TakesName, ValidMessage;
  }

  /** A sync passes messages with id 0. */
  lemma {:induction false} SyncPasses(t: Table, users: seq<User>, n: nat) returns (answers: seq<SyncReply>)
    requires n <= |users| && forall k | 0 <= k < n :: users[k].id == 0
    ensures Alone(t, Thread(SyncNext(users, []), None), Plain(n)) == (t, Thread(SyncNext(users, answers), None))
    ensures |answers| == n
  {
    hide Alone, Issue;
    if n == 0 {
      AloneNone(t, Thread(SyncNext(users, []), None));
      answers := [];
    } else {
      answers := SyncPasses(t, users, n - 1);
      AloneNext(t, Thread(SyncNext(users, []), None), n - 1);
      TableHonesty.IssueSyncNext(t, users, answers, 0, false);
      answers := TableHonesty.WithAnswer(answers, users[n - 1], Rejected(IdIsZero));
    }
  }

  lemma SyncTakes(t: Table, users: seq<User>, k: nat)
    requires k < |users| && users[k].id in t && users[k].id != 0 && forall m | 0 <= m < k :: users[m].id == 0
    ensures TakesName(t, Alone(t, Thread(SyncNext(users, []), None), Plain(k + 3)).0, users[k].id, users[k].username)
  {
    var th := Thread(SyncNext(users, []), None);
    var answers := SyncPasses(t, users, k);
    hide Issue, Alone, TakesName, NameFree, TableHonesty.Upserted;
    AloneNext(t, th, k);
    TableHonesty.IssueSyncNext(t, users, answers, 0, false);
    AloneNext(t, th, k + 1);
    TableHonesty.IssueSyncCheck(t, users, answers, 0, false);
    AloneNext(t, th, k + 2);
    TableHonesty.IssueSyncUpdate(t, users, answers, 0, false);
  }

  lemma First(users: seq<User>, good: User -> bool) returns (k: nat)
    requires exists u | u in users :: good(u)
    ensures k < |users| && good(users[k]) && forall m | 0 <= m < k :: !good(users[m])
  {
    k := 0;
    while !good(users[k])
      invariant k < |users| && forall m | 0 <= m < k :: !good(users[m])
      decreases |users| - k
    {
      k := k + 1;
    }
  }

  /** Without any statement failing, a call that can write a username comes to do so, from every table that has its
      user. */
  lemma NamerRun(call: Call) returns (id: Id, name: string, n: nat)
    requires WritesName(call)
    ensures id in Ids(Start(call))
    ensures TakesAlways(Thread(Start(call), None), n, id, name)
  {
    hide Alone, TakesName, Plain, Renames, MessageError;
    match call {
      case UpdateUser(req, mask) =>
        id, name, n := req.value.id, req.value.username, 3;
        forall t: Table | id in t
          ensures TakesName(t, Alone(t, Thread(Start(call), None), Plain(n)).0, id, name)
        {
          UpdateTakes(t, req.value, mask);
        }
      case BatchAddUsers(users) =>
        var k := First(users, (u: User) => ValidMessage(u));
        id, name, n := users[k].id, users[k].username, k + 1;
        forall t: Table | id in t
          ensures TakesName(t, Alone(t, Thread(Start(call), None), Plain(n)).0, id, name)
        {
          BatchTakes(t, users, k);
        }
      case SyncUsers(users) =>
        var k := First(users, (u: User) => u.id != 0);
        id, name, n := users[k].id, users[k].username, k + 3;
        forall t: Table | id in t
          ensures TakesName(t, Alone(t, Thread(Start(call), None), Plain(n)).0, id, name)
        {
          SyncTakes(t, users, k);
        }
    }
  }

  // ---------- Two calls, one after the other and the other way round ----------

  lemma {:induction false} ExecAlone(st: State, who: nat, turns: seq<Turn>)
    requires who < |st.threads|
    ensures var (t, th) := Alone(st.table, st.threads[who], turns);
            Exec(st, TicksOf(who, turns)) == State(t, st.threads[who := th])
    decreases |turns|
  {
    hide Issue;
    if turns == [] {
      assert TicksOf(who, turns) == [] && st.threads[who := st.threads[who]] == st.threads;
    } else {
      var init, last := turns[..|turns| - 1], turns[|turns| - 1];
      ExecAlone(st, who, init);
      assert turns == init + [last];
      assert TicksOf(who, turns) == TicksOf(who, init) + [Tick(who, last.now, last.fault)];
      hide TicksOf, Exec, Alone;
      var (t', th') := Alone(st.table, st.threads[who], init);
      var th'' := Issue(t', th', last.now, last.fault).1;
      assert st.threads[who := th'][who := th''] == st.threads[who := th''];
    }
  }

  lemma OneThenOther(calls: seq<Call>, t: Table, i: nat, m: nat, j: nat, n: nat)
    requires i < |calls| && j < |calls| && i != j
    ensures Exec(Initial(t, calls), TicksOf(i, Plain(m)) + TicksOf(j, Plain(n))).table
         == Alone(Alone(t, Thread(Start(calls[i]), None), Plain(m)).0, Thread(Start(calls[j]), None), Plain(n)).0
  {
    var st := Initial(t, calls);
    hide Issue, Alone, Exec, TicksOf, Plain, Start;
    ExecAlone(st, i, Plain(m));
    ExecAlone(Exec(st, TicksOf(i, Plain(m))), j, Plain(n));
    TableHonesty.ExecAppends(st, TicksOf(i, Plain(m)), TicksOf(j, Plain(n)));
  }

  /** All threads below n but i and j */
  function Rest(n: nat, i: nat, j: nat): (rest: seq<nat>)
    ensures forall k: nat :: k in rest <==> k < n && k != i && k != j
  {
    if n == 0 then []
    else if n - 1 == i || n - 1 == j then Rest(n - 1, i, j)
    else Rest(n - 1, i, j) + [n - 1]
  }

  lemma OneMore(order: seq<nat>, who: nat)
    requires NoRepeats(order) && who !in order
    ensures NoRepeats(order + [who])
  {
  }

  lemma {:induction false} RestHasNoRepeats(n: nat, i: nat, j: nat)
    ensures NoRepeats(Rest(n, i, j))
  {
    if n > 0 {
      RestHasNoRepeats(n - 1, i, j);
      if n - 1 != i && n - 1 != j {
        OneMore(Rest(n - 1, i, j), n - 1);
      }
      hide NoRepeats;
    }
  }

  lemma {:induction false} IdleInOrder(ticks: seq<Tick>, order: seq<nat>)
    requires forall who | who in order :: Turns(ticks, who) == []
    ensures InOrder(ticks, order) == []
    decreases |order|
  {
    if order != [] {
      IdleInOrder(ticks, order[..|order| - 1]);
      assert TicksOf(order[|order| - 1], []) == [];
    }
  }

  lemma TurnsOfTwo(i: nat, m: nat, j: nat, n: nat, who: nat)
    requires i != j
    ensures Turns(TicksOf(i, Plain(m)) + TicksOf(j, Plain(n)), who)
         == if who == i then Plain(m) else if who == j then Plain(n) else []
  {
    hide TicksOf, Turns, Plain;
    TurnsAppend(TicksOf(i, Plain(m)), TicksOf(j, Plain(n)), who);
    TurnsOfOne(i, Plain(m), who);
    TurnsOfOne(j, Plain(n), who);
  }

  /** All threads, with j and i at the end */
  function LastTwo(count: nat, i: nat, j: nat): seq<nat> {
    Rest(count, i, j) + [j] + [i]
  }

  lemma LastTwoIsAnOrder(count: nat, i: nat, j: nat)
    requires i != j
    ensures NoRepeats(LastTwo(count, i, j)) && forall k: nat | k < count :: k in LastTwo(count, i, j)
  {
    var rest := Rest(count, i, j);
    RestHasNoRepeats(count, i, j);
    OneMore(rest, j);
    OneMore(rest + [j], i);
    hide NoRepeats;
    forall k: nat | k < count ensures k in rest + [j] + [i] {
      if k != i && k != j {
        assert k in rest;
      }
    }
  }

  /** Thread i's turns and then j's: in that order, j's turns come first. */
  lemma OtherWayRound(count: nat, i: nat, m: nat, j: nat, n: nat)
    requires i != j
    ensures InOrder(TicksOf(i, Plain(m)) + TicksOf(j, Plain(n)), LastTwo(count, i, j))
         == TicksOf(j, Plain(n)) + TicksOf(i, Plain(m))
  {
    hide TicksOf, Turns, Plain, InOrder;
    var ticks, rest := TicksOf(i, Plain(m)) + TicksOf(j, Plain(n)), Rest(count, i, j);
    forall who | who in rest ensures Turns(ticks, who) == [] {
      TurnsOfTwo(i, m, j, n, who);
    }
    IdleInOrder(ticks, rest);
    TurnsOfTwo(i, m, j, n, j);
    OneMoreInOrder(ticks, rest, j);
    TurnsOfTwo(i, m, j, n, i);
    OneMoreInOrder(ticks, rest + [j], i);
  }

  lemma OneMoreInOrder(ticks: seq<Tick>, order: seq<nat>, who: nat)
    ensures InOrder(ticks, order + [who]) == InOrder(ticks, order) + TicksOf(who, Turns(ticks, who))
  {
    assert (order + [who])[..|order|] == order;
  }

  // ---------- Names that collide ----------

  /** Two rows, for x and y, with these usernames */
  function TwoRows(x: Id, a: string, y: Id, b: string): Table {
    map[x := RowFor(NO_USER).(username := a), y := RowFor(NO_USER).(username := b)]
  }

  /** Two rows from which it matters whether first x takes name a or y name b */
  function Opening(x: Id, a: string, y: Id, b: string): Table {
    TwoRows(x, if a == b then a + b + "x" else b, y, a + b + "xx")
  }

  lemma TakesOfTwo(t: Table, t': Table, x: Id, y: Id, name: string)
    requires t.Keys == {x, y} && x != y && TakesName(t, t', x, name)
    ensures t'.Keys == {x, y} && t'[y] == t[y]
    ensures t'[x].username == if t[y].username != name then name else t[x].username
  {
    assert y in t.Keys && x in t.Keys;
    assert NameFree(t, x, name) <==> t[y].username != name;
  }

  lemma SameNameDiffers(x: Id, y: Id, a: string, c: string, d: string, t1: Table, t12: Table, t2: Table, t21: Table)
    requires x != y && c != a && d != a && d != c
    requires var t := TwoRows(x, c, y, d); TakesName(t, t1, x, a) && TakesName(t, t2, y, a)
    requires TakesName(t1, t12, y, a) && TakesName(t2, t21, x, a)
    ensures t12 != t21
  {
    hide RowFor, TakesName;
    var t := TwoRows(x, c, y, d);
    TakesOfTwo(t, t1, x, y, a);
    TakesOfTwo(t1, t12, y, x, a);
    TakesOfTwo(t, t2, y, x, a);
    TakesOfTwo(t2, t21, x, y, a);
    assert t12[x].username == a && t21[x].username == c;
  }

  lemma OtherNameDiffers(x: Id, a: string, y: Id, b: string, d: string, t1: Table, t12: Table, t2: Table, t21: Table)
    requires x != y && a != b && d != a && d != b
    requires var t := TwoRows(x, b, y, d); TakesName(t, t1, x, a) && TakesName(t, t2, y, b)
    requires TakesName(t1, t12, y, b) && TakesName(t2, t21, x, a)
    ensures t12 != t21
  {
    hide RowFor, TakesName;
    var t := TwoRows(x, b, y, d);
    TakesOfTwo(t, t1, x, y, a);
    TakesOfTwo(t1, t12, y, x, b);
    TakesOfTwo(t, t2, y, x, b);
    TakesOfTwo(t2, t21, x, y, a);
    assert t12[y].username == b && t21[y].username == d;
  }

  /** Two rows, y holding the name that x is to take */
  function HeldName(x: Id, a: string, y: Id): Table {
    TwoRows(x, a + "x", y, a)
  }

  lemma NamersDiffer(x: Id, a: string, y: Id, b: string, t1: Table, t12: Table, t2: Table, t21: Table)
    requires x != y
    requires TakesName(Opening(x, a, y, b), t1, x, a) && TakesName(t1, t12, y, b)
    requires TakesName(Opening(x, a, y, b), t2, y, b) && TakesName(t2, t21, x, a)
    ensures t12 != t21
  {
    hide TakesName, TwoRows;
    assert |a + b + "xx"| == |a| + |b| + 2 && |a + b + "x"| == |a| + |b| + 1;
    if a == b {
      SameNameDiffers(x, y, a, a + b + "x", a + b + "xx", t1, t12, t2, t21);
    } else {
      OtherNameDiffers(x, a, y, b, a + b + "xx", t1, t12, t2, t21);
    }
  }

  lemma DeleteDiffers(x: Id, a: string, y: Id, t1: Table, t21: Table)
    requires x != y
    requires var t := HeldName(x, a, y); TakesName(t, t1, x, a) && TakesName(t - {y}, t21, x, a)
    ensures t1 - {y} != t21
  {
    hide RowFor, TakesName;
    var t := HeldName(x, a, y);
    assert |a + "x"| == |a| + 1;
    TakesOfTwo(t, t1, x, y, a);
    TakesOfOne(t - {y}, t21, x, a);
    assert x in t1 - {y} && (t1 - {y})[x].username == a + "x" && t21[x].username == a;
  }

  lemma TakesOfOne(t: Table, t': Table, x: Id, name: string)
    requires t.Keys == {x} && TakesName(t, t', x, name)
    ensures x in t' && t'[x].username == name
  {
    assert NameFree(t, x, name);
  }

  // ---------- The exact condition ----------

  /** Every interleaving of the calls is equivalent to every serial order of them, from every table; statements fail
      only if mayFail. */
  ghost predicate AlwaysEverySerialOrder(calls: seq<Call>, mayFail: bool) {
    forall t: Table, ticks: seq<Tick>, order: seq<nat> |
      && NamesUnique(t) && (mayFail || TableCreations.FaultFree(ticks))
      && NoRepeats(order) && (forall i: nat | i < |calls| :: i in order) ::
      Exec(Initial(t, calls), ticks) == Exec(Initial(t, calls), InOrder(ticks, order))
  }

  /** Two calls that can both write a username: no statement fails, and it matters which one comes first. */
  lemma NamersCollide(calls: seq<Call>, i: nat, j: nat) returns (t: Table, ticks: seq<Tick>, order: seq<nat>)
    requires i < |calls| && j < |calls| && i != j && OnDifferentUsers(calls)
    requires WritesName(calls[i]) && WritesName(calls[j])
    ensures NamesUnique(t) && NoRepeats(order) && (forall k: nat | k < |calls| :: k in order)
    ensures TableCreations.FaultFree(ticks)
    ensures Exec(Initial(t, calls), ticks).table != Exec(Initial(t, calls), InOrder(ticks, order)).table
  {
    hide WritesName, Keyed, Ids, Start, Alone, TakesAlways, InOrder, Exec, Initial, NoRepeats, TicksOf, Plain, Opening;
    var x, a, m := NamerRun(calls[i]);
    var y, b, n := NamerRun(calls[j]);
    t, ticks, order := Opening(x, a, y, b), TicksOf(i, Plain(m)) + TicksOf(j, Plain(n)), LastTwo(|calls|, i, j);
    LastTwoIsAnOrder(|calls|, i, j);
    OtherWayRound(|calls|, i, m, j, n);
    OneThenOther(calls, t, i, m, j, n);
    OneThenOther(calls, t, j, n, i, m);
    NoFaults(i, m, j, n);
    OpeningIsUnique(x, a, y, b);
    NamersMatter(Thread(Start(calls[i]), None), x, a, m, Thread(Start(calls[j]), None), y, b, n);
  }

  lemma NamersMatter(th: Thread, x: Id, a: string, m: nat, th': Thread, y: Id, b: string, n: nat)
    requires x != y && TakesAlways(th, m, x, a) && TakesAlways(th', n, y, b)
    ensures var t := Opening(x, a, y, b);
            Alone(Alone(t, th, Plain(m)).0, th', Plain(n)).0 != Alone(Alone(t, th', Plain(n)).0, th, Plain(m)).0
  {
    hide Alone, TakesName, Plain, NamesUnique, Opening;
    var t := Opening(x, a, y, b);
    OpeningIsUnique(x, a, y, b);
    var t1, t2 := Alone(t, th, Plain(m)).0, Alone(t, th', Plain(n)).0;
    BothStay(t, t1, x, a, y);
    BothStay(t, t2, y, b, x);
    NamersDiffer(x, a, y, b, t1, Alone(t1, th', Plain(n)).0, t2, Alone(t2, th, Plain(m)).0);
  }

  lemma BothStay(t: Table, t': Table, x: Id, a: string, y: Id)
    requires TakesName(t, t', x, a) && y in t
    ensures y in t' && x in t'
  {
    assert y in t.Keys;
  }

  lemma OpeningIsUnique(x: Id, a: string, y: Id, b: string)
    requires x != y
    ensures NamesUnique(Opening(x, a, y, b)) && x in Opening(x, a, y, b) && y in Opening(x, a, y, b)
  {
    hide RowFor;
    assert |a + b + "xx"| == |a| + |b| + 2 && |a + b + "x"| == |a| + |b| + 1;
  }

  lemma NoFaults(i: nat, m: nat, j: nat, n: nat)
    ensures TableCreations.FaultFree(TicksOf(i, Plain(m)) + TicksOf(j, Plain(n)))
  {
    hide Plain;
    forall k | 0 <= k < m ensures !TicksOf(i, Plain(m))[k].fault {
      assert Plain(m)[k] in Plain(m);
    }
    forall k | 0 <= k < n ensures !TicksOf(j, Plain(n))[k].fault {
      assert Plain(n)[k] in Plain(n);
    }
  }

  /** A call that can write a username, and the delete of a row that holds it: it matters which one comes first. */
  lemma DeleteFreesName(calls: seq<Call>, i: nat, j: nat) returns (t: Table, ticks: seq<Tick>, order: seq<nat>)
    requires i < |calls| && j < |calls| && i != j && OnDifferentUsers(calls)
    requires WritesName(calls[i]) && FreesName(calls[j])
    ensures NamesUnique(t) && NoRepeats(order) && (forall k: nat | k < |calls| :: k in order)
    ensures TableCreations.FaultFree(ticks)
    ensures Exec(Initial(t, calls), ticks).table != Exec(Initial(t, calls), InOrder(ticks, order)).table
  {
    var y := calls[j].id;
    assert Start(calls[j]) == DeleteWrite(y) && y in Ids(Start(calls[j]));
    hide WritesName, Keyed, Ids, Start, Alone, TakesAlways, InOrder, Exec, Initial, NoRepeats, TicksOf, Plain, HeldName;
    var x, a, m := NamerRun(calls[i]);
    t, ticks, order := HeldName(x, a, y), TicksOf(i, Plain(m)) + TicksOf(j, Plain(1)), LastTwo(|calls|, i, j);
    LastTwoIsAnOrder(|calls|, i, j);
    OtherWayRound(|calls|, i, m, j, 1);
    OneThenOther(calls, t, i, m, j, 1);
    OneThenOther(calls, t, j, 1, i, m);
    NoFaults(i, m, j, 1);
    HeldIsUnique(x, a, y);
    DeleteMatters(Thread(Start(calls[i]), None), x, a, y, m);
  }

  lemma DeleteMatters(th: Thread, x: Id, a: string, y: Id, m: nat)
    requires x != y && TakesAlways(th, m, x, a)
    ensures var t, remove := HeldName(x, a, y), Thread(DeleteWrite(y), None);
            Alone(Alone(t, th, Plain(m)).0, remove, Plain(1)).0 != Alone(Alone(t, remove, Plain(1)).0, th, Plain(m)).0
  {
    hide Alone, TakesName, Plain, NamesUnique, HeldName;
    var t := HeldName(x, a, y);
    HeldIsUnique(x, a, y);
    var t1 := Alone(t, th, Plain(m)).0;
    BothStay(t, t1, x, a, y);
    DeleteRun(t, y);
    DeleteRun(t1, y);
    DeleteDiffers(x, a, y, t1, Alone(t - {y}, th, Plain(m)).0);
  }

  lemma HeldIsUnique(x: Id, a: string, y: Id)
    requires x != y
    ensures var t := HeldName(x, a, y); NamesUnique(t) && x in t && y in t && x in t - {y}
  {
    hide RowFor;
    assert |a + "x"| == |a| + 1;
  }

  lemma DeleteRun(t: Table, id: Id)
    requires id in t
    ensures Alone(t, Thread(DeleteWrite(id), None), Plain(1)).0 == t - {id}
  {
    AloneNone(t, Thread(DeleteWrite(id), None));
    AloneNext(t, Thread(DeleteWrite(id), None), 0);
    hide Alone, Issue;
  }

  /** For all families of calls on different users: from every table, every interleaving is equivalent to every serial
      order exactly when no call can write a username while another can write or free one, be it that statements fail or
      not. */
  lemma EverySerialOrderAgreesExactly(calls: seq<Call>, mayFail: bool)
    requires OnDifferentUsers(calls)
    ensures AlwaysEverySerialOrder(calls, mayFail) <==> NamesSettled(calls)
  {
    hide OnDifferentUsers, WritesName, FreesName, Exec, Initial, InOrder, NoRepeats, NamesUnique;
    hide TableCreations.FaultFree;
    if NamesSettled(calls) {
      forall t: Table, ticks: seq<Tick>, order: seq<nat> |
        NamesUnique(t) && NoRepeats(order) && (forall i: nat | i < |calls| :: i in order)
        ensures Exec(Initial(t, calls), ticks) == Exec(Initial(t, calls), InOrder(ticks, order))
      {
        if w: nat :| w < |calls| && WritesName(calls[w]) {
          OneNamerAgrees(w, t, calls, ticks, order);
        } else {
          NoNamerAgrees(t, calls, ticks, order);
        }
      }
    } else {
      var i: nat, j: nat :| i < |calls| && j < |calls| && i != j && WritesName(calls[i])
                            && (WritesName(calls[j]) || FreesName(calls[j]));
      var t, ticks, order;
      if WritesName(calls[j]) {
        t, ticks, order := NamersCollide(calls, i, j);
      } else {
        t, ticks, order := DeleteFreesName(calls, i, j);
      }
      assert Exec(Initial(t, calls), ticks) != Exec(Initial(t, calls), InOrder(ticks, order));
    }
  }
}
