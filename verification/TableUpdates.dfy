/** Any number of UpdateUser calls for one user over the Postgres table. Each fetches, checks and writes in three
    statements, so that one can be lost although all callers are told of success. */
module TableUpdates {
  import opened Values
  import opened FieldMask
  import opened StoreSpec
  import opened Handlers
  import opened PostgresTable
  import opened TableSerializability
  import TableHonesty
  import TableNames

  /** All calls are updates of this user. */
  predicate UpdatesOf(id: Id, calls: seq<Call>) {
    id != 0 && forall k | 0 <= k < |calls| ::
      calls[k].UpdateUser? && calls[k].req.Some? && calls[k].req.value.id == id
  }

  predicate Complete(st: State) {
    forall k | 0 <= k < |st.threads| :: st.threads[k].l.Done?
  }

  predicate CoversAll(order: seq<nat>, n: nat) {
    forall k: nat | k < n :: k in order
  }

  /** Table and answers are those of some serial order of the calls. */
  ghost predicate SomeSerialOrder(t: Table, calls: seq<Call>, ticks: seq<Tick>) {
    exists order: seq<nat> :: NoRepeats(order) && CoversAll(order, |calls|)
      && Exec(Initial(t, calls), ticks) == Exec(Initial(t, calls), InOrder(ticks, order))
  }

  ghost predicate AlwaysSomeSerialOrder(calls: seq<Call>) {
    forall t: Table, ticks: seq<Tick> | NamesUnique(t) && Complete(Exec(Initial(t, calls), ticks)) ::
      SomeSerialOrder(t, calls, ticks)
  }

  /** The masks that are not refused name the same fields. */
  predicate MasksAgree(calls: seq<Call>)
    requires forall k | 0 <= k < |calls| :: calls[k].UpdateUser?
  {
    forall i, j | 0 <= i < |calls| && 0 <= j < |calls| && Known(calls[i].mask) && Known(calls[j].mask) ::
      Named(calls[i].mask) == Named(calls[j].mask)
  }

  // ---------- With masks that agree ----------

  /** What the fetch of an update leads to */
  function Outcome(t: Table, req: User, mask: seq<string>): Result<User, Error> {
    if req.id in t then Edited(UserOf(req.id, t[req.id]), req, mask) else Failure(NotFound)
  }

  function Overwritten(r: Row, u: User): Row {
    RowFor(u).(createDate := r.createDate)
  }

  lemma OutcomeKeepsId(t: Table, req: User, mask: seq<string>)
    ensures Outcome(t, req, mask).Success? ==> Outcome(t, req, mask).value.id == req.id && req.id in t && Known(mask)
  {
    hide Edited, Known, Named;
    if req.id in t {
      MaskMeaning(UserOf(req.id, t[req.id]), req, mask);
    }
  }

  /** A mask that is refused is refused with the same error, whatever the user. */
  lemma RefusedAlike(u: User, v: User, req: User, mask: seq<string>)
    requires !Known(mask)
    ensures Edited(u, req, mask) == Edited(v, req, mask)
  {
    var bad := FirstUnknown(mask);
    MaskMeaning(u, req, mask);
    MaskMeaning(v, req, mask);
    hide Edited, Known;
  }

  /** The table of the start, or as one of the updates leaves it */
  ghost predicate OneOf(t: Table, id: Id, calls: seq<Call>, v: Table)
    requires UpdatesOf(id, calls)
  {
    v == t || exists k :: 0 <= k < |calls| && LeftBy(t, id, calls[k], v)
  }

  predicate LeftBy(t: Table, id: Id, call: Call, v: Table)
    requires call.UpdateUser? && call.req.Some? && call.req.value.id == id
  {
    var o := Outcome(t, call.req.value, call.mask);
    o.Success? && id in t && v == t[id := Overwritten(t[id], o.value)]
  }

  /** Whichever of these tables it reads, an update comes to the same edit. */
  lemma SameOutcome(t: Table, id: Id, calls: seq<Call>, v: Table, k: nat)
    requires UpdatesOf(id, calls) && MasksAgree(calls) && OneOf(t, id, calls, v) && k < |calls|
    ensures Outcome(v, calls[k].req.value, calls[k].mask) == Outcome(t, calls[k].req.value, calls[k].mask)
  {
    if v != t {
      var m :| 0 <= m < |calls| && LeftBy(t, id, calls[m], v);
      var (req, mask, first) := (calls[k].req.value, calls[k].mask, calls[m]);
      hide Edited, Known, Named, Merged, UserOf, Overwritten;
      OutcomeKeepsId(t, first.req.value, first.mask);
      MaskMeaning(UserOf(id, t[id]), first.req.value, first.mask);
      MaskMeaning(UserOf(id, t[id]), req, mask);
      MaskMeaning(UserOf(id, v[id]), req, mask);
      if !Known(mask) {
        RefusedAlike(UserOf(id, t[id]), UserOf(id, v[id]), req, mask);
      }
    }
  }

  /** The name that the edit has is free; that depends on the other rows only. */
  predicate Free(t: Table, o: Result<User, Error>) {
    o.Success? ==> NameFree(t, o.value.id, o.value.username)
  }

  predicate Wrote(th: Thread) {
    th.l.Done? && th.l.response.OneUser?
  }

  /** Where an update with this outcome can be */
  predicate Editing(req: User, mask: seq<string>, o: Result<User, Error>, th: Thread) {
    || th == Thread(UpdateFetch(req, mask), None)
    || (o.Success? && th.l == UpdateWrite(o.value) && (th.update.None? || th.update == Some(o.value)))
    || (th.l.Done? && th.update.None? && (Wrote(th) ==> o == Success(th.l.response.user)))
  }

  /** How it goes on */
  function Onward(o: Result<User, Error>, free: bool, th: Thread, fault: bool): Thread {
    match th.l
    case UpdateFetch(_, _) =>
      Thread(if fault then Done(Fail(Internal))
             else match o case Failure(e) => Done(Fail(e)) case Success(u) => UpdateWrite(u), None)
    case UpdateWrite(u) =>
      if fault then Thread(Done(Fail(Internal)), None)
      else if th.update.None? then Thread(th.l, Some(u))
      else Thread(Done(if free then OneUser(u) else Fail(Internal)), None)
    case _ => th
  }

  /** One statement of an update: when it has come to success, the row is the one of its edit. */
  lemma EditStep(t: Table, v: Table, id: Id, calls: seq<Call>, k: nat, th: Thread, now: Time, fault: bool)
    requires UpdatesOf(id, calls) && MasksAgree(calls) && OneOf(t, id, calls, v) && k < |calls|
    requires Editing(calls[k].req.value, calls[k].mask, Outcome(t, calls[k].req.value, calls[k].mask), th)
    ensures var o := Outcome(t, calls[k].req.value, calls[k].mask);
            var (v', th') := Issue(v, th, now, fault);
            && th' == Onward(o, Free(t, o), th, fault) && Editing(calls[k].req.value, calls[k].mask, o, th')
            && if Wrote(th') && !Wrote(th) then LeftBy(t, id, calls[k], v') else v' == v
  {
    var (req, mask) := (calls[k].req.value, calls[k].mask);
    SameOutcome(t, id, calls, v, k);
    OutcomeKeepsId(t, req, mask);
    match th.l {
      case UpdateFetch(_, _) =>
        TableHonesty.IssueUpdateFetch(v, req, mask, now, fault);
      case UpdateWrite(u) =>
        TableHonesty.IssueUpdateWrite(v, u, now, fault);
        OnlyThatRow(t, id, calls, v, u);
      case Done(r) =>
        TableHonesty.IssueDone(v, r, now, fault);
    }
    hide Issue, Edited, UserOf, NameFree, OneOf, MasksAgree, TableHonesty.Upserted;
  }

  lemma LeftRow(t: Table, id: Id, calls: seq<Call>, v: Table) returns (row: Row)
    requires UpdatesOf(id, calls) && OneOf(t, id, calls, v) && id in t
    ensures v == t[id := row] && row.createDate == t[id].createDate
  {
    hide Outcome, RowFor;
    row := t[id];
    if v == t {
      assert t[id := row] == t;
    } else {
      var m :| 0 <= m < |calls| && LeftBy(t, id, calls[m], v);
      row := Overwritten(t[id], Outcome(t, calls[m].req.value, calls[m].mask).value);
    }
  }

  lemma OnlyThatRow(t: Table, id: Id, calls: seq<Call>, v: Table, u: User)
    requires UpdatesOf(id, calls) && OneOf(t, id, calls, v) && u.id == id && id in t
    ensures id in v && (NameFree(v, id, u.username) <==> NameFree(t, id, u.username))
    ensures v[id := TableHonesty.Upserted(v, u)] == t[id := Overwritten(t[id], u)]
  {
    hide OneOf, RowFor;
    var row := LeftRow(t, id, calls, v);
    assert forall other | other != id :: (other in t <==> other in v) && (other in t ==> t[other] == v[other]);
  }

  /** Where a thread that is in an update comes to in these turns */
  function Path(o: Result<User, Error>, free: bool, th: Thread, turns: seq<Turn>): Thread {
    if turns == [] then th
    else Onward(o, free, Path(o, free, th, turns[..|turns| - 1]), turns[|turns| - 1].fault)
  }

  function PathOf(t: Table, call: Call, turns: seq<Turn>): Thread
    requires call.UpdateUser? && call.req.Some?
  {
    var o := Outcome(t, call.req.value, call.mask);
    Path(o, Free(t, o), Thread(Start(call), None), turns)
  }

  /** In any interleaving: every update is where its own turns bring it, and the row is the one of an update that has
      come to success, or still the first. */
  ghost predicate AllEditing(t: Table, id: Id, calls: seq<Call>, st: State, ticks: seq<Tick>)
    requires UpdatesOf(id, calls)
  {
    && |st.threads| == |calls|
    && (forall k | 0 <= k < |calls| :: OneEditing(t, calls[k], st.threads[k], Turns(ticks, k)))
    && if forall k | 0 <= k < |calls| :: !Wrote(st.threads[k]) then st.table == t
       else exists k :: 0 <= k < |calls| && Wrote(st.threads[k]) && LeftBy(t, id, calls[k], st.table)
  }

  predicate OneEditing(t: Table, call: Call, th: Thread, turns: seq<Turn>)
    requires call.UpdateUser? && call.req.Some?
  {
    && th == PathOf(t, call, turns)
    && Editing(call.req.value, call.mask, Outcome(t, call.req.value, call.mask), th)
  }

  lemma MoverEditing(t: Table, id: Id, calls: seq<Call>, st: State, before: seq<Tick>, tick: Tick)
    requires UpdatesOf(id, calls) && MasksAgree(calls) && AllEditing(t, id, calls, st, before) && tick.who < |calls|
    ensures var st' := Next(st, tick);
            && OneEditing(t, calls[tick.who], st'.threads[tick.who], Turns(before + [tick], tick.who))
            && (Wrote(st.threads[tick.who]) ==> Wrote(st'.threads[tick.who]))
            && if Wrote(st'.threads[tick.who]) && !Wrote(st.threads[tick.who])
               then LeftBy(t, id, calls[tick.who], st'.table) else st'.table == st.table
  {
    var k, call := tick.who, calls[tick.who];
    EditStep(t, st.table, id, calls, k, st.threads[k], tick.now, tick.fault);
    OnwardOnce(Outcome(t, call.req.value, call.mask), Free(t, Outcome(t, call.req.value, call.mask)), st.threads[k],
               tick.fault);
    hide Issue, Outcome, Free, LeftBy, OneOf, MasksAgree, Turns, PathOf, Onward, Editing, Wrote;
  }

  lemma OnwardOnce(o: Result<User, Error>, free: bool, th: Thread, fault: bool)
    ensures Wrote(th) ==> Onward(o, free, th, fault) == th
  {
  }

  lemma EditingNext(t: Table, id: Id, calls: seq<Call>, st: State, before: seq<Tick>, tick: Tick)
    requires UpdatesOf(id, calls) && MasksAgree(calls) && AllEditing(t, id, calls, st, before)
    ensures AllEditing(t, id, calls, Next(st, tick), before + [tick])
  {
    hide OneEditing, LeftBy, Issue, MasksAgree, Turns;
    forall k: nat | k != tick.who ensures Turns(before + [tick], k) == Turns(before, k) {
      TurnsGrow(before, tick, k);
    }
    if tick.who < |calls| {
      MoverEditing(t, id, calls, st, before, tick);
    }
  }

  lemma {:induction false} AlwaysEditing(t: Table, id: Id, calls: seq<Call>, ticks: seq<Tick>)
    requires UpdatesOf(id, calls) && MasksAgree(calls)
    ensures AllEditing(t, id, calls, Exec(Initial(t, calls), ticks), ticks)
    decreases |ticks|
  {
    if ticks == [] {
    } else {
      var before, tick := ticks[..|ticks| - 1], ticks[|ticks| - 1];
      AlwaysEditing(t, id, calls, before);
      hide AllEditing, Next, UpdatesOf, MasksAgree;
      EditingNext(t, id, calls, Exec(Initial(t, calls), before), before, tick);
      assert before + [tick] == ticks;
    }
  }

  /** One update alone, from the first table or one that another has left */
  lemma {:induction false} AloneEdits(t: Table, id: Id, calls: seq<Call>, v: Table, k: nat, turns: seq<Turn>)
    requires UpdatesOf(id, calls) && MasksAgree(calls) && OneOf(t, id, calls, v) && k < |calls|
    ensures var (v', th) := Alone(v, Thread(Start(calls[k]), None), turns);
            && OneEditing(t, calls[k], th, turns) && OneOf(t, id, calls, v')
            && if Wrote(th) then LeftBy(t, id, calls[k], v') else v' == v
    decreases |turns|
  {
    if turns == [] {
      hide Outcome, LeftBy, OneOf;
    } else {
      var init, last := turns[..|turns| - 1], turns[|turns| - 1];
      AloneEdits(t, id, calls, v, k, init);
      var (v', th) := Alone(v, Thread(Start(calls[k]), None), init);
      EditStep(t, v', id, calls, k, th, last.now, last.fault);
      hide Issue, Outcome, Free, LeftBy, OneOf, MasksAgree;
    }
  }

  // ---------- The serial order ----------

  lemma OrderEndingWith(n: nat, k: nat)
    ensures var rest := TableNames.Rest(n, k, k);
            k !in rest && NoRepeats(rest) && NoRepeats(rest + [k]) && CoversAll(rest + [k], n)
  {
    var rest := TableNames.Rest(n, k, k);
    TableNames.RestHasNoRepeats(n, k, k);
    TableNames.OneMore(rest, k);
    hide NoRepeats;
    forall i: nat | i < n ensures i in rest + [k] {
      if i != k {
        assert i in rest;
      }
    }
  }

  /** In such an order the threads end as in the interleaving. */
  lemma SameThreadsEnd(t: Table, id: Id, calls: seq<Call>, ticks: seq<Tick>, order: seq<nat>)
    requires UpdatesOf(id, calls) && MasksAgree(calls) && NoRepeats(order) && CoversAll(order, |calls|)
    ensures Exec(Initial(t, calls), ticks).threads == Exec(Initial(t, calls), InOrder(ticks, order)).threads
  {
    var one, other := Exec(Initial(t, calls), ticks), Exec(Initial(t, calls), InOrder(ticks, order));
    AlwaysEditing(t, id, calls, ticks);
    AlwaysEditing(t, id, calls, InOrder(ticks, order));
    hide Exec, Initial, LeftBy, Turns, InOrder, NoRepeats, MasksAgree, PathOf, Editing, Wrote;
    forall k: nat | k < |calls| ensures one.threads[k] == other.threads[k] {
      TurnsInOrder(ticks, order, k);
    }
  }

  /** Update k, run last, leaves its row. */
  lemma LastLeaves(t: Table, id: Id, calls: seq<Call>, ticks: seq<Tick>, rest: seq<nat>, k: nat)
    requires UpdatesOf(id, calls) && MasksAgree(calls) && NoRepeats(rest) && k < |calls| && k !in rest
    requires Wrote(Exec(Initial(t, calls), InOrder(ticks, rest + [k])).threads[k])
    ensures LeftBy(t, id, calls[k], Exec(Initial(t, calls), InOrder(ticks, rest + [k])).table)
  {
    var st, before := Initial(t, calls), InOrder(ticks, rest);
    var middle := Exec(st, before);
    AlwaysEditing(t, id, calls, before);
    TurnsInOrder(ticks, rest, k);
    hide Exec, Initial, LeftBy, Turns, InOrder, NoRepeats, AllEditing, OneOf, MasksAgree, UpdatesOf, Wrote;
    hide Alone, Start;
    AloneEdits(t, id, calls, middle.table, k, Turns(ticks, k));
    TableNames.ExecAlone(middle, k, Turns(ticks, k));
    TableNames.OneMoreInOrder(ticks, rest, k);
    TableHonesty.ExecAppends(st, before, TicksOf(k, Turns(ticks, k)));
  }

  /** With update k last, the table is the one that the interleaving leaves. */
  lemma LastWriterLast(t: Table, id: Id, calls: seq<Call>, ticks: seq<Tick>, k: nat)
    requires UpdatesOf(id, calls) && MasksAgree(calls) && k < |calls|
    requires var st := Exec(Initial(t, calls), ticks); Wrote(st.threads[k]) && LeftBy(t, id, calls[k], st.table)
    ensures SomeSerialOrder(t, calls, ticks)
  {
    var rest := TableNames.Rest(|calls|, k, k);
    OrderEndingWith(|calls|, k);
    hide Exec, Initial, InOrder, NoRepeats, MasksAgree, Wrote, CoversAll, SomeSerialOrder, Outcome;
    SameThreadsEnd(t, id, calls, ticks, rest + [k]);
    LastLeaves(t, id, calls, ticks, rest, k);
  }

  /** When no update has come to success, any order will do. */
  lemma NothingWritten(t: Table, id: Id, calls: seq<Call>, ticks: seq<Tick>)
    requires UpdatesOf(id, calls) && MasksAgree(calls)
    requires forall k | 0 <= k < |calls| :: !Wrote(Exec(Initial(t, calls), ticks).threads[k])
    ensures SomeSerialOrder(t, calls, ticks)
  {
    var order := TableNames.Rest(|calls|, |calls|, |calls|) + [|calls|];
    OrderEndingWith(|calls|, |calls|);
    AlwaysEditing(t, id, calls, ticks);
    AlwaysEditing(t, id, calls, InOrder(ticks, order));
    hide Exec, Initial, InOrder, NoRepeats, MasksAgree, Wrote, CoversAll, SomeSerialOrder, OneEditing, LeftBy;
    SameThreadsEnd(t, id, calls, ticks, order);
  }

  /** Updates whose masks agree: every interleaving, complete or not and with any statements failing, ends as some
      serial order of them does, from every table. */
  lemma AgreedAreSerial(t: Table, id: Id, calls: seq<Call>, ticks: seq<Tick>)
    requires UpdatesOf(id, calls) && MasksAgree(calls)
    ensures SomeSerialOrder(t, calls, ticks)
  {
    var st := Exec(Initial(t, calls), ticks);
    AlwaysEditing(t, id, calls, ticks);
    hide Exec, Initial, MasksAgree, Wrote, SomeSerialOrder, OneEditing, LeftBy;
    if k: nat :| k < |calls| && Wrote(st.threads[k]) && LeftBy(t, id, calls[k], st.table) {
      LastWriterLast(t, id, calls, ticks, k);
    } else {
      NothingWritten(t, id, calls, ticks);
    }
  }

  // ---------- With masks that differ ----------

  /** The rows agree in the columns of this field. */
  predicate SameCell(a: Row, b: Row, f: Field) {
    match f
    case Role => a.role == b.role
    case Username => a.username == b.username
    case Email => a.email == b.email
    case Phone => a.phone == b.phone
    case Profile =>
      && a.displayName == b.displayName && a.bio == b.bio && a.avatarUrl == b.avatarUrl
      && a.dateOfBirth == b.dateOfBirth && a.preferences == b.preferences
    case Tags => a.tags == b.tags
    case Metadata => a.metadata == b.metadata
    case Status => a.status == b.status
    case LastLogin => a.lastLogin == b.lastLogin
    case Addresses => a.addresses == b.addresses
  }

  /** The row after an update with this request for these fields */
  function Updated(id: Id, r: Row, req: User, fields: set<Field>): Row {
    Overwritten(r, Merged(UserOf(id, r), req, fields))
  }

  lemma CellAfter(id: Id, r: Row, req: User, fields: set<Field>, f: Field)
    ensures SameCell(Updated(id, r, req, fields), if f in fields then RowFor(req) else r, f)
  {
  }

  /** A row that differs from r in the columns of every field */
  function Opposite(r: Row): Row {
    Row(r.username + "x", if r.role == 0 then 1 else 0, r.email + "x", r.phone + "x", r.displayName + "x",
        "", "", None, map[], r.tags + ["x"], if r.metadata == map[] then map["x" := "x"] else map[],
        if r.status == 0 then 1 else 0, 0, if r.lastLogin.None? then Some(0) else None, r.addresses + [None])
  }

  lemma OppositeDiffers(r: Row, f: Field)
    ensures !SameCell(Opposite(r), r, f)
  {
    var o := Opposite(r);
    assert |o.username| == |r.username| + 1 && |o.email| == |r.email| + 1 && |o.phone| == |r.phone| + 1;
    assert |o.displayName| == |r.displayName| + 1 && |o.tags| == |r.tags| + 1 && |o.addresses| == |r.addresses| + 1;
    assert r.metadata == map[] ==> "x" in o.metadata;
  }

  lemma FetchAlone(v: Table, req: User, mask: seq<string>)
    requires req.id in v && Known(mask)
    ensures Alone(v, Thread(UpdateFetch(req, mask), None), TableNames.Plain(1))
         == (v, Thread(UpdateWrite(Merged(UserOf(req.id, v[req.id]), req, Named(mask))), None))
  {
    var th := Thread(UpdateFetch(req, mask), None);
    TableNames.AloneNone(v, th);
    TableNames.AloneNext(v, th, 0);
    TableHonesty.IssueUpdateFetch(v, req, mask, 0, false);
    MaskMeaning(UserOf(req.id, v[req.id]), req, mask);
    hide Alone, Issue, Edited, Merged, Known, Named, UserOf;
  }

  lemma WriteAlone(v: Table, u: User)
    requires v.Keys == {u.id}
    ensures Alone(v, Thread(UpdateWrite(u), None), TableNames.Plain(2))
         == (v[u.id := Overwritten(v[u.id], u)], Thread(Done(OneUser(u)), None))
  {
    var th := Thread(UpdateWrite(u), None);
    assert u.id in v.Keys && NameFree(v, u.id, u.username);
    hide Alone, Issue, RowFor;
    TableNames.AloneNone(v, th);
    TableNames.AloneNext(v, th, 0);
    TableNames.AloneNext(v, th, 1);
    TableHonesty.IssueUpdateWrite(v, u, 0, false);
  }

  lemma UpdateAlone(v: Table, req: User, mask: seq<string>)
    requires v.Keys == {req.id} && Known(mask)
    ensures req.id in v && Alone(v, Thread(UpdateFetch(req, mask), None), TableNames.Plain(3)).0
         == v[req.id := Updated(req.id, v[req.id], req, Named(mask))]
  {
    assert req.id in v.Keys;
    var th, u := Thread(UpdateFetch(req, mask), None), Merged(UserOf(req.id, v[req.id]), req, Named(mask));
    assert u.id == req.id && NameFree(v, u.id, u.username);
    hide Alone, Issue, RowFor, Merged, UserOf, Known, Named;
    FetchAlone(v, req, mask);
    TableNames.AloneNext(v, th, 1);
    TableNames.AloneNext(v, th, 2);
    TableHonesty.IssueUpdateWrite(v, u, 0, false);
  }

  /** One statement, which fails */
  const SKIP: seq<Turn> := [Turn(0, true)]

  /** All threads but i and j fail at once. */
  function Skips(n: nat, i: nat, j: nat): seq<Tick> {
    if n == 0 then []
    else if n - 1 == i || n - 1 == j then Skips(n - 1, i, j)
    else Skips(n - 1, i, j) + TicksOf(n - 1, SKIP)
  }

  /** Threads i and j both fetch; i writes, and then j. */
  function Crossed(n: nat, i: nat, j: nat): seq<Tick> {
    Skips(n, i, j) + TicksOf(i, TableNames.Plain(1)) + TicksOf(j, TableNames.Plain(1))
      + TicksOf(i, TableNames.Plain(2)) + TicksOf(j, TableNames.Plain(2))
  }

  lemma NoTurns(who: nat)
    ensures Turns([], who) == []
  {
  }

  lemma TurnsAfter(before: seq<Tick>, mover: nat, turns: seq<Turn>, who: nat)
    ensures Turns(before + TicksOf(mover, turns), who)
         == if who == mover then Turns(before, who) + turns else Turns(before, who)
  {
    TurnsAppend(before, TicksOf(mover, turns), who);
    TurnsOfOne(mover, turns, who);
    hide Turns, TicksOf;
  }

  lemma {:induction false} TurnsOfSkips(n: nat, i: nat, j: nat, who: nat)
    ensures Turns(Skips(n, i, j), who) == if who < n && who != i && who != j then SKIP else []
  {
    hide Turns, TicksOf;
    if n == 0 {
      NoTurns(who);
    } else {
      TurnsOfSkips(n - 1, i, j, who);
      TurnsAfter(Skips(n - 1, i, j), n - 1, SKIP, who);
    }
  }

  lemma TurnsOfCrossed(n: nat, i: nat, j: nat, who: nat)
    requires i != j
    ensures Turns(Crossed(n, i, j), who)
         == if who == i || who == j then TableNames.Plain(3) else if who < n then SKIP else []
  {
    var first, second := TableNames.Plain(1), TableNames.Plain(2);
    assert [] + first + second == TableNames.Plain(3);
    hide Turns, TicksOf, Skips, TableNames.Plain;
    var a := Skips(n, i, j) + TicksOf(i, first);
    var b := a + TicksOf(j, first);
    var c := b + TicksOf(i, second);
    TurnsOfSkips(n, i, j, who);
    TurnsAfter(Skips(n, i, j), i, first, who);
    TurnsAfter(a, j, first, who);
    TurnsAfter(b, i, second, who);
    TurnsAfter(c, j, second, who);
  }

  ghost predicate AllSkipped(t: Table, calls: seq<Call>, n: nat, i: nat, j: nat, st: State) {
    && st.table == t && |st.threads| == |calls|
    && forall k | 0 <= k < |calls| ::
         st.threads[k] == Thread(if k < n && k != i && k != j then Done(Fail(Internal)) else Start(calls[k]), None)
  }

  lemma OneSkipped(t: Table, id: Id, calls: seq<Call>, n: nat, i: nat, j: nat, st: State)
    requires UpdatesOf(id, calls) && n < |calls| && AllSkipped(t, calls, n, i, j, st) && n != i && n != j
    ensures AllSkipped(t, calls, n + 1, i, j, Exec(st, TicksOf(n, SKIP)))
  {
    TableNames.ExecAlone(st, n, SKIP);
    hide Exec, TicksOf, Alone;
  }

  lemma NoneSkipped(t: Table, calls: seq<Call>, i: nat, j: nat)
    ensures AllSkipped(t, calls, 0, i, j, Exec(Initial(t, calls), []))
  {
  }

  lemma NotSkipped(t: Table, calls: seq<Call>, n: nat, i: nat, j: nat, st: State)
    requires AllSkipped(t, calls, n, i, j, st) && (n == i || n == j)
    ensures AllSkipped(t, calls, n + 1, i, j, st)
  {
    hide Start;
  }

  lemma {:induction false} SkipsRun(t: Table, id: Id, calls: seq<Call>, n: nat, i: nat, j: nat)
    requires UpdatesOf(id, calls) && n <= |calls|
    ensures AllSkipped(t, calls, n, i, j, Exec(Initial(t, calls), Skips(n, i, j)))
  {
    hide TicksOf, Exec, Initial, AllSkipped, UpdatesOf;
    if n == 0 {
      NoneSkipped(t, calls, i, j);
    } else {
      SkipsRun(t, id, calls, n - 1, i, j);
      var st := Exec(Initial(t, calls), Skips(n - 1, i, j));
      if n - 1 == i || n - 1 == j {
        NotSkipped(t, calls, n - 1, i, j, st);
      } else {
        OneSkipped(t, id, calls, n - 1, i, j, st);
        TableHonesty.ExecAppends(Initial(t, calls), Skips(n - 1, i, j), TicksOf(n - 1, SKIP));
      }
    }
  }

  function Edit(r: Row, call: Call): User
    requires call.UpdateUser? && call.req.Some?
  {
    Merged(UserOf(call.req.value.id, r), call.req.value, Named(call.mask))
  }

  /** Both fetch before either writes. */
  lemma BothFetch(st: State, id: Id, calls: seq<Call>, i: nat, j: nat)
    requires UpdatesOf(id, calls) && |st.threads| == |calls| && i < |calls| && j < |calls| && i != j
    requires Known(calls[i].mask) && Known(calls[j].mask) && id in st.table
    requires st.threads[i] == Thread(Start(calls[i]), None) && st.threads[j] == Thread(Start(calls[j]), None)
    ensures var a, b := Edit(st.table[id], calls[i]), Edit(st.table[id], calls[j]);
            Exec(Exec(st, TicksOf(i, TableNames.Plain(1))), TicksOf(j, TableNames.Plain(1)))
            == State(st.table, st.threads[i := Thread(UpdateWrite(a), None)][j := Thread(UpdateWrite(b), None)])
  {
    var first := TableNames.Plain(1);
    FetchAlone(st.table, calls[i].req.value, calls[i].mask);
    FetchAlone(st.table, calls[j].req.value, calls[j].mask);
    hide Exec, TicksOf, TableNames.Plain, Alone, Known, Named, Merged, UserOf;
    TableNames.ExecAlone(st, i, first);
    TableNames.ExecAlone(Exec(st, TicksOf(i, first)), j, first);
  }

  /** One writes. */
  lemma OneWrites(st: State, id: Id, i: nat, a: User)
    requires i < |st.threads| && st.table.Keys == {id} && a.id == id && st.threads[i] == Thread(UpdateWrite(a), None)
    ensures id in st.table
    ensures Exec(st, TicksOf(i, TableNames.Plain(2)))
         == State(st.table[id := Overwritten(st.table[id], a)], st.threads[i := Thread(Done(OneUser(a)), None)])
  {
    assert id in st.table.Keys;
    hide Exec, TicksOf, TableNames.Plain, Alone, Overwritten;
    TableNames.ExecAlone(st, i, TableNames.Plain(2));
    WriteAlone(st.table, a);
  }

  /** Both write, j last. */
  lemma BothWrite(st: State, id: Id, i: nat, a: User, j: nat, b: User)
    requires i < |st.threads| && j < |st.threads| && i != j && st.table.Keys == {id} && a.id == b.id == id
    requires st.threads[i] == Thread(UpdateWrite(a), None) && st.threads[j] == Thread(UpdateWrite(b), None)
    ensures id in st.table
    ensures Exec(Exec(st, TicksOf(i, TableNames.Plain(2))), TicksOf(j, TableNames.Plain(2)))
         == State(st.table[id := Overwritten(st.table[id], b)],
                  st.threads[i := Thread(Done(OneUser(a)), None)][j := Thread(Done(OneUser(b)), None)])
  {
    hide Exec, TicksOf, TableNames.Plain, Overwritten;
    OneWrites(st, id, i, a);
    var middle := Exec(st, TicksOf(i, TableNames.Plain(2)));
    OneWrites(middle, id, j, b);
    OverwrittenTwice(st.table[id], a, b);
  }

  lemma OverwrittenTwice(r: Row, a: User, b: User)
    ensures Overwritten(Overwritten(r, a), b) == Overwritten(r, b)
  {
  }

  /** One row */
  function Only(id: Id, row: Row): Table {
    map[id := row]
  }

  ghost predicate AllDone(id: Id, row: Row, n: nat, st: State) {
    st.table == Only(id, row) && |st.threads| == n && Complete(st)
  }

  lemma CrossingEnds(id: Id, row: Row, calls: seq<Call>, i: nat, j: nat, st: State)
    requires UpdatesOf(id, calls) && i < |calls| && j < |calls| && i != j
    requires Known(calls[i].mask) && Known(calls[j].mask)
    requires AllSkipped(Only(id, row), calls, |calls|, i, j, st)
    ensures var middle := Exec(Exec(st, TicksOf(i, TableNames.Plain(1))), TicksOf(j, TableNames.Plain(1)));
            AllDone(id, Overwritten(row, Edit(row, calls[j])), |calls|,
                    Exec(Exec(middle, TicksOf(i, TableNames.Plain(2))), TicksOf(j, TableNames.Plain(2))))
  {
    var a, b := Edit(row, calls[i]), Edit(row, calls[j]);
    assert a.id == id && b.id == id;
    hide Exec, TicksOf, TableNames.Plain, Known, Edit, Overwritten, Start, AllDone;
    BothFetch(st, id, calls, i, j);
    var middle := Exec(Exec(st, TicksOf(i, TableNames.Plain(1))), TicksOf(j, TableNames.Plain(1)));
    BothWrite(middle, id, i, a, j, b);
    LastTwoDone(id, row, Overwritten(row, b), calls, i, j, middle, Thread(Done(OneUser(a)), None),
                Thread(Done(OneUser(b)), None));
  }

  lemma LastTwoDone(id: Id, row: Row, row': Row, calls: seq<Call>, i: nat, j: nat, st: State, a: Thread, b: Thread)
    requires i < |st.threads| == |calls| && j < |calls| && st.table == Only(id, row) && a.l.Done? && b.l.Done?
    requires forall k | 0 <= k < |calls| && k != i && k != j :: st.threads[k].l.Done?
    ensures AllDone(id, row', |calls|, State(st.table[id := row'], st.threads[i := a][j := b]))
  {
  }

  /** All updates end, and the row has nothing of what i has written. */
  lemma CrossedRun(id: Id, row: Row, calls: seq<Call>, i: nat, j: nat)
    requires UpdatesOf(id, calls) && i < |calls| && j < |calls| && i != j
    requires Known(calls[i].mask) && Known(calls[j].mask)
    ensures AllDone(id, Overwritten(row, Edit(row, calls[j])), |calls|,
                    Exec(Initial(Only(id, row), calls), Crossed(|calls|, i, j)))
  {
    var st, skips := Initial(Only(id, row), calls), Skips(|calls|, i, j);
    SkipsRun(Only(id, row), id, calls, |calls|, i, j);
    hide Exec, Initial, TicksOf, TableNames.Plain, Skips, Known, Edit, Overwritten, AllSkipped, AllDone, Only;
    CrossingEnds(id, row, calls, i, j, Exec(st, skips));
    ExecInParts(st, skips, TicksOf(i, TableNames.Plain(1)), TicksOf(j, TableNames.Plain(1)),
                TicksOf(i, TableNames.Plain(2)), TicksOf(j, TableNames.Plain(2)));
  }

  lemma ExecInParts(st: State, a: seq<Tick>, b: seq<Tick>, c: seq<Tick>, d: seq<Tick>, e: seq<Tick>)
    ensures Exec(st, a + b + c + d + e) == Exec(Exec(Exec(Exec(Exec(st, a), b), c), d), e)
  {
    hide Exec;
    TableHonesty.ExecAppends(st, a, b);
    TableHonesty.ExecAppends(st, a + b, c);
    TableHonesty.ExecAppends(st, a + b + c, d);
    TableHonesty.ExecAppends(st, a + b + c + d, e);
  }

  /** What the turns of one thread do to the columns of the field */
  lemma TurnCell(st: State, id: Id, calls: seq<Call>, i: nat, j: nat, f: Field, who: nat)
    requires UpdatesOf(id, calls) && i < |calls| && j < |calls| && i != j
    requires Known(calls[i].mask) && Known(calls[j].mask) && f in Named(calls[i].mask) && f !in Named(calls[j].mask)
    requires |st.threads| == |calls| && st.table.Keys == {id} && id in st.table
    requires who < |calls| ==> st.threads[who] == Thread(Start(calls[who]), None)
    ensures var turns := if who == i || who == j then TableNames.Plain(3) else if who < |calls| then SKIP else [];
            var end := Exec(st, TicksOf(who, turns));
            && |end.threads| == |calls| && end.table.Keys == {id} && id in end.table
            && (forall k | 0 <= k < |calls| && k != who :: end.threads[k] == st.threads[k])
            && SameCell(end.table[id], if who == i then RowFor(calls[i].req.value) else st.table[id], f)
  {
    if who >= |calls| {
      assert TicksOf(who, []) == [];
    } else {
      var (req, mask) := (calls[who].req.value, calls[who].mask);
      assert Start(calls[who]) == UpdateFetch(req, mask);
      hide Exec, TicksOf, Alone, SameCell, Known, Named, RowFor, TableNames.Plain, Updated, Start;
      if who == i || who == j {
        TableNames.ExecAlone(st, who, TableNames.Plain(3));
        UpdateAlone(st.table, req, mask);
        CellAfter(id, st.table[id], req, Named(mask), f);
      } else {
        TableNames.ExecAlone(st, who, SKIP);
      }
    }
  }

  /** Once i has run, the row has what i writes to the field; who is not in the order has not begun. */
  ghost predicate SerialSoFar(id: Id, row: Row, calls: seq<Call>, i: nat, f: Field, order: seq<nat>, st: State)
    requires UpdatesOf(id, calls) && i < |calls|
  {
    && |st.threads| == |calls| && st.table.Keys == {id} && id in st.table
    && (forall k: nat | k < |calls| && k !in order :: st.threads[k] == Thread(Start(calls[k]), None))
    && SameCell(st.table[id], if i in order then RowFor(calls[i].req.value) else row, f)
  }

  lemma SerialNext(id: Id, row: Row, calls: seq<Call>, i: nat, j: nat, f: Field, rest: seq<nat>, who: nat, st: State)
    requires UpdatesOf(id, calls) && i < |calls| && j < |calls| && i != j && who !in rest
    requires Known(calls[i].mask) && Known(calls[j].mask) && f in Named(calls[i].mask) && f !in Named(calls[j].mask)
    requires SerialSoFar(id, row, calls, i, f, rest, st)
    ensures SerialSoFar(id, row, calls, i, f, rest + [who],
                        Exec(st, TicksOf(who, Turns(Crossed(|calls|, i, j), who))))
  {
    hide Exec, Turns, TicksOf, SameCell, Known, Named, Crossed, RowFor, Start;
    TurnsOfCrossed(|calls|, i, j, who);
    TurnCell(st, id, calls, i, j, f, who);
    SameCellChains(Exec(st, TicksOf(who, Turns(Crossed(|calls|, i, j), who))).table[id], st.table[id],
                   if i in rest then RowFor(calls[i].req.value) else row, f);
  }

  lemma {:induction false} SerialCell(id: Id, row: Row, calls: seq<Call>, i: nat, j: nat, f: Field, order: seq<nat>)
    requires UpdatesOf(id, calls) && i < |calls| && j < |calls| && i != j && NoRepeats(order)
    requires Known(calls[i].mask) && Known(calls[j].mask) && f in Named(calls[i].mask) && f !in Named(calls[j].mask)
    ensures SerialSoFar(id, row, calls, i, f, order,
                        Exec(Initial(Only(id, row), calls), InOrder(Crossed(|calls|, i, j), order)))
    decreases |order|
  {
    var ticks, st0 := Crossed(|calls|, i, j), Initial(Only(id, row), calls);
    if order == [] {
      hide Crossed, SameCell;
    } else {
      var who, rest := order[|order| - 1], order[..|order| - 1];
      assert order == rest + [who] && who !in rest;
      SerialCell(id, row, calls, i, j, f, rest);
      hide Exec, Initial, InOrder, Turns, TicksOf, Known, Named, Crossed, Only, SerialSoFar, NoRepeats, UpdatesOf;
      TableNames.OneMoreInOrder(ticks, rest, who);
      TableHonesty.ExecAppends(st0, InOrder(ticks, rest), TicksOf(who, Turns(ticks, who)));
      SerialNext(id, row, calls, i, j, f, rest, who, Exec(st0, InOrder(ticks, rest)));
    }
  }

  lemma SameCellChains(a: Row, b: Row, c: Row, f: Field)
    ensures SameCell(a, b, f) && SameCell(b, c, f) ==> SameCell(a, c, f)
    ensures SameCell(b, a, f) && SameCell(b, c, f) ==> SameCell(a, c, f)
  {
  }

  /** When a mask names a field that another does not, some complete run ends as no serial order does: the row shows
      none of the first update, of whose success its caller is told. */
  lemma LossIsReal(id: Id, calls: seq<Call>, i: nat, j: nat, f: Field) returns (t: Table, ticks: seq<Tick>)
    requires UpdatesOf(id, calls) && i < |calls| && j < |calls| && i != j
    requires Known(calls[i].mask) && Known(calls[j].mask) && f in Named(calls[i].mask) && f !in Named(calls[j].mask)
    ensures NamesUnique(t) && Complete(Exec(Initial(t, calls), ticks)) && !SomeSerialOrder(t, calls, ticks)
  {
    var row := Opposite(RowFor(calls[i].req.value));
    t, ticks := Only(id, row), Crossed(|calls|, i, j);
    CrossedRun(id, row, calls, i, j);
    LossShows(id, calls, i, j, f);
    hide Exec, Initial, InOrder, Crossed, SameCell, Known, Named, Opposite, RowFor, Edit, Overwritten, NoRepeats;
    forall order: seq<nat> | NoRepeats(order) && CoversAll(order, |calls|)
      ensures Exec(Initial(t, calls), ticks) != Exec(Initial(t, calls), InOrder(ticks, order))
    {
      SerialCell(id, row, calls, i, j, f, order);
    }
  }

  lemma LossShows(id: Id, calls: seq<Call>, i: nat, j: nat, f: Field)
    requires UpdatesOf(id, calls) && i < |calls| && j < |calls| && f !in Named(calls[j].mask)
    ensures var row := Opposite(RowFor(calls[i].req.value));
            !SameCell(Overwritten(row, Edit(row, calls[j])), RowFor(calls[i].req.value), f)
  {
    var wanted := RowFor(calls[i].req.value);
    var row := Opposite(wanted);
    CellAfter(id, row, calls[j].req.value, Named(calls[j].mask), f);
    OppositeDiffers(wanted, f);
    SameCellChains(row, Overwritten(row, Edit(row, calls[j])), wanted, f);
    hide SameCell, RowFor, Named, Merged, Opposite, UserOf;
  }

  lemma Disagreement(first: set<Field>, second: set<Field>) returns (f: Field)
    requires first != second
    ensures f in first <==> f !in second
  {
    if g :| g in first && g !in second {
      f := g;
    } else {
      assert first <= second;
      f :| f in second && f !in first;
    }
  }

  /** Any number of updates of one user: from every table, in every complete interleaving and with any statements
      failing, table and answers are those of some serial order exactly when all masks that are not refused name the
      same fields, all ten of which the table keeps. */
  lemma UpdatesAreSerialExactly(id: Id, calls: seq<Call>)
    requires UpdatesOf(id, calls)
    ensures AlwaysSomeSerialOrder(calls) <==> MasksAgree(calls)
  {
    hide SomeSerialOrder, Complete, Known, Named, Exec, Initial, NamesUnique;
    if MasksAgree(calls) {
      forall t: Table, ticks: seq<Tick> | NamesUnique(t) && Complete(Exec(Initial(t, calls), ticks))
        ensures SomeSerialOrder(t, calls, ticks)
      {
        AgreedAreSerial(t, id, calls, ticks);
      }
    } else {
      var i: nat, j: nat :| i < |calls| && j < |calls| && Known(calls[i].mask) && Known(calls[j].mask)
                            && Named(calls[i].mask) != Named(calls[j].mask);
      var f := Disagreement(Named(calls[i].mask), Named(calls[j].mask));
      var t, ticks;
      if f in Named(calls[i].mask) {
        t, ticks := LossIsReal(id, calls, i, j, f);
      } else {
        t, ticks := LossIsReal(id, calls, j, i, f);
      }
    }
  }
}
