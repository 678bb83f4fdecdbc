/** The handlers over the Postgres table: a map of rows on which each SQL statement is one atomic step.
    UpdateUser takes two statements. A statement may fail for a reason outside the model (the connection,
    a value too long for its column); it then changes nothing. */
module PostgresTable {
  import opened Values
  import opened StoreSpec
  import opened Handlers
  import opened Filters
  import QueryBuilder

  datatype Row = Row(username: string, role: Int32, email: string, phone: string,
                     displayName: string, bio: string, avatarUrl: string, dateOfBirth: Option<Time>,
                     preferences: map<string, int>, tags: seq<string>, metadata: map<string, string>,
                     status: Int32, createDate: Time, lastLogin: Option<Time>, addresses: seq<Option<Address>>)

  type Table = map<Id, Row>

  const NO_PROFILE := Profile("", "", "", None, map[])

  /** The arguments of the upsert: a missing profile reads as an empty one, a missing date as the epoch. */
  function RowFor(u: User): Row {
    var p := if u.profile.Some? then u.profile.value else NO_PROFILE;
    Row(u.username, u.role, u.email, u.phone, p.displayName, p.bio, p.avatarUrl, p.dateOfBirth, p.preferences,
        u.tags, u.metadata, u.status, AsTime(u.createDate), u.lastLogin, u.addresses)
  }

  function UserOf(id: Id, r: Row): User {
    User(id, r.role, Some(r.createDate), r.username, r.email, r.phone,
         Some(Profile(r.displayName, r.bio, r.avatarUrl, r.dateOfBirth, r.preferences)),
         r.tags, r.metadata, r.status, r.lastLogin, r.addresses)
  }

  /** username is UNIQUE */
  predicate NameFree(t: Table, id: Id, username: string) {
    forall other | other in t && other != id :: t[other].username != username
  }

  /** INSERT ... ON CONFLICT (id) DO UPDATE: the columns of EXCLUDED except create_date; None is a violation. */
  function Upsert(t: Table, u: User): Option<Table> {
    if !NameFree(t, u.id, u.username) then None
    else if u.id in t then Some(t[u.id := RowFor(u).(createDate := t[u.id].createDate)])
    else Some(t[u.id := RowFor(u)])
  }

  /** UPDATE ... WHERE id: every column but create_date; a missing row is no error. */
  function UpdateRow(t: Table, u: User): Option<Table> {
    if u.id !in t then Some(t)
    else if !NameFree(t, u.id, u.username) then None
    else Some(t[u.id := RowFor(u).(createDate := t[u.id].createDate)])
  }

  /** A handler, and the user of an UpdateUser that has passed its existence check but not yet written */
  datatype Thread = Thread(l: Local, update: Option<User>)

  datatype Tick = Tick(who: nat, now: Time, fault: bool)

  datatype State = State(table: Table, threads: seq<Thread>)

  function Query(t: Table, req: Request): Reply {
    match req
    case Count => Counted(|t|)
    case Get(id) => if id in t then Found(UserOf(id, t[id])) else Failed(NotFound)
    case Exists(id) => Present(id in t)
    case List(f, _) => if f.pageSize > 0 then Failed(Internal) else Listed(Matches(t, f))
    case ListByRole(role) => Listed(InRole(t, role))
    case _ => Ok
  }

  /** What the list query looks at in a row */
  function Columns(r: Row): QueryBuilder.Row {
    QueryBuilder.Row(r.createDate, r.status)
  }

  /** The users whose rows the list query selects, as its text has it (TableCalls.ListedRows) */
  function Matches(t: Table, f: ListFilter): set<User> {
    set id | id in t && QueryBuilder.FilterAccepts(Columns(t[id]), Some(f)) :: UserOf(id, t[id])
  }

  function InRole(t: Table, role: Int32): set<User> {
    set id | id in t && t[id].role == role :: UserOf(id, t[id])
  }

  function Answered(t: Table, th: Thread, reply: Reply, now: Time): (Table, Thread) {
    (t, Thread(Resume(th.l, reply, now), None))
  }

  /** One statement */
  function Issue(t: Table, th: Thread, now: Time, fault: bool): (Table, Thread) {
    var req := Ask(th.l, now);
    if fault then Answered(t, th, Failed(Internal), now)
    else if th.update.Some? then
      match UpdateRow(t, th.update.value)
      case None => Answered(t, th, Failed(Internal), now)
      case Some(t') => Answered(t', th, Ok, now)
    else
      match req
      case Update(u) => if u.id in t then (t, Thread(th.l, Some(u))) else Answered(t, th, Failed(NotFound), now)
      case Add(u) =>
        (match Upsert(t, u)
         case None => Answered(t, th, Failed(Internal), now)
         case Some(t') => Answered(t', th, Ok, now))
      case Delete(id) =>
        if id in t then Answered(t - {id}, th, Ok, now) else Answered(t, th, Failed(NotFound), now)
      case _ => Answered(t, th, Query(t, req), now)
  }

  function Next(st: State, tick: Tick): State {
    if tick.who < |st.threads| then
      var (t, th) := Issue(st.table, st.threads[tick.who], tick.now, tick.fault);
      State(t, st.threads[tick.who := th])
    else st
  }

  function Exec(st: State, ticks: seq<Tick>): (end: State)
    ensures |end.threads| == |st.threads|
  {
    if ticks == [] then st
    else Next(Exec(st, ticks[..|ticks| - 1]), ticks[|ticks| - 1])
  }

  function Initial(t: Table, calls: seq<Call>): (st: State)
    ensures |st.threads| == |calls|
  {
    State(t, seq(|calls|, i requires 0 <= i < |calls| => Thread(Start(calls[i]), None)))
  }

  // ---------- What a row gives back ----------

  /** The table, unlike the in-memory storage, keeps email and phone; a missing profile or date comes back
      as an empty profile and the epoch, which is what the row holds for it. */
  lemma RowGivesBack(u: User)
    ensures UserOf(u.id, RowFor(u))
         == u.(createDate := Some(if u.createDate.Some? then u.createDate.value else 0),
               profile := Some(if u.profile.Some? then u.profile.value
                               else Values.Profile.Profile("", "", "", None, map[])))
    ensures RowFor(u).createDate == if u.createDate.Some? then u.createDate.value else 0
    ensures UserOf(u.id, RowFor(u)) == u <==> u.createDate.Some? && u.profile.Some?
  {
  }

  // ---------- create_date ----------

  ghost predicate DatesKept(t: Table, t': Table) {
    forall id | id in t && id in t' :: t'[id].createDate == t[id].createDate
  }

  lemma StepKeepsDates(t: Table, th: Thread, now: Time, fault: bool)
    ensures DatesKept(t, Issue(t, th, now, fault).0)
  {
    hide Resume, Query, NameFree;
  }

  /** In any interleaving of all nine handlers, with any statements failing: as long as a row stays in the
      table its create_date stays what it was, whoever adds, updates or syncs that user meanwhile. */
  lemma {:induction false} CreateDateIsFixed(st: State, ticks: seq<Tick>, first: nat, last: nat, id: Id)
    requires first <= last <= |ticks|
    requires forall k | first <= k <= last :: id in Exec(st, ticks[..k]).table
    ensures Exec(st, ticks[..last]).table[id].createDate == Exec(st, ticks[..first]).table[id].createDate
    decreases last
  {
    if first < last {
      hide Next;
      ExecLast(st, ticks, last);
      hide Exec;
      assert id in Exec(st, ticks[..last - 1]).table && id in Exec(st, ticks[..last]).table;
      CreateDateIsFixed(st, ticks, first, last - 1, id);
      NextKeepsDates(Exec(st, ticks[..last - 1]), ticks[last - 1]);
    }
  }

  lemma ExecLast(st: State, ticks: seq<Tick>, last: nat)
    requires 0 < last <= |ticks|
    ensures Exec(st, ticks[..last]) == Next(Exec(st, ticks[..last - 1]), ticks[last - 1])
  {
    hide Next;
    assert ticks[..last][..last - 1] == ticks[..last - 1];
  }

  lemma NextKeepsDates(st: State, tick: Tick)
    ensures DatesKept(st.table, Next(st, tick).table)
  {
    hide Issue;
    if tick.who < |st.threads| {
      StepKeepsDates(st.table, st.threads[tick.who], tick.now, tick.fault);
    }
  }

  // ---------- username ----------

  ghost predicate NamesUnique(t: Table) {
    forall i, j | i in t && j in t && i != j :: t[i].username != t[j].username
  }

  lemma StepKeepsNamesUnique(t: Table, th: Thread, now: Time, fault: bool)
    requires NamesUnique(t)
    ensures NamesUnique(Issue(t, th, now, fault).0)
  {
    hide Resume, Query;
  }

  /** No interleaving gives two users one name. */
  lemma {:induction false} NamesStayUnique(st: State, ticks: seq<Tick>)
    requires NamesUnique(st.table)
    ensures NamesUnique(Exec(st, ticks).table)
    decreases |ticks|
  {
    if ticks != [] {
      NamesStayUnique(st, ticks[..|ticks| - 1]);
      hide Issue, NamesUnique;
      var before, tick := Exec(st, ticks[..|ticks| - 1]), ticks[|ticks| - 1];
      if tick.who < |before.threads| {
        StepKeepsNamesUnique(before.table, before.threads[tick.who], tick.now, tick.fault);
      }
    }
  }
}
