/** The rule that the first user is an admin, although the count and the insert are separate steps, and
    although batches and syncs do not check it. */
module FirstAdmin {
  import opened Values
  import opened FieldMask
  import opened StoreSpec
  import opened Handlers
  import opened Streams
  import opened Interleaving

  /** A step that makes an empty store non-empty stores an admin. */
  predicate AdminFirst(before: Store, after: Store) {
    before == map[] ==> forall id | id in after :: after[id].role == ADMIN
  }

  /** In all interleavings of the calls, from the empty store */
  ghost predicate AlwaysAdminFirst(calls: seq<Call>) {
    forall ticks: seq<Tick>, tick: Tick ::
      AdminFirst(Exec(Initial(map[], calls), ticks).store, Next(Exec(Initial(map[], calls), ticks), tick).store)
  }

  predicate ValidAdmin(call: Call) {
    call.AddUser? && ValidMessage(call.user) && call.user.role == ADMIN
  }

  predicate ValidOther(call: Call) {
    call.AddUser? && ValidMessage(call.user) && call.user.role != ADMIN
  }

  predicate Streamed(call: Call) {
    call.BatchAddUsers? || call.SyncUsers?
  }

  /** BatchAddUsers checks the id and the username, SyncUsers only the id. */
  predicate Addable(call: Call, u: User) {
    if call.BatchAddUsers? then ValidMessage(u) else u.id != 0
  }

  /** Message k is the first that the stream would add. */
  predicate FirstAdded(call: Call, k: nat)
    requires Streamed(call) && k < |call.users|
  {
    Addable(call, call.users[k]) && forall j | 0 <= j < k :: !Addable(call, call.users[j])
  }

  // ---------- When the rule can be broken ----------

  /** Message k is no admin, and all that the stream added before it can have been deleted by then. */
  predicate ExposesOther(calls: seq<Call>, call: Call, k: nat)
    requires Streamed(call) && k < |call.users|
  {
    && Addable(call, call.users[k]) && call.users[k].role != ADMIN
    && forall j | 0 <= j < k && Addable(call, call.users[j]) :: DeleteUser(call.users[j].id) in calls
  }

  ghost predicate StreamExposed(calls: seq<Call>, call: Call) {
    Streamed(call) && exists k | 0 <= k < |call.users| :: ExposesOther(calls, call, k)
  }

  /** u is the user that call adds when it is the first call to add one. */
  ghost predicate Opens(call: Call, u: User) {
    || (ValidAdmin(call) && call.user == u)
    || (Streamed(call) && exists k | 0 <= k < |call.users| :: FirstAdded(call, k) && call.users[k] == u)
  }

  /** AddUser of someone who is no admin can count a user that is deleted before the insert. */
  ghost predicate AddExposed(calls: seq<Call>) {
    && (exists b | b in calls :: ValidOther(b))
    && exists a: Call, u: User | a in calls && Opens(a, u) :: DeleteUser(u.id) in calls
  }

  ghost predicate Breakable(calls: seq<Call>) {
    AddExposed(calls) || exists call | call in calls :: StreamExposed(calls, call)
  }

  // ---------- What is kept: added users stay unless a call deletes them ----------

  predicate Remains(calls: seq<Call>, s: Store, id: Id) {
    id in s || DeleteUser(id) in calls
  }

  ghost predicate AddedRemain(calls: seq<Call>, call: Call, s: Store, users: seq<User>, n: nat) {
    forall j | 0 <= j < n && j < |users| && Addable(call, users[j]) :: Remains(calls, s, users[j].id)
  }

  /** All that a stream has dealt with so far, and what SyncUsers has found to exist, remains. */
  ghost predicate StreamKeeps(calls: seq<Call>, call: Call, s: Store, l: Local) {
    match l
    case BatchNext(users, n, _, _) => AddedRemain(calls, call, s, users, n)
    case SyncNext(users, answers) => AddedRemain(calls, call, s, users, |answers|)
    case SyncWrite(users, answers, found) =>
      && AddedRemain(calls, call, s, users, |answers|)
      && (found && |answers| < |users| ==> Remains(calls, s, users[|answers|].id))
    case _ => true
  }

  ghost predicate AllKept(calls: seq<Call>, st: State) {
    forall i | 0 <= i < |calls| && i < |st.threads| :: StreamKeeps(calls, calls[i], st.store, st.threads[i])
  }

  lemma StepRemovesOnlyByDelete(call: Call, s: Store, l: Local, now: Time, id: Id)
    requires Of(call, l) && id in s && call != DeleteUser(id)
    ensures id in Step(s, l, now).0
  {
    hide UsersPassing, UsersInRole, Resume;
  }

  lemma RemainsNext(calls: seq<Call>, call: Call, s: Store, l: Local, now: Time)
    requires call in calls && Of(call, l)
    ensures forall id | Remains(calls, s, id) :: Remains(calls, Step(s, l, now).0, id)
  {
    hide Of, Step;
    forall id | Remains(calls, s, id) ensures Remains(calls, Step(s, l, now).0, id) {
      if id in s && call != DeleteUser(id) {
        StepRemovesOnlyByDelete(call, s, l, now, id);
      }
    }
  }

  lemma OneMoreRemains(calls: seq<Call>, call: Call, s: Store, users: seq<User>, n: nat)
    requires n < |users| && AddedRemain(calls, call, s, users, n)
    requires Addable(call, users[n]) ==> Remains(calls, s, users[n].id)
    ensures AddedRemain(calls, call, s, users, n + 1)
  {
  }

  lemma AddedRemainNext(calls: seq<Call>, call: Call, s: Store, s': Store, users: seq<User>, n: nat)
    requires AddedRemain(calls, call, s, users, n)
    requires forall id | Remains(calls, s, id) :: Remains(calls, s', id)
    ensures AddedRemain(calls, call, s', users, n)
  {
    hide Remains, Addable;
  }

  lemma BatchStepKeeps(calls: seq<Call>, call: Call, s: Store, l: Local, now: Time)
    requires call in calls && Of(call, l) && l.BatchNext? && StreamKeeps(calls, call, s, l)
    ensures StreamKeeps(calls, call, Step(s, l, now).0, Step(s, l, now).1)
  {
    RemainsNext(calls, call, s, l, now);
    var users, n := l.users, l.received;
    AddedRemainNext(calls, call, s, Step(s, l, now).0, users, n);
    if n < |users| {
      StepBatch(s, users, n, l.added, l.errors, now);
      hide Step, AddedRemain;
      OneMoreRemains(calls, call, Step(s, l, now).0, users, n);
    } else {
      StepBatchEnd(s, users, n, l.added, l.errors, now);
    }
  }

  lemma SyncStepKeeps(calls: seq<Call>, call: Call, s: Store, l: Local, now: Time)
    requires call in calls && Of(call, l) && (l.SyncNext? || l.SyncWrite?) && StreamKeeps(calls, call, s, l)
    ensures StreamKeeps(calls, call, Step(s, l, now).0, Step(s, l, now).1)
  {
    RemainsNext(calls, call, s, l, now);
    hide Step, AddedRemain;
    match l {
      case SyncNext(users, answers) =>
        StepSyncNext(s, users, answers, now);
        if |answers| < |users| && users[|answers|].id == 0 {
          OneMoreRemains(calls, call, s, users, |answers|);
        }
      case SyncWrite(users, answers, found) =>
        StepSyncWrite(s, users, answers, found, now);
        AddedRemainNext(calls, call, s, Step(s, l, now).0, users, |answers|);
        OneMoreRemains(calls, call, Step(s, l, now).0, users, |answers|);
    }
  }

  lemma OwnStepKeeps(calls: seq<Call>, call: Call, s: Store, l: Local, now: Time)
    requires call in calls && Of(call, l) && StreamKeeps(calls, call, s, l)
    ensures StreamKeeps(calls, call, Step(s, l, now).0, Step(s, l, now).1)
  {
    StepOf(call, s, l, now);
    if l.BatchNext? {
      BatchStepKeeps(calls, call, s, l, now);
    } else if l.SyncNext? || l.SyncWrite? {
      SyncStepKeeps(calls, call, s, l, now);
    } else if l.Done? {
      StepDone(s, l.response, now);
    } else {
      assert !Streamed(call);
      hide Step;
    }
  }

  lemma OthersStepKeeps(calls: seq<Call>, call: Call, s: Store, s': Store, l: Local)
    requires StreamKeeps(calls, call, s, l)
    requires forall id | Remains(calls, s, id) :: Remains(calls, s', id)
    ensures StreamKeeps(calls, call, s', l)
  {
    hide Remains, AddedRemain;
    match l {
      case BatchNext(users, n, _, _) => AddedRemainNext(calls, call, s, s', users, n);
      case SyncNext(users, answers) => AddedRemainNext(calls, call, s, s', users, |answers|);
      case SyncWrite(users, answers, _) => AddedRemainNext(calls, call, s, s', users, |answers|);
      case _ =>
    }
  }

  lemma AllKeptNext(calls: seq<Call>, st: State, tick: Tick)
    requires Typed(calls, st) && AllKept(calls, st)
    ensures AllKept(calls, Next(st, tick))
  {
    hide Of, Step, StreamKeeps, Remains;
    if tick.who < |calls| {
      var call, l := calls[tick.who], st.threads[tick.who];
      RemainsNext(calls, call, st.store, l, tick.now);
      OwnStepKeeps(calls, call, st.store, l, tick.now);
      forall i | 0 <= i < |calls|
        ensures StreamKeeps(calls, calls[i], Next(st, tick).store, Next(st, tick).threads[i])
      {
        if i != tick.who {
          OthersStepKeeps(calls, calls[i], st.store, Next(st, tick).store, st.threads[i]);
        }
      }
    }
  }

  lemma {:induction false} AllKeptAlways(calls: seq<Call>, ticks: seq<Tick>)
    ensures Typed(calls, Exec(Initial(map[], calls), ticks)) && AllKept(calls, Exec(Initial(map[], calls), ticks))
    decreases |ticks|
  {
    AlwaysTyped(map[], calls, ticks);
    if ticks == [] {
      forall i | 0 <= i < |calls| ensures StreamKeeps(calls, calls[i], map[], Start(calls[i])) {
      }
    } else {
      hide AllKept, Typed, Next;
      AllKeptAlways(calls, ticks[..|ticks| - 1]);
      AllKeptNext(calls, Exec(Initial(map[], calls), ticks[..|ticks| - 1]), ticks[|ticks| - 1]);
    }
  }

  // ---------- What is kept: no add is pending on an empty store but that of an admin ----------

  /** A thread that has added nothing to a store that has always been empty */
  predicate StillWaiting(call: Call, l: Local) {
    match l
    case AddInsert(u) => u.role == ADMIN
    case BatchNext(users, n, _, _) =>
      call.BatchAddUsers? && users == call.users && n <= |users| && forall j | 0 <= j < n :: !Addable(call, users[j])
    case SyncNext(users, answers) =>
      call.SyncUsers? && users == call.users && |answers| <= |users|
      && forall j | 0 <= j < |answers| :: !Addable(call, users[j])
    case SyncWrite(users, answers, found) =>
      call.SyncUsers? && users == call.users && |answers| < |users| && !found
      && users[|answers|].id != 0 && forall j | 0 <= j < |answers| :: !Addable(call, users[j])
    case _ => true
  }

  ghost predicate Untouched(calls: seq<Call>, st: State) {
    st.store == map[] && forall i | 0 <= i < |calls| && i < |st.threads| :: StillWaiting(calls[i], st.threads[i])
  }

  ghost predicate Anchored(calls: seq<Call>, s: Store) {
    exists id :: id in s && DeleteUser(id) !in calls
  }

  /** On an empty store only an add writes, and the count lets only an admin through. */
  lemma UnaryOnEmpty(call: Call, l: Local, now: Time)
    requires Of(call, l) && !l.BatchNext? && !l.SyncNext? && !l.SyncWrite?
    ensures !l.AddInsert? ==> Step(map[], l, now).0 == map[] && StillWaiting(call, Step(map[], l, now).1)
    ensures l.AddInsert? ==>
              call == AddUser(l.user) && ValidMessage(l.user)
              && Step(map[], l, now).0 == map[l.user.id := Stored(WithDefaults(l.user, now))]
  {
    hide UsersPassing, UsersInRole, Edited, FirstAdded, Addable, ErrorOf, UsersOr, EmptyOr;
  }

  lemma FirstAddedOpens(call: Call, k: nat)
    requires Streamed(call) && k < |call.users| && FirstAdded(call, k)
    ensures Opens(call, call.users[k])
  {
  }

  /** The first write of a run is by the call that opens the store. */
  lemma StepOnUntouched(call: Call, l: Local, now: Time) returns (u: User)
    requires Of(call, l) && StillWaiting(call, l)
    ensures Step(map[], l, now).0 == map[] ==> StillWaiting(call, Step(map[], l, now).1)
    ensures Step(map[], l, now).0 != map[] ==> Opens(call, u) && u.id in Step(map[], l, now).0
  {
    u := NO_USER;
    hide Step, WithDefaults, Stored, Opens;
    match l {
      case BatchNext(users, n, added, errors) =>
        if n < |users| {
          StepBatch(map[], users, n, added, errors, now);
          u := users[n];
          if Addable(call, u) {
            FirstAddedOpens(call, n);
            assert u.id in Step(map[], l, now).0;
          }
        } else {
          StepBatchEnd(map[], users, n, added, errors, now);
        }
      case SyncNext(users, answers) =>
        StepSyncNext(map[], users, answers, now);
      case SyncWrite(users, answers, found) =>
        StepSyncWrite(map[], users, answers, found, now);
        u := users[|answers|];
        FirstAddedOpens(call, |answers|);
        assert u.id in Step(map[], l, now).0;
      case AddInsert(added) =>
        UnaryOnEmpty(call, l, now);
        u := added;
        AdminAddOpens(call, u);
        assert u.id in Step(map[], l, now).0;
      case _ =>
        UnaryOnEmpty(call, l, now);
    }
  }

  lemma AdminAddOpens(call: Call, u: User)
    requires call == AddUser(u) && ValidMessage(u) && u.role == ADMIN
    ensures Opens(call, u)
  {
  }

  lemma GuardNext(calls: seq<Call>, st: State, tick: Tick)
    requires Typed(calls, st)
    requires forall a: Call, u: User | a in calls && Opens(a, u) :: DeleteUser(u.id) !in calls
    requires Untouched(calls, st) || Anchored(calls, st.store)
    ensures Untouched(calls, Next(st, tick)) || Anchored(calls, Next(st, tick).store)
  {
    hide Of, Step, StillWaiting, Opens;
    if tick.who < |calls| {
      var call, l := calls[tick.who], st.threads[tick.who];
      assert call in calls;
      if Anchored(calls, st.store) {
        var id :| id in st.store && DeleteUser(id) !in calls;
        StepRemovesOnlyByDelete(call, st.store, l, tick.now, id);
      } else {
        var u := StepOnUntouched(call, l, tick.now);
      }
    }
  }

  lemma {:induction false} GuardAlways(calls: seq<Call>, ticks: seq<Tick>)
    requires forall a: Call, u: User | a in calls && Opens(a, u) :: DeleteUser(u.id) !in calls
    ensures var st := Exec(Initial(map[], calls), ticks);
            Typed(calls, st) && (Untouched(calls, st) || Anchored(calls, st.store))
    decreases |ticks|
  {
    AlwaysTyped(map[], calls, ticks);
    if ticks == [] {
      forall i | 0 <= i < |calls| ensures StillWaiting(calls[i], Start(calls[i])) {
      }
    } else {
      hide Untouched, Anchored, Typed, Next, Opens;
      GuardAlways(calls, ticks[..|ticks| - 1]);
      GuardNext(calls, Exec(Initial(map[], calls), ticks[..|ticks| - 1]), ticks[|ticks| - 1]);
    }
  }

  // ---------- When the rule holds ----------

  /** A stream's step on an empty store adds only an admin, unless it is exposed. */
  lemma StreamOnEmpty(calls: seq<Call>, call: Call, l: Local, now: Time)
    requires Of(call, l) && Streamed(call) && !StreamExposed(calls, call) && StreamKeeps(calls, call, map[], l)
    ensures AdminFirst(map[], Step(map[], l, now).0)
  {
    hide Step, Stored, WithDefaults;
    match l {
      case BatchNext(users, n, added, errors) =>
        if n < |users| {
          StepBatch(map[], users, n, added, errors, now);
          NotExposed(calls, call, map[], users, n);
          AddedHasRole(users[n], now);
        } else {
          StepBatchEnd(map[], users, n, added, errors, now);
        }
      case SyncNext(users, answers) =>
        StepSyncNext(map[], users, answers, now);
      case SyncWrite(users, answers, found) =>
        StepSyncWrite(map[], users, answers, found, now);
        NotExposed(calls, call, map[], users, |answers|);
        AddedHasRole(users[|answers|], now);
      case Done(r) =>
        StepDone(map[], r, now);
    }
  }

  lemma AddedHasRole(u: User, now: Time)
    ensures Stored(WithDefaults(u, now)).role == u.role
  {
  }

  lemma NotExposed(calls: seq<Call>, call: Call, s: Store, users: seq<User>, n: nat)
    requires Streamed(call) && call.users == users && n < |users|
    requires !StreamExposed(calls, call) && AddedRemain(calls, call, s, users, n)
    ensures Addable(call, users[n]) && users[n].role != ADMIN ==> s != map[]
  {
    if Addable(call, users[n]) && users[n].role != ADMIN {
      assert !ExposesOther(calls, call, n);
      var j :| 0 <= j < n && Addable(call, users[j]) && DeleteUser(users[j].id) !in calls;
      assert Remains(calls, s, users[j].id);
    }
  }

  lemma AddOnEmpty(calls: seq<Call>, st: State, tick: Tick)
    requires !AddExposed(calls) && Typed(calls, st) && tick.who < |calls| && !Streamed(calls[tick.who])
    requires (exists b | b in calls :: ValidOther(b)) ==> Untouched(calls, st) || Anchored(calls, st.store)
    ensures AdminFirst(st.store, Next(st, tick).store)
  {
    hide Step, Opens, WithDefaults, Stored;
    var call, l := calls[tick.who], st.threads[tick.who];
    assert call in calls;
    if st.store == map[] {
      UnaryOnEmpty(call, l, tick.now);
      if l.AddInsert? {
        AddedHasRole(l.user, tick.now);
        assert l.user.role != ADMIN ==> ValidOther(call);
        assert Untouched(calls, st) ==> StillWaiting(call, l);
      }
    }
  }

  lemma AlwaysFirstUnless(calls: seq<Call>, ticks: seq<Tick>, tick: Tick)
    requires !Breakable(calls)
    ensures AdminFirst(Exec(Initial(map[], calls), ticks).store, Next(Exec(Initial(map[], calls), ticks), tick).store)
  {
    var st := Exec(Initial(map[], calls), ticks);
    AllKeptAlways(calls, ticks);
    if exists b | b in calls :: ValidOther(b) {
      GuardAlways(calls, ticks);
    }
    hide Exec, Of, Step, Opens, StreamKeeps, StreamExposed;
    if tick.who < |calls| {
      assert calls[tick.who] in calls;
      if Streamed(calls[tick.who]) {
        if st.store == map[] {
          StreamOnEmpty(calls, calls[tick.who], st.threads[tick.who], tick.now);
        }
      } else {
        AddOnEmpty(calls, st, tick);
      }
    }
  }

  // ---------- When the rule is broken ----------

  predicate DeletesPending(st: State) {
    forall id | id in st.store :: exists d :: 0 <= d < |st.threads| && st.threads[d] == DeleteWrite(id)
  }

  lemma DeleteOne(st: State, i: nat, d: nat, id: Id)
    requires i < |st.threads| && d < |st.threads| && !st.threads[i].DeleteWrite? && DeletesPending(st)
    requires id in st.store && st.threads[d] == DeleteWrite(id)
    ensures var next := Next(st, Tick(d, 0));
            && DeletesPending(next) && next.store == st.store - {id} && |next.store| < |st.store|
            && |next.threads| == |st.threads| && next.threads[i] == st.threads[i]
  {
    StepDeleteWrite(st.store, id, 0);
    hide Step;
    var next := Next(st, Tick(d, 0));
    forall other | other in next.store
      ensures exists e :: 0 <= e < |next.threads| && next.threads[e] == DeleteWrite(other)
    {
      var e :| 0 <= e < |st.threads| && st.threads[e] == DeleteWrite(other);
      assert next.threads[e] == DeleteWrite(other);
    }
    assert (st.store - {id}).Keys == st.store.Keys - {id};
  }

  /** Deletes that have not been made yet empty the store, one after the other, while thread i waits. */
  lemma {:induction false} DeleteAll(st: State, i: nat) returns (ticks: seq<Tick>)
    requires i < |st.threads| && !st.threads[i].DeleteWrite? && DeletesPending(st)
    ensures Exec(st, ticks).store == map[]
    ensures |Exec(st, ticks).threads| == |st.threads| && Exec(st, ticks).threads[i] == st.threads[i]
    decreases |st.store|
  {
    if st.store == map[] {
      ticks := [];
    } else {
      var id :| id in st.store;
      var d :| 0 <= d < |st.threads| && st.threads[d] == DeleteWrite(id);
      hide Next, Exec, DeletesPending;
      DeleteOne(st, i, d, id);
      var rest := DeleteAll(Next(st, Tick(d, 0)), i);
      ticks := [Tick(d, 0)] + rest;
      ExecAppends(st, [Tick(d, 0)], rest);
      ExecOne(st, Tick(d, 0));
    }
  }

  lemma ExecOne(st: State, tick: Tick)
    ensures Exec(st, [tick]) == Next(st, tick)
  {
    hide Next;
    assert [tick][..0] == [];
  }

  /** A batch running alone from the empty store has added no one but the valid messages it has seen. */
  lemma BatchAdds(users: seq<User>, n: nat) returns (times: seq<Time>, s: Store, l: Local)
    requires n <= |users|
    ensures Reaches(map[], BatchAddUsers(users), times, s, l) && l.BatchNext? && l.users == users && l.received == n
    ensures forall id | id in s :: exists j | 0 <= j < n :: users[j].id == id && ValidMessage(users[j])
    ensures forall j | 0 <= j < n && FirstAdded(BatchAddUsers(users), j) :: users[j].id in s
  {
    times := seq(n, _ => 0);
    var added, errors;
    s, added, errors := BatchRuns(map[], users, times);
    l := BatchNext(users, n, added, errors);
    hide Solo, Start, Refusals;
  }

  /** The same of a sync, for the messages with an id */
  lemma SyncAdds(users: seq<User>, n: nat) returns (times: seq<Time>, s: Store, l: Local)
    requires n <= |users|
    ensures Reaches(map[], SyncUsers(users), times, s, l) && l.SyncNext? && l.users == users && |l.answers| == n
    ensures forall id | id in s :: exists j | 0 <= j < n :: users[j].id == id && users[j].id != 0
    ensures forall j | 0 <= j < n && users[j].id != 0 :: users[j].id in s
  {
    var answers;
    times, s, answers := SyncProgress(map[], users, n);
    l := SyncNext(users, answers);
    SyncMeaning(map[], users, times);
    hide Step, Solo, Start, Fresh;
    forall id | id in s ensures exists j | 0 <= j < n :: users[j].id == id && users[j].id != 0 {
      assert SyncHolds(map[], s, users, n, times, id);
      LastForIsLast(users, n, id);
    }
    forall j | 0 <= j < n && users[j].id != 0 ensures users[j].id in s {
      assert SyncHolds(map[], s, users, n, times, users[j].id);
      LastForIsLast(users, n, users[j].id);
    }
  }

  /** A stream that runs alone up to message n has added exactly what it could. */
  lemma StreamAdds(call: Call, n: nat) returns (times: seq<Time>, s: Store, l: Local)
    requires Streamed(call) && n <= |call.users|
    ensures Reaches(map[], call, times, s, l) && AtMessage(call, l, n)
    ensures forall id | id in s :: exists j | 0 <= j < n :: call.users[j].id == id && Addable(call, call.users[j])
    ensures forall j | 0 <= j < n && FirstAdded(call, j) :: call.users[j].id in s
  {
    hide Reaches;
    if call.BatchAddUsers? {
      times, s, l := BatchAdds(call.users, n);
    } else {
      times, s, l := SyncAdds(call.users, n);
    }
  }

  predicate AtMessage(call: Call, l: Local, n: nat) {
    || (call.BatchAddUsers? && l.BatchNext? && l.users == call.users && l.received == n)
    || (call.SyncUsers? && l.SyncNext? && l.users == call.users && |l.answers| == n)
  }

  /** Threads that have not started, but for thread i */
  predicate OthersAtStart(calls: seq<Call>, st: State, i: nat) {
    |st.threads| == |calls| && forall d | 0 <= d < |calls| && d != i :: st.threads[d] == Start(calls[d])
  }

  lemma DeletesReady(calls: seq<Call>, st: State, i: nat)
    requires i < |calls| && !calls[i].DeleteUser? && OthersAtStart(calls, st, i)
    requires forall id | id in st.store :: id != 0 && DeleteUser(id) in calls
    ensures DeletesPending(st)
  {
    forall id | id in st.store ensures exists d :: 0 <= d < |st.threads| && st.threads[d] == DeleteWrite(id) {
      var d :| 0 <= d < |calls| && calls[d] == DeleteUser(id);
      assert st.threads[d] == DeleteWrite(id);
    }
  }

  /** A stream at someone who is no admin, on an empty store, adds them. */
  lemma StreamBreaks(call: Call, st: State, i: nat, k: nat) returns (ticks: seq<Tick>, tick: Tick)
    requires i < |st.threads| && st.store == map[] && Streamed(call) && k < |call.users|
    requires AtMessage(call, st.threads[i], k) && Addable(call, call.users[k]) && call.users[k].role != ADMIN
    ensures !AdminFirst(Exec(st, ticks).store, Next(Exec(st, ticks), tick).store)
  {
    var u := call.users[k];
    AddedHasRole(u, 0);
    hide Step, Stored, WithDefaults, Exec;
    tick := Tick(i, 0);
    match st.threads[i] {
      case BatchNext(users, _, added, errors) =>
        StepBatch(map[], users, k, added, errors, 0);
        ticks := [];
        ExecNone(st);
      case SyncNext(users, answers) =>
        StepSyncNext(map[], users, answers, 0);
        StepSyncWrite(map[], users, answers, false, 0);
        ticks := [tick];
        ExecOne(st, tick);
    }
    assert Next(Exec(st, ticks), tick).store == map[u.id := Stored(WithDefaults(u, 0))];
    assert u.id in Next(Exec(st, ticks), tick).store;
  }

  lemma ExecNone(st: State)
    ensures Exec(st, []) == st
  {
  }

  lemma Broken(calls: seq<Call>, first: seq<Tick>, rest: seq<Tick>, tick: Tick)
    requires var st := Exec(Exec(Initial(map[], calls), first), rest); !AdminFirst(st.store, Next(st, tick).store)
    ensures !AlwaysAdminFirst(calls)
  {
    ExecAppends(Initial(map[], calls), first, rest);
    hide Exec, Initial, Next, AdminFirst;
    assert !AdminFirst(Exec(Initial(map[], calls), first + rest).store,
                       Next(Exec(Initial(map[], calls), first + rest), tick).store);
  }

  lemma AfterSolo(calls: seq<Call>, i: nat, times: seq<Time>, s: Store, l: Local)
    requires i < |calls| && Reaches(map[], calls[i], times, s, l)
    ensures var st := Exec(Initial(map[], calls), TicksOf(i, times));
            st.store == s && OthersAtStart(calls, st, i) && st.threads[i] == l
  {
    hide Step, Solo, Exec, Start;
    ExecSolo(Initial(map[], calls), i, times);
  }

  /** An exposed stream runs up to the exposed message, everyone it added is deleted, and it goes on. */
  lemma ExposedStreamBreaks(calls: seq<Call>, i: nat, k: nat)
    requires i < |calls| && Streamed(calls[i]) && k < |calls[i].users| && ExposesOther(calls, calls[i], k)
    ensures !AlwaysAdminFirst(calls)
  {
    hide Reaches, Exec, Next, Initial, AdminFirst, Addable, AlwaysAdminFirst;
    var call := calls[i];
    var times, s, l := StreamAdds(call, k);
    AfterSolo(calls, i, times, s, l);
    var st := Exec(Initial(map[], calls), TicksOf(i, times));
    AddableHasId(call);
    DeletesReady(calls, st, i);
    var deletes := DeleteAll(st, i);
    var ticks, tick := StreamBreaks(call, Exec(st, deletes), i, k);
    ExecAppends(st, deletes, ticks);
    Broken(calls, TicksOf(i, times), deletes + ticks, tick);
  }

  lemma AddableHasId(call: Call)
    ensures forall u: User | Addable(call, u) :: u.id != 0
  {
  }

  lemma AdminOpens(u: User) returns (times: seq<Time>, s: Store, l: Local)
    requires ValidAdmin(AddUser(u))
    ensures Reaches(map[], AddUser(u), times, s, l) && s.Keys == {u.id}
  {
    StepAddCount(map[], u, 0);
    StepAddInsert(map[], u, 0);
    ReachesStart(map[], AddUser(u));
    hide Reaches, Step, Stored, WithDefaults;
    ReachesNext(map[], AddUser(u), [], map[], AddCount(u), 0);
    ReachesNext(map[], AddUser(u), [] + [0], map[], AddInsert(u), 0);
    times, s, l := [] + [0] + [0], map[u.id := Stored(WithDefaults(u, 0))], Done(Empty);
  }

  lemma StreamOpens(call: Call, k: nat) returns (times: seq<Time>, s: Store, l: Local)
    requires Streamed(call) && k < |call.users| && FirstAdded(call, k)
    ensures Reaches(map[], call, times, s, l) && s.Keys == {call.users[k].id}
  {
    hide Reaches, Addable;
    times, s, l := StreamAdds(call, k + 1);
    assert forall id | id in s :: id == call.users[k].id;
  }

  /** The call that opens the store runs until it has done so. */
  lemma Opening(call: Call, u: User) returns (times: seq<Time>, s: Store, l: Local)
    requires Opens(call, u)
    ensures Reaches(map[], call, times, s, l) && s.Keys == {u.id} && u.id != 0
  {
    AddableHasId(call);
    if Streamed(call) {
      var k :| 0 <= k < |call.users| && FirstAdded(call, k) && call.users[k] == u;
      hide Reaches;
      times, s, l := StreamOpens(call, k);
    } else {
      hide Reaches;
      times, s, l := AdminOpens(u);
    }
  }

  /** With one user stored, someone who is no admin passes the count. */
  lemma CountPasses(calls: seq<Call>, st: State, i: nat, j: nat, id: Id)
    requires i < |calls| && j < |calls| && i != j && !calls[i].DeleteUser? && OthersAtStart(calls, st, i)
    requires st.store.Keys == {id} && id != 0 && DeleteUser(id) in calls && ValidOther(calls[j])
    ensures var counted := Next(st, Tick(j, 0));
            && counted == State(st.store, st.threads[j := AddInsert(calls[j].user)])
            && exists d :: 0 <= d < |calls| && counted.threads[d] == DeleteWrite(id)
  {
    assert id in st.store;
    StepAddCount(st.store, calls[j].user, 0);
    hide Step;
    var d :| 0 <= d < |calls| && calls[d] == DeleteUser(id);
    assert Next(st, Tick(j, 0)).threads[d] == DeleteWrite(id);
  }

  /** One user is added, AddUser counts it, it is deleted, and AddUser inserts someone who is no admin first. */
  lemma ExposedAddBreaks(calls: seq<Call>, i: nat, u: User, j: nat)
    requires i < |calls| && j < |calls| && Opens(calls[i], u) && ValidOther(calls[j]) && DeleteUser(u.id) in calls
    ensures !AlwaysAdminFirst(calls)
  {
    var times, s, l := Opening(calls[i], u);
    assert i != j && !calls[i].DeleteUser?;
    hide Reaches, Opens, Exec, Step, Initial, AdminFirst, AlwaysAdminFirst, ValidOther, Next;
    AfterSolo(calls, i, times, s, l);
    var st := Exec(Initial(map[], calls), TicksOf(i, times));
    CountPasses(calls, st, i, j, u.id);
    OtherIsNoAdmin(calls[j]);
    var counted := Next(st, Tick(j, 0));
    assert forall id | id in counted.store :: id == u.id;
    var deletes := DeleteAll(counted, j);
    LateInsertBreaks(Exec(counted, deletes), j, calls[j].user);
    ExecOne(st, Tick(j, 0));
    ExecAppends(st, [Tick(j, 0)], deletes);
    Broken(calls, TicksOf(i, times), [Tick(j, 0)] + deletes, Tick(j, 0));
  }

  lemma OtherIsNoAdmin(call: Call)
    requires ValidOther(call)
    ensures call.AddUser? && call.user.role != ADMIN
  {
  }

  lemma LateInsertBreaks(st: State, j: nat, b: User)
    requires j < |st.threads| && st.store == map[] && st.threads[j] == AddInsert(b) && b.role != ADMIN
    ensures !AdminFirst(st.store, Next(st, Tick(j, 0)).store)
  {
    AddedHasRole(b, 0);
    StepAddInsert(map[], b, 0);
    hide Step, Stored, WithDefaults;
    assert b.id in Next(st, Tick(j, 0)).store;
  }

  // ---------- The exact condition ----------

  /** For all families of calls: the first user is an admin in every interleaving exactly when
      - no batch or sync has a message that is no admin and before which everyone it added can be deleted, and
      - no AddUser of someone who is no admin meets a call that can open the store with a user who can be deleted. */
  lemma FirstUserIsAdminExactly(calls: seq<Call>)
    ensures AlwaysAdminFirst(calls) <==> !Breakable(calls)
  {
    if !Breakable(calls) {
      forall ticks: seq<Tick>, tick: Tick
        ensures AdminFirst(Exec(Initial(map[], calls), ticks).store,
                           Next(Exec(Initial(map[], calls), ticks), tick).store)
      {
        AlwaysFirstUnless(calls, ticks, tick);
      }
    } else if AddExposed(calls) {
      var b :| b in calls && ValidOther(b);
      var j :| 0 <= j < |calls| && calls[j] == b;
      var a: Call, u: User :| a in calls && Opens(a, u) && DeleteUser(u.id) in calls;
      var i :| 0 <= i < |calls| && calls[i] == a;
      ExposedAddBreaks(calls, i, u, j);
    } else {
      var call :| call in calls && StreamExposed(calls, call);
      var i :| 0 <= i < |calls| && calls[i] == call;
      var k :| 0 <= k < |call.users| && ExposesOther(calls, call, k);
      ExposedStreamBreaks(calls, i, k);
    }
  }

  /** Without batches and syncs: exactly when the calls do not include an admin, someone who is not one, and a
      delete of that admin. */
  lemma FirstUserIsAdminWithoutStreamsExactly(calls: seq<Call>)
    requires forall call | call in calls :: !Streamed(call)
    ensures AlwaysAdminFirst(calls) <==>
              !exists a, b | a in calls && b in calls ::
                ValidAdmin(a) && ValidOther(b) && DeleteUser(a.user.id) in calls
  {
    FirstUserIsAdminExactly(calls);
    hide AlwaysAdminFirst;
    if a, b :| a in calls && b in calls && ValidAdmin(a) && ValidOther(b) && DeleteUser(a.user.id) in calls {
      assert Opens(a, a.user);
    }
  }

  /** Without deletes: exactly when each batch and each sync leads with an admin. AddUser needs no condition. */
  lemma FirstUserIsAdminWithoutDeletesExactly(calls: seq<Call>)
    requires forall call | call in calls :: !call.DeleteUser?
    ensures AlwaysAdminFirst(calls) <==>
              forall call | call in calls && Streamed(call) ::
                forall k | 0 <= k < |call.users| && FirstAdded(call, k) :: call.users[k].role == ADMIN
  {
    FirstUserIsAdminExactly(calls);
    hide AlwaysAdminFirst;
    forall call, k | call in calls && Streamed(call) && 0 <= k < |call.users|
      ensures ExposesOther(calls, call, k) <==> FirstAdded(call, k) && call.users[k].role != ADMIN
    {
    }
  }
}
