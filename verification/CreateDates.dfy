/** When every stored user keeps a create date. */
module CreateDates {
  import opened Values
  import opened FieldMask
  import opened StoreSpec
  import opened Handlers
  import opened Streams
  import opened Interleaving
  import opened FirstAdmin

  ghost predicate AllDated(s: Store) {
    forall id | id in s :: s[id].createDate.Some?
  }

  /** Every message that SyncUsers may store as it came has a create date. */
  ghost predicate SyncsDated(calls: seq<Call>) {
    forall i | 0 <= i < |calls| && calls[i].SyncUsers? :: MessagesDated(calls[i].users)
  }

  predicate MessagesDated(users: seq<User>) {
    forall k | 0 <= k < |users| && users[k].id != 0 :: users[k].createDate.Some?
  }

  lemma FetchDated(s: Store, req: User, mask: seq<string>, now: Time)
    requires AllDated(s)
    ensures var l := Step(s, UpdateFetch(req, mask), now).1;
            !l.SyncNext? && !l.SyncWrite? && !l.ActivityWrite? && (l.UpdateWrite? ==> l.edited.createDate.Some?)
  {
    hide Edited, Known, Named, Merged, PathError;
    if req.id in s {
      MaskMeaning(Stored(s[req.id]), req, mask);
    }
  }

  // ---------- From one given store ----------

  /** Call o can make the store non-empty before message k of sync i. */
  predicate OpensBefore(calls: seq<Call>, o: nat, i: nat, k: nat)
    requires o < |calls|
  {
    || ValidAdmin(calls[o])
    || (Streamed(calls[o])
        && exists m | 0 <= m < |calls[o].users| :: (o == i ==> m < k) && Addable(calls[o], calls[o].users[m]))
  }

  /** Call j can insert the user before message k of sync i comes to it. On an empty store an AddUser of someone who
      is no admin needs another call to open the store. */
  predicate CanInsertBefore(s: Store, calls: seq<Call>, i: nat, k: nat, id: Id, j: nat)
    requires j < |calls|
  {
    && j != i && CanInsert(calls[j], id)
    && (s == map[] && ValidOther(calls[j]) ==> exists o | 0 <= o < |calls| :: OpensBefore(calls, o, i, k))
  }

  /** Message k of sync i has no date, and its user can be there when it comes: stored from the start, sent
      before in the same stream, or inserted by another call. */
  predicate CanUndate(s: Store, calls: seq<Call>, i: nat, k: nat)
    requires i < |calls| && calls[i].SyncUsers? && k < |calls[i].users|
  {
    var users := calls[i].users;
    && users[k].id != 0 && users[k].createDate.None?
    && (|| users[k].id in s
        || (exists m | 0 <= m < k :: users[m].id == users[k].id)
        || (exists j | 0 <= j < |calls| :: CanInsertBefore(s, calls, i, k, users[k].id, j)))
  }

  ghost predicate NoneCanUndate(s: Store, calls: seq<Call>) {
    forall i, k | 0 <= i < |calls| && calls[i].SyncUsers? && 0 <= k < |calls[i].users| :: !CanUndate(s, calls, i, k)
  }

  /** The users of messages from n on that have no date are not stored. */
  ghost predicate UndatedMissing(users: seq<User>, n: nat, s: Store) {
    forall k | n <= k < |users| && users[k].id != 0 && users[k].createDate.None? :: users[k].id !in s
  }

  /** What a thread is about to store has a date. */
  ghost predicate Careful(call: Call, l: Local, s: Store) {
    match l
    case UpdateWrite(u) => u.createDate.Some?
    case ActivityWrite(_, _, _, u) => u.createDate.Some?
    case SyncNext(users, answers) => UndatedMissing(users, |answers|, s)
    case SyncWrite(users, answers, found) =>
      && |answers| < |users| && UndatedMissing(users, |answers|, s)
      && (found ==> users[|answers|].createDate.Some?)
    case _ => true
  }

  lemma CarefulWrites(call: Call, s: Store, l: Local, now: Time)
    requires AllDated(s) && Of(call, l) && Careful(call, l, s)
    ensures AllDated(Step(s, l, now).0)
  {
    var req := Ask(l, now);
    assert req.Update? ==> req.user.createDate.Some?;
    hide Ask, Careful, Resume;
  }

  lemma OnlyAddsInsert(call: Call, s: Store, l: Local, now: Time, id: Id)
    requires Of(call, l) && id !in s && id in Step(s, l, now).0
    ensures CanInsert(call, id)
  {
    hide Resume, UsersPassing, UsersInRole;
  }

  lemma UnaryStaysCareful(call: Call, s: Store, l: Local, now: Time)
    requires AllDated(s) && Of(call, l) && !call.SyncUsers? && Careful(call, l, s)
    ensures Careful(call, Step(s, l, now).1, Step(s, l, now).0)
  {
    StepOf(call, s, l, now);
    if l.UpdateFetch? {
      FetchDated(s, l.req, l.mask, now);
      hide Step;
    } else {
      hide UsersPassing, UsersInRole, AfterFetch, MessageError, EmptyOr, UsersOr, After;
    }
  }

  lemma SyncStaysCareful(s0: Store, calls: seq<Call>, i: nat, s: Store, l: Local, now: Time)
    requires i < |calls| && calls[i].SyncUsers? && NoneCanUndate(s0, calls)
    requires Of(calls[i], l) && Careful(calls[i], l, s)
    ensures Careful(calls[i], Step(s, l, now).1, Step(s, l, now).0)
  {
    hide Step;
    var users := calls[i].users;
    match l {
      case SyncNext(_, answers) =>
        StepSyncNext(s, users, answers, now);
      case SyncWrite(_, answers, found) =>
        StepSyncWrite(s, users, answers, found, now);
        forall k | |answers| < k < |users| && users[k].id != 0 && users[k].createDate.None?
          ensures users[k].id != users[|answers|].id
        {
          assert !CanUndate(s0, calls, i, k);
        }
      case Done(r) =>
        StepDone(s, r, now);
    }
  }

  /** Message k of sync i has no date, and only an AddUser that waits for the store to be opened could insert
      its user before. */
  predicate Waits(calls: seq<Call>, i: nat, k: nat)
    requires i < |calls|
  {
    && calls[i].SyncUsers? && k < |calls[i].users|
    && calls[i].users[k].id != 0 && calls[i].users[k].createDate.None?
    && exists j | 0 <= j < |calls| :: j != i && CanInsert(calls[j], calls[i].users[k].id)
  }

  /** Message k of the stream has not been dealt with. */
  predicate NotPassed(l: Local, k: nat) {
    (l.SyncNext? || l.SyncWrite?) && |l.answers| <= k
  }

  /** Until such a message has been dealt with, the store has never been opened. */
  ghost predicate Calm(calls: seq<Call>, st: State) {
    forall i, k: nat | 0 <= i < |calls| && i < |st.threads| && Waits(calls, i, k) && NotPassed(st.threads[i], k) ::
      Untouched(calls, st)
  }

  lemma WaitingHasNoOpener(s: Store, calls: seq<Call>, i: nat, k: nat, o: nat)
    requires NoneCanUndate(s, calls) && i < |calls| && Waits(calls, i, k) && o < |calls|
    ensures s == map[] && !OpensBefore(calls, o, i, k)
    ensures o != i && CanInsert(calls[o], calls[i].users[k].id) ==> ValidOther(calls[o])
  {
    assert !CanUndate(s, calls, i, k);
    var j :| 0 <= j < |calls| && j != i && CanInsert(calls[j], calls[i].users[k].id);
    assert !CanInsertBefore(s, calls, i, k, calls[i].users[k].id, j);
    if o != i {
      assert !CanInsertBefore(s, calls, i, k, calls[i].users[k].id, o);
    }
  }

  lemma PassingIsForward(call: Call, s: Store, l: Local, now: Time, k: nat)
    requires Of(call, l) && call.SyncUsers? && NotPassed(Step(s, l, now).1, k)
    ensures NotPassed(l, k)
    ensures Step(s, l, now).0 == s || (l.SyncWrite? && |l.answers| < k && l.users[|l.answers|].id != 0)
  {
    hide Step;
    match l {
      case SyncNext(users, answers) => StepSyncNext(s, users, answers, now);
      case SyncWrite(users, answers, found) => StepSyncWrite(s, users, answers, found, now);
      case Done(r) => StepDone(s, r, now);
    }
  }

  lemma CalmNextFor(s: Store, calls: seq<Call>, st: State, tick: Tick, i: nat, k: nat)
    requires NoneCanUndate(s, calls) && Typed(calls, st) && i < |calls| && Waits(calls, i, k)
    requires Untouched(calls, st) && (tick.who == i ==> NotPassed(Next(st, tick).threads[i], k))
    ensures Untouched(calls, Next(st, tick))
  {
    hide Of, Step, StillWaiting, Waits, NoneCanUndate, OpensBefore, NotPassed;
    if tick.who < |calls| {
      var call, l := calls[tick.who], st.threads[tick.who];
      WaitingHasNoOpener(s, calls, i, k, tick.who);
      if tick.who == i {
        WaitingIsSync(calls, i, k);
        PassingIsForward(call, st.store, l, tick.now, k);
        OnlySentIsWritten(calls, i, k, st.store, l, tick.now);
      }
      var u := StepOnUntouched(call, l, tick.now);
      if tick.who != i {
        OpenerOpens(calls, tick.who, i, k, u);
      }
    }
  }

  lemma WaitingIsSync(calls: seq<Call>, i: nat, k: nat)
    requires i < |calls| && Waits(calls, i, k)
    ensures calls[i].SyncUsers?
  {
  }

  lemma OnlySentIsWritten(calls: seq<Call>, i: nat, k: nat, s: Store, l: Local, now: Time)
    requires i < |calls| && calls[i].SyncUsers? && Of(calls[i], l) && !OpensBefore(calls, i, i, k)
    requires Step(s, l, now).0 == s || (l.SyncWrite? && |l.answers| < k && l.users[|l.answers|].id != 0)
    ensures Step(s, l, now).0 == s
  {
    hide Step;
    if l.SyncWrite? {
      assert l.users[|l.answers|].id != 0 ==> Addable(calls[i], calls[i].users[|l.answers|]);
    }
  }

  lemma OpenerOpens(calls: seq<Call>, o: nat, i: nat, k: nat, u: User)
    requires o < |calls| && o != i
    ensures Opens(calls[o], u) ==> OpensBefore(calls, o, i, k)
  {
    if Opens(calls[o], u) && !ValidAdmin(calls[o]) {
      var m :| 0 <= m < |calls[o].users| && FirstAdded(calls[o], m) && calls[o].users[m] == u;
      assert Addable(calls[o], calls[o].users[m]);
    }
  }

  lemma CalmNext(s: Store, calls: seq<Call>, st: State, tick: Tick)
    requires NoneCanUndate(s, calls) && Typed(calls, st) && Calm(calls, st)
    ensures Calm(calls, Next(st, tick))
  {
    hide Of, Step, Untouched, NoneCanUndate;
    forall i, k: nat | 0 <= i < |calls| && Waits(calls, i, k) && NotPassed(Next(st, tick).threads[i], k)
      ensures Untouched(calls, Next(st, tick))
    {
      if tick.who == i {
        PassingIsForward(calls[i], st.store, st.threads[i], tick.now, k);
      }
      CalmNextFor(s, calls, st, tick, i, k);
    }
  }

  /** While a message without a date waits, no other call inserts its user. */
  lemma NotInsertedMeanwhile(s: Store, calls: seq<Call>, st: State, tick: Tick, i: nat, k: nat)
    requires NoneCanUndate(s, calls) && Typed(calls, st) && Calm(calls, st)
    requires i < |calls| && i != tick.who && tick.who < |calls| && calls[i].SyncUsers? && k < |calls[i].users|
    requires calls[i].users[k].id != 0 && calls[i].users[k].createDate.None? && NotPassed(st.threads[i], k)
    requires calls[i].users[k].id !in st.store
    ensures calls[i].users[k].id !in Next(st, tick).store
  {
    hide Step, Of, Untouched, NoneCanUndate;
    var id, call, l := calls[i].users[k].id, calls[tick.who], st.threads[tick.who];
    if CanInsert(call, id) {
      assert Waits(calls, i, k);
      WaitingHasNoOpener(s, calls, i, k, tick.who);
      CalmNextFor(s, calls, st, tick, i, k);
      UntouchedIsEmpty(calls, Next(st, tick));
    } else if id in Next(st, tick).store {
      OnlyAddsInsert(call, st.store, l, tick.now, id);
    }
  }

  lemma UntouchedIsEmpty(calls: seq<Call>, st: State)
    requires Untouched(calls, st)
    ensures st.store == map[]
  {
  }

  lemma OthersLeaveCareful(s0: Store, calls: seq<Call>, st: State, tick: Tick, i: nat)
    requires NoneCanUndate(s0, calls) && Typed(calls, st) && Calm(calls, st) && i < |calls| && i != tick.who
    requires Careful(calls[i], st.threads[i], st.store)
    ensures Careful(calls[i], st.threads[i], Next(st, tick).store)
  {
    hide Of, Step, Calm, NoneCanUndate;
    if tick.who < |calls| && calls[i].SyncUsers? {
      var users, l := calls[i].users, st.threads[i];
      SyncHasUsers(calls[i], l);
      forall k | 0 <= k < |users| && users[k].id != 0 && users[k].createDate.None? && NotPassed(l, k)
                 && users[k].id !in st.store
        ensures users[k].id !in Next(st, tick).store
      {
        NotInsertedMeanwhile(s0, calls, st, tick, i, k);
      }
    } else if tick.who < |calls| {
      OnlySyncsSync(calls[i], st.threads[i]);
    }
  }

  lemma SyncHasUsers(call: Call, l: Local)
    requires Of(call, l) && call.SyncUsers?
    ensures l.SyncNext? || l.SyncWrite? ==> l.users == call.users
    ensures l.SyncNext? || l.SyncWrite? || l.Done?
  {
  }

  lemma OnlySyncsSync(call: Call, l: Local)
    requires Of(call, l) && !call.SyncUsers?
    ensures !l.SyncNext? && !l.SyncWrite?
  {
  }

  lemma StartIsCareful(s: Store, calls: seq<Call>, i: nat)
    requires NoneCanUndate(s, calls) && i < |calls|
    ensures Careful(calls[i], Start(calls[i]), s)
  {
    if calls[i].SyncUsers? {
      forall k | 0 <= k < |calls[i].users| && calls[i].users[k].id != 0 && calls[i].users[k].createDate.None?
        ensures calls[i].users[k].id !in s
      {
        assert !CanUndate(s, calls, i, k);
      }
    }
  }

  lemma StartIsCalm(s: Store, calls: seq<Call>)
    requires NoneCanUndate(s, calls)
    ensures Calm(calls, Initial(s, calls))
  {
    forall i, k: nat | 0 <= i < |calls| && Waits(calls, i, k) ensures Untouched(calls, Initial(s, calls)) {
      WaitingHasNoOpener(s, calls, i, k, i);
      forall j | 0 <= j < |calls| ensures StillWaiting(calls[j], Start(calls[j])) {
      }
    }
  }

  lemma {:induction false} DatesSurviveFrom(s: Store, calls: seq<Call>, ticks: seq<Tick>)
    requires AllDated(s) && NoneCanUndate(s, calls)
    ensures var st := Exec(Initial(s, calls), ticks);
            && AllDated(st.store) && Typed(calls, st) && Calm(calls, st)
            && forall i | 0 <= i < |calls| :: Careful(calls[i], st.threads[i], st.store)
    decreases |ticks|
  {
    AlwaysTyped(s, calls, ticks);
    if ticks == [] {
      StartIsCalm(s, calls);
      hide Calm, Typed;
      forall i | 0 <= i < |calls| ensures Careful(calls[i], Start(calls[i]), s) {
        StartIsCareful(s, calls, i);
      }
    } else {
      DatesSurviveFrom(s, calls, ticks[..|ticks| - 1]);
      var st, tick := Exec(Initial(s, calls), ticks[..|ticks| - 1]), ticks[|ticks| - 1];
      hide Of, Step, Careful, AllDated, NoneCanUndate, Calm;
      CalmNext(s, calls, st, tick);
      if tick.who < |calls| {
        var call, l := calls[tick.who], st.threads[tick.who];
        CarefulWrites(call, st.store, l, tick.now);
        if call.SyncUsers? {
          SyncStaysCareful(s, calls, tick.who, st.store, l, tick.now);
        } else {
          UnaryStaysCareful(call, st.store, l, tick.now);
        }
        forall i | 0 <= i < |calls| && i != tick.who ensures Careful(calls[i], st.threads[i], Next(st, tick).store) {
          OthersLeaveCareful(s, calls, st, tick, i);
        }
      }
    }
  }

  // ---------- How a date is lost ----------

  /** A message without a date for a user who is stored, or was sent before, takes the date away. */
  lemma UndatedMessageShows(users: seq<User>, k: nat, s: Store) returns (times: seq<Time>)
    requires k < |users| && users[k].id != 0 && users[k].createDate.None?
    requires users[k].id in s || exists m :: 0 <= m < k && users[m].id == users[k].id
    ensures !AllDated(Solo(s, Start(SyncUsers(users)), times).0)
  {
    var s', answers;
    times, s', answers := SyncProgress(s, users, k + 1);
    SyncMeaning(s, users, times);
    assert !Fresh(s, users, k);
    hide Fresh, Step;
    assert SyncHolds(s, s', users, k + 1, times, users[k].id);
    assert users[k].id in s' && s'[users[k].id] == Stored(users[k]);
  }

  lemma BatchInserts(s: Store, users: seq<User>, k: nat) returns (times: seq<Time>, s': Store, l: Local)
    requires k < |users| && ValidMessage(users[k])
    ensures Reaches(s, BatchAddUsers(users), times, s', l) && users[k].id in s'
  {
    times := seq(k + 1, _ => 0);
    var added, errors;
    s', added, errors := BatchRuns(s, users, times);
    l := BatchNext(users, k + 1, added, errors);
    hide Solo, Start, Refusals;
    var first := FirstValidOf(users, k);
    assert users[first].id !in s ==> Accepted(s, users, first);
  }

  lemma SyncInserts(s: Store, users: seq<User>, k: nat) returns (times: seq<Time>, s': Store, l: Local)
    requires k < |users| && users[k].id != 0
    ensures Reaches(s, SyncUsers(users), times, s', l) && users[k].id in s'
  {
    var answers;
    times, s', answers := SyncProgress(s, users, k + 1);
    l := SyncNext(users, answers);
    SyncMeaning(s, users, times);
    hide Step, Solo, Start, Fresh;
    assert SyncHolds(s, s', users, k + 1, times, users[k].id);
  }

  lemma AddInserts(s: Store, u: User) returns (times: seq<Time>, s': Store, l: Local)
    requires ValidMessage(u) && (s != map[] || u.role == ADMIN) && u.id !in s
    ensures Reaches(s, AddUser(u), times, s', l) && u.id in s'
  {
    assert s != map[] ==> |s| != 0;
    StepAddInsert(s, u, 0);
    ReachesStart(s, AddUser(u));
    hide Reaches, Step, Stored, WithDefaults;
    ReachesNext(s, AddUser(u), [], s, AddCount(u), 0);
    ReachesNext(s, AddUser(u), [] + [0], s, AddInsert(u), 0);
    times, s', l := [] + [0] + [0], s[u.id := Stored(WithDefaults(u, 0))], Done(Empty);
  }

  /** A call that can insert a user does so alone, unless the count refuses it. */
  lemma Inserts(s: Store, call: Call, id: Id) returns (times: seq<Time>, s': Store, l: Local)
    requires CanInsert(call, id) && (s != map[] || !ValidOther(call)) && id !in s
    ensures Reaches(s, call, times, s', l) && id in s'
  {
    hide Reaches;
    match call {
      case AddUser(u) =>
        times, s', l := AddInserts(s, u);
      case BatchAddUsers(users) =>
        var k :| 0 <= k < |users| && users[k].id == id && ValidMessage(users[k]);
        times, s', l := BatchInserts(s, users, k);
      case SyncUsers(users) =>
        var k :| 0 <= k < |users| && users[k].id == id && id != 0;
        times, s', l := SyncInserts(s, users, k);
    }
  }

  /** A sync goes on alone: it comes to message k, and no user goes. */
  lemma {:induction false} SyncGoesOn(s: Store, users: seq<User>, answers: seq<SyncReply>, k: nat)
    returns (times: seq<Time>, s': Store, answers': seq<SyncReply>)
    requires |answers| <= k <= |users|
    ensures Solo(s, SyncNext(users, answers), times) == (s', SyncNext(users, answers'))
    ensures |answers'| == k && s.Keys <= s'.Keys
    decreases k
  {
    if k == |answers| {
      times, s', answers' := [], s, answers;
    } else {
      var start := SyncNext(users, answers);
      var before, earlier;
      times, before, earlier := SyncGoesOn(s, users, answers, k - 1);
      var u := users[k - 1];
      StepSyncNext(before, users, earlier, 0);
      StepSyncWrite(before, users, earlier, u.id in before, 0);
      SoloExtends(s, start, times, 0);
      SoloExtends(s, start, times + [0], 0);
      hide Step, Solo;
      if u.id == 0 {
        times, s', answers' := times + [0], before, earlier + [SyncReply(0, Rejected(IdIsZero))];
      } else {
        times := times + [0] + [0];
        s', answers' := Solo(s, start, times).0, Solo(s, start, times).1.answers;
      }
    }
  }

  /** With its user stored, a message without a date that is still to come takes the date away. */
  lemma UndatesLater(s: Store, users: seq<User>, answers: seq<SyncReply>, k: nat) returns (times: seq<Time>)
    requires |answers| <= k < |users| && users[k].id in s && users[k].id != 0 && users[k].createDate.None?
    ensures !AllDated(Solo(s, SyncNext(users, answers), times).0)
  {
    var start := SyncNext(users, answers);
    var before, earlier;
    times, before, earlier := SyncGoesOn(s, users, answers, k);
    StepSyncNext(before, users, earlier, 0);
    StepSyncWrite(before, users, earlier, true, 0);
    SoloExtends(s, start, times, 0);
    SoloExtends(s, start, times + [0], 0);
    hide Step, Solo;
    times := times + [0] + [0];
    assert users[k].id in Solo(s, start, times).0;
  }

  /** Thread i is at a message of its sync from which message k is still to come, and the user of k is stored. */
  predicate AboutToUndate(st: State, i: nat, users: seq<User>, k: nat)
    requires k < |users|
  {
    && i < |st.threads| && st.threads[i].SyncNext? && st.threads[i].users == users && |st.threads[i].answers| <= k
    && users[k].id in st.store && users[k].id != 0 && users[k].createDate.None?
  }

  lemma SoloUndates(st: State, i: nat, users: seq<User>, k: nat) returns (ticks: seq<Tick>)
    requires k < |users| && AboutToUndate(st, i, users, k)
    ensures !AllDated(Exec(st, ticks).store)
  {
    var times := UndatesLater(st.store, users, st.threads[i].answers, k);
    ExecSolo(st, i, times);
    hide Solo, Exec;
    ticks := TicksOf(i, times);
  }

  /** Another call inserts the user first, if it is not there, and the sync goes on. */
  lemma InsertThenUndate(st: State, i: nat, users: seq<User>, k: nat, j: nat, call: Call) returns (ticks: seq<Tick>)
    requires i < |st.threads| && j < |st.threads| && i != j && k < |users|
    requires st.threads[i].SyncNext? && st.threads[i].users == users && |st.threads[i].answers| <= k
    requires users[k].id != 0 && users[k].createDate.None?
    requires st.threads[j] == Start(call) && CanInsert(call, users[k].id)
    requires st.store != map[] || !ValidOther(call)
    ensures !AllDated(Exec(st, ticks).store)
  {
    hide Reaches, CanInsert, Start, AllDated, Exec, ValidOther;
    if users[k].id in st.store {
      ticks := SoloUndates(st, i, users, k);
    } else {
      var times, s', l := Inserts(st.store, call, users[k].id);
      var first := ReachedInRun(st, j, call, times, s', l);
      var rest := SoloUndates(Exec(st, first), i, users, k);
      ExecAppends(st, first, rest);
      ticks := first + rest;
    }
  }

  lemma ReachedInRun(st: State, j: nat, call: Call, times: seq<Time>, s': Store, l: Local) returns (ticks: seq<Tick>)
    requires j < |st.threads| && st.threads[j] == Start(call) && Reaches(st.store, call, times, s', l)
    ensures Exec(st, ticks) == State(s', st.threads[j := l])
  {
    ticks := TicksOf(j, times);
    ExecSolo(st, j, times);
    hide Solo, Exec, Start, TicksOf;
  }

  lemma OpenerRuns(calls: seq<Call>, o: nat, i: nat, k: nat) returns (times: seq<Time>, s: Store, l: Local)
    requires o < |calls| && i < |calls| && calls[i].SyncUsers? && OpensBefore(calls, o, i, k)
    ensures Reaches(map[], calls[o], times, s, l) && s != map[]
    ensures o == i ==> l.SyncNext? && l.users == calls[i].users && |l.answers| <= k
  {
    hide Reaches;
    if calls[o].SyncUsers? {
      var m :| 0 <= m < |calls[o].users| && (o == i ==> m < k) && Addable(calls[o], calls[o].users[m]);
      times, s, l := SyncOpens(calls[o].users, m);
    } else if calls[o].BatchAddUsers? {
      var m :| 0 <= m < |calls[o].users| && Addable(calls[o], calls[o].users[m]);
      times, s, l := BatchInserts(map[], calls[o].users, m);
    } else {
      times, s, l := AddInserts(map[], calls[o].user);
    }
  }

  /** Call o runs until the store is not empty, sync i not being past message k. */
  lemma Opened(calls: seq<Call>, o: nat, i: nat, k: nat) returns (ticks: seq<Tick>)
    requires o < |calls| && i < |calls| && calls[i].SyncUsers? && k < |calls[i].users| && OpensBefore(calls, o, i, k)
    ensures var st := Exec(Initial(map[], calls), ticks);
            && |st.threads| == |calls| && st.store != map[] && st.threads[i].SyncNext?
            && st.threads[i].users == calls[i].users && |st.threads[i].answers| <= k
            && forall j | 0 <= j < |calls| && j != o && j != i :: st.threads[j] == Start(calls[j])
  {
    assert Start(calls[i]) == SyncNext(calls[i].users, []);
    hide Reaches, Initial, AllDated, Exec, Start, OpensBefore;
    var times, s, l := OpenerRuns(calls, o, i, k);
    ticks := ReachedInRun(Initial(map[], calls), o, calls[o], times, s, l);
  }

  lemma SyncOpens(users: seq<User>, m: nat) returns (times: seq<Time>, s': Store, l: Local)
    requires m < |users| && users[m].id != 0
    ensures Reaches(map[], SyncUsers(users), times, s', l) && users[m].id in s'
    ensures l.SyncNext? && l.users == users && |l.answers| == m + 1
  {
    var answers;
    times, s', answers := SyncProgress(map[], users, m + 1);
    l := SyncNext(users, answers);
    SyncMeaning(map[], users, times);
    hide Step, Solo, Start, Fresh;
    assert SyncHolds(map[], s', users, m + 1, times, users[m].id);
  }

  lemma UndatedShows(s: Store, calls: seq<Call>, i: nat, k: nat) returns (ticks: seq<Tick>)
    requires i < |calls| && calls[i].SyncUsers? && k < |calls[i].users| && CanUndate(s, calls, i, k)
    ensures !AllDated(Exec(Initial(s, calls), ticks).store)
  {
    var users, st := calls[i].users, Initial(s, calls);
    var id := users[k].id;
    if id in s || exists m :: 0 <= m < k && users[m].id == id {
      var times := UndatedMessageShows(users, k, s);
      SoloShows(st, i, users, times);
      ticks := TicksOf(i, times);
    } else {
      var j :| 0 <= j < |calls| && CanInsertBefore(s, calls, i, k, id, j);
      if s == map[] && ValidOther(calls[j]) {
        var o :| 0 <= o < |calls| && OpensBefore(calls, o, i, k);
        assert o != j;
        hide CanInsert, OpensBefore, AllDated, Exec, Initial, Start;
        var first := Opened(calls, o, i, k);
        var rest := InsertThenUndate(Exec(st, first), i, users, k, j, calls[j]);
        ExecAppends(st, first, rest);
        ticks := first + rest;
      } else {
        ticks := InsertThenUndate(st, i, users, k, j, calls[j]);
      }
    }
  }

  lemma SoloShows(st: State, i: nat, users: seq<User>, times: seq<Time>)
    requires i < |st.threads| && st.threads[i] == Start(SyncUsers(users))
    requires !AllDated(Solo(st.store, Start(SyncUsers(users)), times).0)
    ensures !AllDated(Exec(st, TicksOf(i, times)).store)
  {
    ExecSolo(st, i, times);
    hide Solo, Exec, Start;
  }

  /** Dates can only be lost through SyncUsers, which stores an updating message as it came. From any given store of
      dated users, the empty one included, all users keep a create date in all interleavings exactly when no sync
      sends a message without a date whose user is stored, or sent before in that stream, or inserted before by
      another call, for which AddUser of someone who is no admin needs a store that is or can be opened. */
  lemma DatesAreKeptFromExactly(s: Store, calls: seq<Call>)
    requires AllDated(s)
    ensures (forall ticks: seq<Tick> :: AllDated(Exec(Initial(s, calls), ticks).store)) <==> NoneCanUndate(s, calls)
  {
    if NoneCanUndate(s, calls) {
      forall ticks: seq<Tick> ensures AllDated(Exec(Initial(s, calls), ticks).store) {
        DatesSurviveFrom(s, calls, ticks);
      }
    } else {
      var i, k :| 0 <= i < |calls| && calls[i].SyncUsers? && 0 <= k < |calls[i].users| && CanUndate(s, calls, i, k);
      var ticks := UndatedShows(s, calls, i, k);
    }
  }

  /** From all stores of dated users alike: exactly when every message with an id that a sync sends has a date. In
      particular when no call is a sync. */
  lemma DatesAreKeptExactly(calls: seq<Call>)
    ensures (forall s: Store, ticks: seq<Tick> | AllDated(s) :: AllDated(Exec(Initial(s, calls), ticks).store))
            <==> SyncsDated(calls)
  {
    if SyncsDated(calls) {
      forall s: Store, ticks: seq<Tick> | AllDated(s) ensures AllDated(Exec(Initial(s, calls), ticks).store) {
        DatesSurviveFrom(s, calls, ticks);
      }
    } else {
      var i :| 0 <= i < |calls| && calls[i].SyncUsers? && !MessagesDated(calls[i].users);
      var users := calls[i].users;
      var k :| 0 <= k < |users| && users[k].id != 0 && users[k].createDate.None?;
      var s: Store := map[users[k].id := users[k].(createDate := Some(0))];
      assert CanUndate(s, calls, i, k) && users[k].id in s;
      var ticks := UndatedShows(s, calls, i, k);
      assert AllDated(s);
    }
  }
}
