/** Any number of handlers over one in-memory storage: each storage call is one atomic step, and the steps of
    different handlers interleave in any order. A schedule says who steps when, so that a run is a
    function of its schedule. */
module Interleaving {
  import opened Values
  import opened StoreSpec
  import opened Handlers
  import opened FieldMask

  datatype State = State(store: Store, threads: seq<Local>)

  datatype Tick = Tick(who: nat, now: Time)

  function Next(st: State, tick: Tick): State {
    if tick.who < |st.threads| then
      var (s, l) := Step(st.store, st.threads[tick.who], tick.now);
      State(s, st.threads[tick.who := l])
    else st
  }

  function Exec(st: State, ticks: seq<Tick>): State {
    if ticks == [] then st
    else Next(Exec(st, ticks[..|ticks| - 1]), ticks[|ticks| - 1])
  }

  function Initial(s: Store, calls: seq<Call>): State {
    State(s, seq(|calls|, i requires 0 <= i < |calls| => Start(calls[i])))
  }

  /** The steps of thread who alone, at these readings of the clock */
  function TicksOf(who: nat, times: seq<Time>): seq<Tick> {
    seq(|times|, i requires 0 <= i < |times| => Tick(who, times[i]))
  }

  lemma {:induction false} ExecAppends(st: State, first: seq<Tick>, rest: seq<Tick>)
    ensures Exec(st, first + rest) == Exec(Exec(st, first), rest)
    decreases |rest|
  {
    if rest == [] {
      assert first + rest == first;
    } else {
      hide Next;
      var init := rest[..|rest| - 1];
      assert (first + rest)[..|first + rest| - 1] == first + init;
      ExecAppends(st, first, init);
    }
  }

  /** A thread stepping alone among the others is that thread running alone. */
  lemma {:induction false} ExecSolo(st: State, who: nat, times: seq<Time>)
    requires who < |st.threads|
    ensures Exec(st, TicksOf(who, times))
         == State(Solo(st.store, st.threads[who], times).0, st.threads[who := Solo(st.store, st.threads[who], times).1])
    decreases |times|
  {
    hide Step;
    if times == [] {
      assert TicksOf(who, times) == [] && st.threads[who := st.threads[who]] == st.threads;
    } else {
      var init, last := times[..|times| - 1], times[|times| - 1];
      ExecSolo(st, who, init);
      assert times == init + [last] && TicksOf(who, times) == TicksOf(who, init) + [Tick(who, last)];
      SoloExtends(st.store, st.threads[who], init, last);
      hide TicksOf, Exec, Solo;
      var (s', l') := Solo(st.store, st.threads[who], init);
      var l'' := Step(s', l', last).1;
      assert st.threads[who := l'][who := l''] == st.threads[who := l''];
    }
  }

  /** The program counters of a call, with the messages it was given */
  predicate Of(call: Call, l: Local) {
    match call
    case AddUser(u) => l == AddCount(u) || (l == AddInsert(u) && ValidMessage(u)) || EmptyOrFail(l)
    case GetUser(id) => l == GetFetch(id) || l.Done?
    case UpdateUser(req, mask) =>
      || (l.UpdateFetch? && req == Some(l.req) && l.mask == mask && l.req.id != 0)
      || l.UpdateWrite?
      || l.Done?
    case DeleteUser(id) => (l == DeleteWrite(id) && id != 0) || EmptyOrFail(l)
    case ListUsers(_) => l.ListFetch? || l.Done?
    case ListUsersByRole(_) => l.RoleFetch? || l.Done?
    case BatchAddUsers(users) => (l.BatchNext? && l.users == users && l.received <= |users|)
                                 || (l.Done? && l.response.BatchSummary?)
    case UserActivityStream(acts) =>
      || (l.ActivityNext? && l.activities == acts)
      || (l.ActivityFetch? && l.activities == acts)
      || (l.ActivityWrite? && l.activities == acts)
      || l.Done?
    case SyncUsers(users) =>
      || (l.SyncNext? && l.users == users && |l.answers| <= |users|)
      || (l.SyncWrite? && l.users == users && |l.answers| < |users| && users[|l.answers|].id != 0)
      || (l.Done? && l.response.SyncReplies? && |l.response.sync| == |users|)
  }

  predicate EmptyOrFail(l: Local) {
    l.Done? && (l.response.Empty? || l.response.Fail?)
  }

  /** Every thread is at a program counter of its call. */
  ghost predicate Typed(calls: seq<Call>, st: State) {
    |st.threads| == |calls| && forall i | 0 <= i < |calls| :: Of(calls[i], st.threads[i])
  }

  lemma StepOf(call: Call, s: Store, l: Local, now: Time)
    requires Of(call, l)
    ensures Of(call, Step(s, l, now).1)
  {
  }

  lemma NextTyped(calls: seq<Call>, st: State, tick: Tick)
    requires Typed(calls, st)
    ensures Typed(calls, Next(st, tick))
  {
    hide Of, Step;
    if tick.who < |calls| {
      StepOf(calls[tick.who], st.store, st.threads[tick.who], tick.now);
    }
  }

  lemma {:induction false} AlwaysTyped(s: Store, calls: seq<Call>, ticks: seq<Tick>)
    ensures Typed(calls, Exec(Initial(s, calls), ticks))
    decreases |ticks|
  {
    if ticks == [] {
    } else {
      hide Typed, Next;
      AlwaysTyped(s, calls, ticks[..|ticks| - 1]);
      NextTyped(calls, Exec(Initial(s, calls), ticks[..|ticks| - 1]), ticks[|ticks| - 1]);
    }
  }

  // ---------- Every reachable store is well kept ----------

  /** What is about to be written has a proper id. */
  predicate ProperId(l: Local) {
    match l
    case AddInsert(u) => u.id != 0
    case UpdateWrite(u) => u.id != 0
    case ActivityWrite(_, _, _, u) => u.id != 0
    case SyncWrite(users, answers, _) => |answers| < |users| ==> users[|answers|].id != 0
    case _ => true
  }

  ghost predicate Kept(st: State) {
    WellKept(st.store) && forall i | 0 <= i < |st.threads| :: ProperId(st.threads[i])
  }

  lemma FetchKeeps(s: Store, req: User, mask: seq<string>, now: Time)
    requires WellKept(s)
    ensures ProperId(Step(s, UpdateFetch(req, mask), now).1)
  {
    hide Edited, Known, Named, Merged, PathError;
    if req.id in s {
      MaskMeaning(Stored(s[req.id]), req, mask);
    }
  }

  lemma ResumeKeeps(s: Store, l: Local, now: Time)
    requires WellKept(s) && ProperId(l) && !l.UpdateFetch?
    ensures ProperId(Resume(l, Answer(s, Ask(l, now)), now))
  {
    hide UsersPassing, UsersInRole, AfterFetch, MessageError, EmptyOr, UsersOr;
    if l.AddCount? {
      StepAddGuards(l.user, Answer(s, Ask(l, now)));
    }
  }

  lemma StepAddGuards(u: User, reply: Reply)
    ensures ProperId(AfterCount(u, reply))
  {
  }

  lemma StepKeeps(s: Store, l: Local, now: Time)
    requires WellKept(s) && ProperId(l)
    ensures WellKept(Step(s, l, now).0) && ProperId(Step(s, l, now).1)
  {
    if l.UpdateFetch? {
      FetchKeeps(s, l.req, l.mask, now);
    } else {
      ResumeKeeps(s, l, now);
    }
    hide WellKept, ProperId, Ask, Resume, After, Answer;
  }

  /** From any well kept store, in any interleaving of all nine handlers: every stored user sits under its
      own id, no user has id 0, and what is stored is always a stored copy. */
  lemma {:induction false} AlwaysWellKept(s: Store, calls: seq<Call>, ticks: seq<Tick>)
    requires WellKept(s)
    ensures Kept(Exec(Initial(s, calls), ticks))
    decreases |ticks|
  {
    if ticks != [] {
      AlwaysWellKept(s, calls, ticks[..|ticks| - 1]);
      hide WellKept, ProperId, Step;
      var st, tick := Exec(Initial(s, calls), ticks[..|ticks| - 1]), ticks[|ticks| - 1];
      if tick.who < |st.threads| {
        StepKeeps(st.store, st.threads[tick.who], tick.now);
      }
    }
  }

  // ---------- Count is conserved ----------

  function CreatedIn(answers: seq<SyncReply>): nat {
    if answers == [] then 0
    else CreatedIn(answers[..|answers| - 1]) + if answers[|answers| - 1].outcome.Created? then 1 else 0
  }

  /** By how much a call has grown the store, judged from what it answers */
  function Gain(call: Call, l: Local): int {
    match call
    case AddUser(_) => if l == Done(Empty) then 1 else 0
    case DeleteUser(_) => if l == Done(Empty) then -1 else 0
    case BatchAddUsers(_) =>
      if l.BatchNext? then l.added else if l.Done? && l.response.BatchSummary? then l.response.added else 0
    case SyncUsers(_) =>
      if l.SyncNext? || l.SyncWrite? then CreatedIn(l.answers)
      else if l.Done? && l.response.SyncReplies? then CreatedIn(l.response.sync)
      else 0
    case _ => 0
  }

  function TotalGain(calls: seq<Call>, threads: seq<Local>): int
    requires |calls| == |threads|
  {
    if calls == [] then 0
    else
      var n := |calls| - 1;
      TotalGain(calls[..n], threads[..n]) + Gain(calls[n], threads[n])
  }

  lemma WriteSize(s: Store, req: Request, now: Time)
    ensures |After(s, req, now)| == |s| +
              (if req.Add? && req.user.id !in s then 1 else 0) - (if req.Delete? && req.id in s then 1 else 0)
  {
    var id := if req.Add? || req.Update? then req.user.id else if req.Delete? then req.id else 0;
    assert (s - {id}).Keys == s.Keys - {id};
  }

  lemma UnaryGain(call: Call, s: Store, l: Local, now: Time)
    requires Of(call, l) && !call.BatchAddUsers? && !call.SyncUsers?
    ensures |Step(s, l, now).0| - |s| == Gain(call, Step(s, l, now).1) - Gain(call, l)
  {
    WriteSize(s, Ask(l, now), now);
    hide After, UsersPassing, UsersInRole;
    hide AfterFetch, AfterActivityCheck, AfterBatchAdd, AfterSyncCheck, AfterSyncWrite;
  }

  lemma BatchGain(call: Call, s: Store, l: Local, now: Time)
    requires Of(call, l) && call.BatchAddUsers?
    ensures |Step(s, l, now).0| - |s| == Gain(call, Step(s, l, now).1) - Gain(call, l)
  {
    hide Step;
    match l
    case BatchNext(users, n, added, errors) =>
      if n < |users| {
        StepBatch(s, users, n, added, errors, now);
      } else {
        StepBatchEnd(s, users, n, added, errors, now);
      }
    case Done(r) =>
      StepDone(s, r, now);
  }

  lemma SyncGain(call: Call, s: Store, l: Local, now: Time)
    requires Of(call, l) && call.SyncUsers?
    ensures |Step(s, l, now).0| - |s| == Gain(call, Step(s, l, now).1) - Gain(call, l)
  {
    hide Step;
    match l
    case SyncNext(users, answers) =>
      StepSyncNext(s, users, answers, now);
    case SyncWrite(users, answers, found) =>
      StepSyncWrite(s, users, answers, found, now);
      var u := users[|answers|];
    case Done(r) =>
      StepDone(s, r, now);
  }

  lemma StepGain(call: Call, s: Store, l: Local, now: Time)
    requires Of(call, l)
    ensures |Step(s, l, now).0| - |s| == Gain(call, Step(s, l, now).1) - Gain(call, l)
  {
    hide Of, Step, Gain;
    match call
    case BatchAddUsers(_) => BatchGain(call, s, l, now);
    case SyncUsers(_) => SyncGain(call, s, l, now);
    case _ => UnaryGain(call, s, l, now);
  }

  lemma {:induction false} GainUpdates(calls: seq<Call>, threads: seq<Local>, i: nat, l: Local)
    requires |calls| == |threads| && i < |calls|
    ensures TotalGain(calls, threads[i := l])
         == TotalGain(calls, threads) + Gain(calls[i], l) - Gain(calls[i], threads[i])
  {
    hide Gain;
    var n := |calls| - 1;
    if i == n {
      assert threads[i := l][..n] == threads[..n];
    } else {
      assert threads[i := l][..n] == threads[..n][i := l];
      GainUpdates(calls[..n], threads[..n], i, l);
    }
  }

  lemma {:induction false} NoGainAtStart(calls: seq<Call>, threads: seq<Local>)
    requires |calls| == |threads| && forall i | 0 <= i < |calls| :: threads[i] == Start(calls[i])
    ensures TotalGain(calls, threads) == 0
  {
    if calls != [] {
      var n := |calls| - 1;
      assert threads[n] == Start(calls[n]);
      NoGainAtStart(calls[..n], threads[..n]);
    }
  }

  /** In any interleaving, the number of stored users is that of the start plus the inserts that callers
      have been told of (by AddUser, BatchAddUsers and SyncUsers) minus the deletes they have been told of. */
  lemma {:induction false} CountIsConserved(s: Store, calls: seq<Call>, ticks: seq<Tick>)
    ensures Typed(calls, Exec(Initial(s, calls), ticks))
    ensures |Exec(Initial(s, calls), ticks).store| == |s| + TotalGain(calls, Exec(Initial(s, calls), ticks).threads)
    decreases |ticks|
  {
    AlwaysTyped(s, calls, ticks);
    if ticks == [] {
      NoGainAtStart(calls, Initial(s, calls).threads);
    } else {
      CountIsConserved(s, calls, ticks[..|ticks| - 1]);
      hide Of, Gain, Step;
      var st, tick := Exec(Initial(s, calls), ticks[..|ticks| - 1]), ticks[|ticks| - 1];
      if tick.who < |calls| {
        var l := st.threads[tick.who];
        StepGain(calls[tick.who], st.store, l, tick.now);
        GainUpdates(calls, st.threads, tick.who, Step(st.store, l, tick.now).1);
      }
    }
  }
}
