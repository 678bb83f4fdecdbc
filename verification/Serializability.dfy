/** Calls on different users do not disturb each other, although each takes the lock several times. */
module Serializability {
  import opened Values
  import opened FieldMask
  import opened StoreSpec
  import opened Handlers
  import opened Interleaving

  /** The calls that look only at users they name: all but AddUser, which counts, and the two listings */
  predicate Keyed(l: Local) {
    !l.AddCount? && !l.ListFetch? && !l.RoleFetch?
  }

  /** The users of the messages that a batch does not refuse */
  function BatchIds(users: seq<User>): set<Id> {
    set u | u in users && ValidMessage(u) :: u.id
  }

  /** The users of the messages that a sync does not refuse */
  function SyncIds(users: seq<User>): set<Id> {
    set u | u in users && u.id != 0 :: u.id
  }

  function ActivityIds(acts: seq<Activity>): set<Id> {
    set a | a in acts :: a.userId
  }

  /** The ids that a handler may still look at or write */
  function Ids(l: Local): set<Id> {
    match l
    case AddCount(u) => {u.id}
    case AddInsert(u) => {u.id}
    case GetFetch(id) => {id}
    case UpdateFetch(req, _) => {req.id}
    case UpdateWrite(u) => {u.id}
    case DeleteWrite(id) => {id}
    case BatchNext(users, _, _, _) => BatchIds(users)
    case ActivityNext(acts, _) => ActivityIds(acts)
    case ActivityFetch(acts, _, reply) => ActivityIds(acts) + {reply.userId}
    case ActivityWrite(acts, _, _, u) => ActivityIds(acts) + {u.id}
    case SyncNext(users, _) => SyncIds(users)
    case SyncWrite(users, answers, _) =>
      SyncIds(users) + if |answers| < |users| then {users[|answers|].id} else {}
    case _ => {}
  }

  predicate SameAt(s: Store, t: Store, id: Id) {
    (id in s <==> id in t) && (id in s ==> s[id] == t[id])
  }

  ghost predicate Agree(s: Store, t: Store, ids: set<Id>) {
    forall id: Id | id in ids :: SameAt(s, t, id)
  }

  ghost predicate AgreeOutside(s: Store, t: Store, ids: set<Id>) {
    forall id: Id | id !in ids :: SameAt(s, t, id)
  }

  predicate Touches(req: Request, ids: set<Id>) {
    match req
    case Add(u) => u.id in ids
    case Get(id) => id in ids
    case Update(u) => u.id in ids
    case Delete(id) => id in ids
    case Exists(id) => id in ids
    case Nothing => true
    case _ => false
  }

  lemma RequestFrame(s: Store, t: Store, req: Request, now: Time, ids: set<Id>)
    requires Touches(req, ids) && Agree(s, t, ids)
    ensures Answer(s, req) == Answer(t, req)
    ensures Agree(After(s, req, now), After(t, req, now), ids)
    ensures AgreeOutside(After(s, req, now), s, ids)
  {
    hide UsersPassing, UsersInRole;
    var id := if req.Add? || req.Update? then req.user.id
              else if req.Get? || req.Delete? || req.Exists? then req.id else 0;
    if !req.Nothing? {
      assert SameAt(s, t, id);
    }
  }

  lemma ResumeIds(s: Store, l: Local, now: Time, ids: set<Id>)
    requires WellKept(s) && Keyed(l) && Ids(l) <= ids
    ensures Keyed(Step(s, l, now).1) && Ids(Step(s, l, now).1) <= ids
  {
    hide Edited, After, ValidMessage, BatchIds, SyncIds, ActivityIds;
    match l {
      case UpdateFetch(req, mask) => FetchIds(s, req, mask, now);
      case SyncNext(users, answers) => SyncNextIds(s, users, answers, now);
      case SyncWrite(users, answers, found) => 
      case ActivityNext(acts, replies) => ActivityNextIds(s, acts, replies, now);
      case _ =>
    }
  }

  lemma SyncNextIds(s: Store, users: seq<User>, answers: seq<SyncReply>, now: Time)
    ensures var l := Step(s, SyncNext(users, answers), now).1; Keyed(l) && Ids(l) <= SyncIds(users)
  {
    StepSyncNext(s, users, answers, now);
    hide Step;
  }

  lemma ActivityNextIds(s: Store, acts: seq<Activity>, replies: seq<ActivityReply>, now: Time)
    ensures var l := Step(s, ActivityNext(acts, replies), now).1; Keyed(l) && Ids(l) <= ActivityIds(acts)
  {
    StepActivityNext(s, acts, replies, now);
    hide Step;
  }

  lemma FetchIds(s: Store, req: User, mask: seq<string>, now: Time)
    requires WellKept(s)
    ensures Step(s, UpdateFetch(req, mask), now).1.Done?
         || (Step(s, UpdateFetch(req, mask), now).1.UpdateWrite?
             && Step(s, UpdateFetch(req, mask), now).1.edited.id == req.id)
  {
    hide Edited, Known, Named, Merged, PathError;
    if req.id in s {
      MaskMeaning(Stored(s[req.id]), req, mask);
    }
  }

  /** A step over two stores that agree on its ids takes the same way, keeps them in agreement, and leaves
      every other id alone. */
  lemma StepFrame(s: Store, t: Store, l: Local, now: Time, ids: set<Id>)
    requires WellKept(s) && Keyed(l) && Ids(l) <= ids && Agree(s, t, ids)
    ensures Step(s, l, now).1 == Step(t, l, now).1
    ensures Keyed(Step(s, l, now).1) && Ids(Step(s, l, now).1) <= ids
    ensures Agree(Step(s, l, now).0, Step(t, l, now).0, ids) && AgreeOutside(Step(s, l, now).0, s, ids)
  {
    RequestFrame(s, t, Ask(l, now), now, ids);
    ResumeIds(s, l, now, ids);
    hide Ask, Resume, Answer, After, Agree, AgreeOutside, Touches;
  }

  // ---------- Runs ----------

  /** The readings of the clock at the steps of one thread */
  function Own(ticks: seq<Tick>, who: nat): seq<Time> {
    if ticks == [] then []
    else
      var last := ticks[|ticks| - 1];
      Own(ticks[..|ticks| - 1], who) + if last.who == who then [last.now] else []
  }

  ghost predicate Disjoint(threads: seq<Local>) {
    && (forall i | 0 <= i < |threads| :: Keyed(threads[i]))
    && (forall i, j | 0 <= i < j < |threads| :: Ids(threads[i]) !! Ids(threads[j]))
  }

  /** The ids of no thread */
  ghost predicate Unnamed(threads: seq<Local>, id: Id) {
    forall i | 0 <= i < |threads| :: id !in Ids(threads[i])
  }

  /** Thread who is where it would be had it run alone, in its program and in the store at its ids. */
  ghost predicate AsAlone(st0: State, st: State, who: nat, times: seq<Time>)
    requires who < |st0.threads|
  {
    var (s, l) := Solo(st0.store, st0.threads[who], times);
    && |st.threads| == |st0.threads|
    && st.threads[who] == l && Keyed(l) && Ids(l) <= Ids(st0.threads[who])
    && Agree(st.store, s, Ids(st0.threads[who]))
  }

  lemma MoverStaysAsAlone(st0: State, st: State, tick: Tick, times: seq<Time>)
    requires tick.who < |st0.threads| && AsAlone(st0, st, tick.who, times) && WellKept(st.store)
    ensures AsAlone(st0, Next(st, tick), tick.who, times + [tick.now])
    ensures AgreeOutside(Next(st, tick).store, st.store, Ids(st0.threads[tick.who]))
  {
    var ids := Ids(st0.threads[tick.who]);
    var (s, l) := Solo(st0.store, st0.threads[tick.who], times);
    SoloExtends(st0.store, st0.threads[tick.who], times, tick.now);
    hide Agree, AgreeOutside, Step, Solo, Ids;
    StepFrame(st.store, s, l, tick.now, ids);
  }

  lemma OthersStayAsAlone(st0: State, st: State, tick: Tick, who: nat, times: seq<Time>)
    requires tick.who < |st0.threads| && who < |st0.threads| && who != tick.who
    requires Ids(st0.threads[tick.who]) !! Ids(st0.threads[who])
    requires AsAlone(st0, st, who, times)
    requires AgreeOutside(Next(st, tick).store, st.store, Ids(st0.threads[tick.who]))
    ensures AsAlone(st0, Next(st, tick), who, times)
  {
    hide Step, Solo, Ids;
    var s := Solo(st0.store, st0.threads[who], times).0;
    forall id: Id | id in Ids(st0.threads[who]) ensures SameAt(Next(st, tick).store, s, id) {
      assert SameAt(st.store, s, id) && SameAt(Next(st, tick).store, st.store, id);
    }
  }

  ghost predicate AllAsAlone(st0: State, st: State, ticks: seq<Tick>) {
    && |st.threads| == |st0.threads|
    && (forall i | 0 <= i < |st0.threads| :: AsAlone(st0, st, i, Own(ticks, i)))
    && (forall id: Id | Unnamed(st0.threads, id) :: SameAt(st.store, st0.store, id))
  }

  lemma UnnamedStaysTheSame(st0: State, st: State, tick: Tick, id: Id)
    requires tick.who < |st0.threads| && Unnamed(st0.threads, id) && SameAt(st.store, st0.store, id)
    requires AgreeOutside(Next(st, tick).store, st.store, Ids(st0.threads[tick.who]))
    ensures SameAt(Next(st, tick).store, st0.store, id)
  {
    hide Next, Ids;
    assert SameAt(Next(st, tick).store, st.store, id);
  }

  lemma StepAsAlone(st0: State, st: State, before: seq<Tick>, tick: Tick)
    requires Disjoint(st0.threads) && WellKept(st.store) && AllAsAlone(st0, st, before)
    ensures AllAsAlone(st0, Next(st, tick), before + [tick])
  {
    hide AsAlone, Step, Ids, Keyed, WellKept, Unnamed, SameAt;
    forall i: nat
      ensures Own(before + [tick], i) == if i == tick.who then Own(before, i) + [tick.now] else Own(before, i)
    {
      assert (before + [tick])[..|before|] == before;
    }
    if tick.who < |st0.threads| {
      MoverStaysAsAlone(st0, st, tick, Own(before, tick.who));
      forall i | 0 <= i < |st0.threads| && i != tick.who ensures AsAlone(st0, Next(st, tick), i, Own(before, i)) {
        OthersStayAsAlone(st0, st, tick, i, Own(before, i));
      }
      forall id: Id | Unnamed(st0.threads, id) ensures SameAt(Next(st, tick).store, st0.store, id) {
        UnnamedStaysTheSame(st0, st, tick, id);
      }
    }
  }

  lemma StartAsAlone(st0: State)
    requires Disjoint(st0.threads)
    ensures AllAsAlone(st0, st0, [])
  {
  }

  lemma {:induction false} EveryThreadAsAlone(st0: State, ticks: seq<Tick>)
    requires Kept(st0) && Disjoint(st0.threads)
    ensures AllAsAlone(st0, Exec(st0, ticks), ticks)
    decreases |ticks|
  {
    hide AllAsAlone, Disjoint, Next, WellKept;
    if ticks == [] {
      StartAsAlone(st0);
    } else {
      var before, tick := ticks[..|ticks| - 1], ticks[|ticks| - 1];
      EveryThreadAsAlone(st0, before);
      KeptUnderExec(st0, before);
      StepAsAlone(st0, Exec(st0, before), before, tick);
      assert before + [tick] == ticks;
    }
  }

  lemma {:induction false} KeptUnderExec(st: State, ticks: seq<Tick>)
    requires Kept(st)
    ensures Kept(Exec(st, ticks))
    decreases |ticks|
  {
    if ticks != [] {
      KeptUnderExec(st, ticks[..|ticks| - 1]);
      hide WellKept, ProperId, Step;
      var before, tick := Exec(st, ticks[..|ticks| - 1]), ticks[|ticks| - 1];
      if tick.who < |before.threads| {
        StepKeeps(before.store, before.threads[tick.who], tick.now);
      }
    }
  }

  lemma SameAtEveryId(st0: State, st: State, st': State, ticks: seq<Tick>, ticks': seq<Tick>, id: Id)
    requires AllAsAlone(st0, st, ticks) && AllAsAlone(st0, st', ticks')
    requires forall i | 0 <= i < |st0.threads| :: Own(ticks, i) == Own(ticks', i)
    ensures SameAt(st.store, st'.store, id)
  {
    hide Ids, Keyed, Solo, Own;
    if Unnamed(st0.threads, id) {
      assert SameAt(st.store, st0.store, id) && SameAt(st'.store, st0.store, id);
    } else {
      var i :| 0 <= i < |st0.threads| && id in Ids(st0.threads[i]);
      assert AsAlone(st0, st, i, Own(ticks, i)) && AsAlone(st0, st', i, Own(ticks', i));
      var u := Solo(st0.store, st0.threads[i], Own(ticks, i)).0;
      assert SameAt(st.store, u, id) && SameAt(st'.store, u, id);
    }
  }

  lemma SameThreads(st0: State, st: State, st': State, ticks: seq<Tick>, ticks': seq<Tick>)
    requires AllAsAlone(st0, st, ticks) && AllAsAlone(st0, st', ticks')
    requires forall i | 0 <= i < |st0.threads| :: Own(ticks, i) == Own(ticks', i)
    ensures st.threads == st'.threads
  {
    hide Ids, Keyed, Solo, Own, Agree;
    forall i | 0 <= i < |st0.threads| ensures st.threads[i] == st'.threads[i] {
      assert AsAlone(st0, st, i, Own(ticks, i)) && AsAlone(st0, st', i, Own(ticks', i));
    }
  }

  /** Calls on pairwise disjoint sets of users: two schedules in which each handler reads the same times end
      in the same store and give every caller the same answer, however their steps interleave. */
  lemma DisjointCallsDoNotInterfere(st0: State, one: seq<Tick>, other: seq<Tick>)
    requires Kept(st0) && Disjoint(st0.threads)
    requires forall i | 0 <= i < |st0.threads| :: Own(one, i) == Own(other, i)
    ensures Exec(st0, one) == Exec(st0, other)
  {
    hide AllAsAlone, Disjoint, Kept, Exec, Own, SameAt;
    EveryThreadAsAlone(st0, one);
    EveryThreadAsAlone(st0, other);
    SameThreads(st0, Exec(st0, one), Exec(st0, other), one, other);
    forall id: Id ensures SameAt(Exec(st0, one).store, Exec(st0, other).store, id) {
      SameAtEveryId(st0, Exec(st0, one), Exec(st0, other), one, other, id);
    }
    SameEverywhere(Exec(st0, one).store, Exec(st0, other).store);
  }

  lemma SameEverywhere(s: Store, t: Store)
    requires forall id: Id :: SameAt(s, t, id)
    ensures s == t
  {
    forall id | id in s ensures id in t && s[id] == t[id] {
      assert SameAt(s, t, id);
    }
    forall id | id in t ensures id in s {
      assert SameAt(s, t, id);
    }
  }

  // ---------- Serial orders ----------

  /** The serial schedule: one thread after the other, in the given order, each at its own times */
  function Serial(ticks: seq<Tick>, order: seq<nat>): seq<Tick> {
    if order == [] then []
    else
      var who := order[|order| - 1];
      Serial(ticks, order[..|order| - 1]) + TicksOf(who, Own(ticks, who))
  }

  lemma {:induction false} OwnAppends(first: seq<Tick>, rest: seq<Tick>, who: nat)
    ensures Own(first + rest, who) == Own(first, who) + Own(rest, who)
    decreases |rest|
  {
    if rest == [] {
      assert first + rest == first;
    } else {
      var init := rest[..|rest| - 1];
      assert (first + rest)[..|first + rest| - 1] == first + init;
      OwnAppends(first, init, who);
    }
  }

  lemma {:induction false} OwnOfOne(who: nat, times: seq<Time>, i: nat)
    ensures Own(TicksOf(who, times), i) == if i == who then times else []
    decreases |times|
  {
    if times != [] {
      var init := times[..|times| - 1];
      assert TicksOf(who, times)[..|times| - 1] == TicksOf(who, init);
      OwnOfOne(who, init, i);
      assert times == init + [times[|times| - 1]];
    }
  }

  lemma {:induction false} OwnOfSerial(ticks: seq<Tick>, order: seq<nat>, i: nat)
    requires forall a, b | 0 <= a < b < |order| :: order[a] != order[b]
    ensures Own(Serial(ticks, order), i) == if i in order then Own(ticks, i) else []
    decreases |order|
  {
    if order != [] {
      var who, rest := order[|order| - 1], order[..|order| - 1];
      OwnOfSerial(ticks, rest, i);
      OwnAppends(Serial(ticks, rest), TicksOf(who, Own(ticks, who)), i);
      OwnOfOne(who, Own(ticks, who), i);
      assert i in order <==> i == who || i in rest;
    }
  }

  /** Any interleaving of such calls is equivalent to every serial order of them. */
  lemma EverySerialOrderAgrees(s: Store, calls: seq<Call>, ticks: seq<Tick>, order: seq<nat>)
    requires WellKept(s) && Disjoint(Initial(s, calls).threads)
    requires forall a, b | 0 <= a < b < |order| :: order[a] != order[b]
    requires forall i: nat | i < |calls| :: i in order
    ensures Exec(Initial(s, calls), ticks) == Exec(Initial(s, calls), Serial(ticks, order))
  {
    forall i: nat | i < |calls| ensures Own(ticks, i) == Own(Serial(ticks, order), i) {
      OwnOfSerial(ticks, order, i);
    }
    DisjointCallsDoNotInterfere(Initial(s, calls), ticks, Serial(ticks, order));
  }
}
