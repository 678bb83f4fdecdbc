/** What a SyncUsers response says is what its message did, whatever runs beside it. */
module SyncHonesty {
  import opened Values
  import opened StoreSpec
  import opened Handlers
  import opened Interleaving

  /** A write to the store: by which thread, for which message of its stream, and when */
  datatype Entry<+W> = Entry(who: nat, item: nat, now: Time, write: W)

  type StoreEntry = Entry<Write>

  /** The position of the message that a stream handler is working on */
  function Item(l: Local): nat {
    match l
    case BatchNext(_, n, _, _) => n
    case ActivityNext(_, replies) => |replies|
    case ActivityFetch(_, replies, _) => |replies|
    case ActivityWrite(_, replies, _, _) => |replies|
    case SyncNext(_, answers) => |answers|
    case SyncWrite(_, answers, _) => |answers|
    case _ => 0
  }

  function EntryOf(st: State, tick: Tick): seq<StoreEntry> {
    if tick.who >= |st.threads| then []
    else
      var l := st.threads[tick.who];
      match Effect(st.store, Ask(l, tick.now), tick.now)
      case None => []
      case Some(w) => [Entry(tick.who, Item(l), tick.now, w)]
  }

  /** All writes of a run, in order */
  function Log(st: State, ticks: seq<Tick>): seq<StoreEntry> {
    if ticks == [] then []
    else
      var before := ticks[..|ticks| - 1];
      Log(st, before) + EntryOf(Exec(st, before), ticks[|ticks| - 1])
  }

  function Replay(s: Store, log: seq<StoreEntry>): Store {
    if log == [] then s
    else Apply(Replay(s, log[..|log| - 1]), log[|log| - 1].write)
  }

  /** An insert finds its id absent, a replacement or removal finds it present. */
  predicate Legal(s: Store, w: Write) {
    match w
    case Inserted(u) => u.id !in s
    case Replaced(u) => u.id in s
    case Removed(id) => id in s
  }

  lemma EntryIsTheStep(st: State, tick: Tick)
    ensures |EntryOf(st, tick)| <= 1
    ensures EntryOf(st, tick) == [] ==> Next(st, tick).store == st.store
    ensures EntryOf(st, tick) != [] ==> Next(st, tick).store == Apply(st.store, EntryOf(st, tick)[0].write)
    ensures EntryOf(st, tick) != [] ==> Legal(st.store, EntryOf(st, tick)[0].write)
  {
    hide Ask, Resume;
  }

  ghost predicate LegalLog(s: Store, log: seq<StoreEntry>) {
    forall k | 0 <= k < |log| :: Legal(Replay(s, log[..k]), log[k].write)
  }

  lemma LogAppends(s: Store, log: seq<StoreEntry>, e: StoreEntry)
    requires LegalLog(s, log) && Legal(Replay(s, log), e.write)
    ensures LegalLog(s, log + [e]) && Replay(s, log + [e]) == Apply(Replay(s, log), e.write)
  {
    hide Legal, Apply;
    assert (log + [e])[..|log|] == log;
    forall k | 0 <= k < |log| ensures (log + [e])[..k] == log[..k] {
    }
  }

  /** The log is the whole truth about the store: replaying it gives the final store, and each entry did
      what its name says when it happened. */
  lemma {:induction false} LogIsComplete(st: State, ticks: seq<Tick>)
    ensures Replay(st.store, Log(st, ticks)) == Exec(st, ticks).store
    ensures LegalLog(st.store, Log(st, ticks))
    decreases |ticks|
  {
    if ticks != [] {
      hide Next, EntryOf, Legal, Apply, LegalLog, Replay;
      var before, tick := ticks[..|ticks| - 1], ticks[|ticks| - 1];
      LogIsComplete(st, before);
      EntryIsTheStep(Exec(st, before), tick);
      var log, e := Log(st, before), EntryOf(Exec(st, before), tick);
      if e == [] {
        assert log + e == log;
      } else {
        assert e == [e[0]];
        LogAppends(st.store, log, e[0]);
      }
    }
  }

  /** The writes made for one message of one thread */
  function OfMessage<W>(log: seq<Entry<W>>, who: nat, item: nat): seq<Entry<W>> {
    if log == [] then []
    else
      var last := log[|log| - 1];
      OfMessage(log[..|log| - 1], who, item) + if last.who == who && last.item == item then [last] else []
  }

  predicate Honest(entries: seq<StoreEntry>, answer: SyncReply, u: User) {
    && answer.userId == u.id
    && match answer.outcome
       case Rejected(_) => entries == []
       case Created => |entries| == 1 && entries[0].write == Inserted(Stored(WithDefaults(u, entries[0].now)))
       case Updated => |entries| == 1 && entries[0].write == Replaced(Stored(u))
  }

  function AnswersOf(l: Local): seq<SyncReply> {
    if l.SyncNext? || l.SyncWrite? then l.answers
    else if l.Done? && l.response.SyncReplies? then l.response.sync
    else []
  }

  ghost predicate HonestSoFar(users: seq<User>, answers: seq<SyncReply>, log: seq<StoreEntry>, who: nat) {
    && |answers| <= |users|
    && (forall k | 0 <= k < |answers| :: Honest(OfMessage(log, who, k), answers[k], users[k]))
    && (forall k: nat | |answers| <= k :: OfMessage(log, who, k) == [])
  }

  lemma OthersAreSilent(users: seq<User>, answers: seq<SyncReply>, log: seq<StoreEntry>, who: nat, e: seq<StoreEntry>)
    requires HonestSoFar(users, answers, log, who) && |e| <= 1 && (e == [] || e[0].who != who)
    ensures HonestSoFar(users, answers, log + e, who)
  {
    forall k: nat ensures OfMessage(log + e, who, k) == OfMessage(log, who, k) {
      if e == [] {
        assert log + e == log;
      } else {
        assert e == [e[0]];
      }
    }
  }

  lemma AnsweredWithout(users: seq<User>, answers: seq<SyncReply>, log: seq<StoreEntry>, who: nat, answer: SyncReply)
    requires HonestSoFar(users, answers, log, who) && |answers| < |users|
    requires answer.userId == users[|answers|].id && answer.outcome.Rejected?
    ensures HonestSoFar(users, answers + [answer], log, who)
  {
  }

  lemma AnsweredWith(users: seq<User>, answers: seq<SyncReply>, log: seq<StoreEntry>, e: StoreEntry, answer: SyncReply)
    requires HonestSoFar(users, answers, log, e.who) && |answers| < |users| && e.item == |answers|
    requires Honest([e], answer, users[|answers|])
    ensures HonestSoFar(users, answers + [answer], log + [e], e.who)
  {
    forall k: nat ensures OfMessage(log + [e], e.who, k)
                       == OfMessage(log, e.who, k) + if k == |answers| then [e] else []
    {
    }
  }

  lemma SyncStepHonest(users: seq<User>, st: State, tick: Tick, log: seq<StoreEntry>)
    requires tick.who < |st.threads| && Of(SyncUsers(users), st.threads[tick.who])
    requires HonestSoFar(users, AnswersOf(st.threads[tick.who]), log, tick.who)
    ensures HonestSoFar(users, AnswersOf(Next(st, tick).threads[tick.who]), log + EntryOf(st, tick), tick.who)
  {
    hide HonestSoFar, Step;
    var s, l, now := st.store, st.threads[tick.who], tick.now;
    match l {
      case SyncNext(_, answers) =>
        StepSyncNext(s, users, answers, now);
        assert log + EntryOf(st, tick) == log;
        if |answers| < |users| && users[|answers|].id == 0 {
          AnsweredWithout(users, answers, log, tick.who, SyncReply(0, Rejected(IdIsZero)));
        }
      case SyncWrite(_, answers, found) =>
        StepSyncWrite(s, users, answers, found, now);
        var u := users[|answers|];
        var answer := AnswersOf(Step(s, l, now).1)[|answers|];
        if answer.outcome.Rejected? {
          assert log + EntryOf(st, tick) == log;
          AnsweredWithout(users, answers, log, tick.who, answer);
        } else {
          AnsweredWith(users, answers, log, EntryOf(st, tick)[0], answer);
          assert EntryOf(st, tick) == [EntryOf(st, tick)[0]];
        }
      case Done(r) =>
        StepDone(s, r, now);
        assert log + EntryOf(st, tick) == log;
    }
  }

  /** In any interleaving with any other calls, at any time: a SUCCESS answer of SyncUsers stands for exactly
      one write made for its message, "created" for exactly an insert of that message with the add defaults,
      an update for exactly its replacement; a FAILED answer means that the message wrote nothing, and what
      has not been answered yet has not written either. */
  lemma {:induction false} SyncAnswersAreHonest(s: Store, calls: seq<Call>, ticks: seq<Tick>, i: nat)
    requires i < |calls| && calls[i].SyncUsers?
    ensures Typed(calls, Exec(Initial(s, calls), ticks))
    ensures HonestSoFar(calls[i].users, AnswersOf(Exec(Initial(s, calls), ticks).threads[i]),
                        Log(Initial(s, calls), ticks), i)
    decreases |ticks|
  {
    AlwaysTyped(s, calls, ticks);
    if ticks != [] {
      var before, tick := ticks[..|ticks| - 1], ticks[|ticks| - 1];
      SyncAnswersAreHonest(s, calls, before, i);
      hide HonestSoFar, Step, Of, AnswersOf, Ask, Effect;
      var st, log := Exec(Initial(s, calls), before), Log(Initial(s, calls), before);
      if tick.who == i {
        SyncStepHonest(calls[i].users, st, tick, log);
      } else {
        OthersAreSilent(calls[i].users, AnswersOf(st.threads[i]), log, i, EntryOf(st, tick));
      }
    }
  }

  // ---------- The fields reported ----------

  /** The updated fields of a response, as a set: a fixed list for each outcome */
  function UpdatedFields(outcome: Outcome): set<string> {
    match outcome
    case Updated => {"role", "username", "profile", "status"}
    case Created => {"created"}
    case Rejected(_) => {}
  }

  function If(changed: bool, name: string): set<string> {
    if changed then {name} else {}
  }

  /** The names of the fields in which two users differ */
  function ChangedFields(a: User, b: User): set<string> {
    If(a.id != b.id, "id") + If(a.role != b.role, "role") + If(a.createDate != b.createDate, "create_date")
    + If(a.username != b.username, "username") + If(a.email != b.email, "email") + If(a.phone != b.phone, "phone")
    + If(a.profile != b.profile, "profile") + If(a.tags != b.tags, "tags")
    + If(a.metadata != b.metadata, "metadata") + If(a.status != b.status, "status")
    + If(a.lastLogin != b.lastLogin, "last_login") + If(a.addresses != b.addresses, "addresses")
  }

  /** The fields that the list for an update does not name */
  predicate SameUnnamed(a: User, b: User) {
    && a.createDate == b.createDate && a.tags == b.tags && a.metadata == b.metadata
    && a.lastLogin == b.lastLogin && a.addresses == b.addresses
  }

  lemma NamesLeftOut()
    ensures UpdatedFields(Updated)
         !! {"id", "create_date", "email", "phone", "tags", "metadata", "last_login", "addresses"}
  {
    assert |"id"| == 2 && |"create_date"| == 11 && |"email"| == 5 && |"phone"| == 5 && |"tags"| == 4;
    assert |"role"| == 4 && |"username"| == 8 && |"profile"| == 7 && |"status"| == 6;
    assert |"metadata"| == 8 && |"last_login"| == 10 && |"addresses"| == 9;
    assert "tags"[0] != "role"[0] && "metadata"[0] != "username"[0];
  }

  lemma CoveredExactly(a: User, b: User)
    requires a.id == b.id && a.email == b.email && a.phone == b.phone
    ensures ChangedFields(a, b) <= UpdatedFields(Updated) <==> SameUnnamed(a, b)
  {
    NamesLeftOut();
  }

  /** When SyncUsers updates a user, in whatever reachable store, the fields it reports cover those it changes
      exactly when create date, tags, metadata, last login and addresses of the stored user were those of the
      message. */
  lemma ReportedFieldsCoverExactly(s: Store, users: seq<User>, answers: seq<SyncReply>, now: Time)
    requires WellKept(s) && |answers| < |users| && users[|answers|].id in s
    ensures var u := users[|answers|];
            var (s', l) := Step(s, SyncWrite(users, answers, true), now);
            && l == SyncNext(users, answers + [SyncReply(u.id, Updated)]) && u.id in s'
            && (ChangedFields(s[u.id], s'[u.id]) <= UpdatedFields(Updated) <==> SameUnnamed(s[u.id], u))
    ensures UpdatedFields(Updated) == {"role", "username", "profile", "status"}
    ensures UpdatedFields(Created) == {"created"}
  {
    var u := users[|answers|];
    StepSyncWrite(s, users, answers, true, now);
    CoveredExactly(s[u.id], Stored(u));
    hide Step, ChangedFields;
  }
}
