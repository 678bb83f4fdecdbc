/** What the three stream handlers mean when they run alone, over whole streams. */
module Streams {
  import opened Values
  import opened StoreSpec
  import opened Handlers

  // ---------- BatchAddUsers: the first valid message for a new id wins ----------

  predicate FirstValid(users: seq<User>, i: nat)
    requires i < |users|
  {
    ValidMessage(users[i]) && forall j | 0 <= j < i :: users[j].id == users[i].id ==> !ValidMessage(users[j])
  }

  /** The message that adds a user: its id is new, and it is the first valid one for it. */
  predicate Accepted(s: Store, users: seq<User>, i: nat)
    requires i < |users|
  {
    users[i].id !in s && FirstValid(users, i)
  }

  function RefusalOf(users: seq<User>, i: nat): Error
    requires i < |users|
  {
    if ValidMessage(users[i]) then AlreadyExists else MessageError(users[i]).value
  }

  /** The errors of the first n messages: one for each refused message, at its position from 1 */
  function Refusals(s: Store, users: seq<User>, n: nat): seq<BatchError>
    requires n <= |users|
  {
    if n == 0 then []
    else if Accepted(s, users, n - 1) then Refusals(s, users, n - 1)
    else Refusals(s, users, n - 1) + [BatchError(n, RefusalOf(users, n - 1))]
  }

  lemma {:induction false} RefusalPositions(s: Store, users: seq<User>, n: nat)
    requires n <= |users|
    ensures forall e | e in Refusals(s, users, n) :: 1 <= e.position <= n
    ensures forall i, j | 0 <= i < j < |Refusals(s, users, n)| ::
              Refusals(s, users, n)[i].position < Refusals(s, users, n)[j].position
    ensures forall i | 0 <= i < n ::
              (exists e :: e in Refusals(s, users, n) && e.position == i + 1) <==> !Accepted(s, users, i)
  {
    if n > 0 {
      RefusalPositions(s, users, n - 1);
      var before, errors := Refusals(s, users, n - 1), Refusals(s, users, n);
      if !Accepted(s, users, n - 1) {
        assert errors[|before|] in errors;
        forall e | e in before ensures e in errors {
        }
      }
    }
  }

  /** The store after the first n messages, message i having been handled at times[i] */
  ghost predicate BatchStored(s: Store, s': Store, users: seq<User>, n: nat, times: seq<Time>)
    requires n <= |users| && n <= |times|
  {
    && (forall id | id in s :: id in s' && s'[id] == s[id])
    && (forall i | 0 <= i < n && Accepted(s, users, i) ::
          users[i].id in s' && s'[users[i].id] == Stored(WithDefaults(users[i], times[i])))
    && (forall id | id in s' && id !in s :: exists i | 0 <= i < n :: users[i].id == id && Accepted(s, users, i))
  }

  ghost predicate BatchMeant(s: Store, s': Store, users: seq<User>, n: nat, times: seq<Time>,
                             added: nat, errors: seq<BatchError>)
  {
    && n <= |users| && n <= |times|
    && BatchStored(s, s', users, n, times)
    && errors == Refusals(s, users, n)
    && added + |errors| == n
    && |s'| == |s| + added
  }

  lemma ValidSeenIsStored(s: Store, s': Store, users: seq<User>, n: nat, times: seq<Time>)
    requires n < |users| && n <= |times| && BatchStored(s, s', users, n, times) && ValidMessage(users[n])
    ensures users[n].id in s' <==> !Accepted(s, users, n)
  {
    if !Accepted(s, users, n) && users[n].id !in s {
      var j: nat :| j < n && users[j].id == users[n].id && ValidMessage(users[j]);
      var first := FirstValidOf(users, j);
      assert Accepted(s, users, first);
    }
  }

  lemma FirstValidOf(users: seq<User>, j: nat) returns (first: nat)
    requires j < |users| && ValidMessage(users[j])
    ensures first <= j && users[first].id == users[j].id && FirstValid(users, first)
  {
    if FirstValid(users, j) {
      first := j;
    } else {
      var k: nat :| k < j && users[k].id == users[j].id && ValidMessage(users[k]);
      first := FirstValidOf(users, k);
    }
  }

  lemma EarlierIsOther(s: Store, users: seq<User>, n: nat)
    requires n < |users| && Accepted(s, users, n)
    ensures forall i | 0 <= i < n && Accepted(s, users, i) :: users[i].id != users[n].id
  {
  }

  lemma BatchAccepts(s: Store, s': Store, users: seq<User>, n: nat, times: seq<Time>, now: Time)
    requires n < |users| && n == |times| && BatchStored(s, s', users, n, times) && Accepted(s, users, n)
    ensures BatchStored(s, s'[users[n].id := Stored(WithDefaults(users[n], now))], users, n + 1, times + [now])
  {
    EarlierIsOther(s, users, n);
    hide Stored, WithDefaults, FirstValid, ValidMessage;
    var s'' := s'[users[n].id := Stored(WithDefaults(users[n], now))];
    forall i | 0 <= i < n && Accepted(s, users, i)
      ensures users[i].id in s'' && s''[users[i].id] == Stored(WithDefaults(users[i], (times + [now])[i]))
    {
      assert users[i].id != users[n].id;
    }
    forall id | id in s'' && id !in s ensures exists i | 0 <= i < n + 1 :: users[i].id == id && Accepted(s, users, i) {
      if id == users[n].id {
        assert users[n].id == id && Accepted(s, users, n);
      } else {
        var i :| 0 <= i < n && users[i].id == id && Accepted(s, users, i);
      }
    }
  }

  lemma BatchRefuses(s: Store, s': Store, users: seq<User>, n: nat, times: seq<Time>, now: Time)
    requires n < |users| && n == |times| && BatchStored(s, s', users, n, times) && !Accepted(s, users, n)
    ensures BatchStored(s, s', users, n + 1, times + [now])
  {
    forall id | id in s' && id !in s ensures exists i | 0 <= i < n + 1 :: users[i].id == id && Accepted(s, users, i) {
      var i :| 0 <= i < n && users[i].id == id && Accepted(s, users, i);
    }
  }

  lemma StepBatchAlone(s: Store, s': Store, users: seq<User>, n: nat, added: nat, errors: seq<BatchError>, now: Time)
    requires n < |users| && (ValidMessage(users[n]) ==> (users[n].id in s' <==> !Accepted(s, users, n)))
    ensures Step(s', BatchNext(users, n, added, errors), now) ==
            if Accepted(s, users, n) then
              (s'[users[n].id := Stored(WithDefaults(users[n], now))], BatchNext(users, n + 1, added + 1, errors))
            else
              (s', BatchNext(users, n + 1, added, errors + [BatchError(n + 1, RefusalOf(users, n))]))
  {
    hide Step;
    StepBatch(s', users, n, added, errors, now);
  }

  lemma BatchMeantAdds(s: Store, s': Store, users: seq<User>, n: nat, times: seq<Time>, now: Time,
                       added: nat, errors: seq<BatchError>)
    requires n < |users| && n == |times| && BatchMeant(s, s', users, n, times, added, errors)
    requires Accepted(s, users, n)
    ensures users[n].id !in s'
    ensures BatchMeant(s, s'[users[n].id := Stored(WithDefaults(users[n], now))], users, n + 1, times + [now],
                       added + 1, errors)
  {
    assert ValidMessage(users[n]);
    ValidSeenIsStored(s, s', users, n, times);
    BatchAccepts(s, s', users, n, times, now);
    hide BatchStored, Accepted, Stored, WithDefaults;
  }

  lemma BatchMeantRefuses(s: Store, s': Store, users: seq<User>, n: nat, times: seq<Time>, now: Time,
                          added: nat, errors: seq<BatchError>)
    requires n < |users| && n == |times| && BatchMeant(s, s', users, n, times, added, errors)
    requires !Accepted(s, users, n)
    ensures ValidMessage(users[n]) ==> users[n].id in s'
    ensures BatchMeant(s, s', users, n + 1, times + [now], added, errors + [BatchError(n + 1, RefusalOf(users, n))])
  {
    if ValidMessage(users[n]) {
      ValidSeenIsStored(s, s', users, n, times);
    }
    BatchRefuses(s, s', users, n, times, now);
    hide BatchStored, Accepted, RefusalOf;
  }

  lemma BatchMeantNext(s: Store, s': Store, users: seq<User>, n: nat, times: seq<Time>, now: Time,
                       added: nat, errors: seq<BatchError>)
    requires n < |users| && n == |times| && BatchMeant(s, s', users, n, times, added, errors)
    ensures ValidMessage(users[n]) ==> (users[n].id in s' <==> !Accepted(s, users, n))
    ensures Accepted(s, users, n) ==>
              BatchMeant(s, s'[users[n].id := Stored(WithDefaults(users[n], now))], users, n + 1, times + [now],
                         added + 1, errors)
    ensures !Accepted(s, users, n) ==>
              BatchMeant(s, s', users, n + 1, times + [now], added,
                         errors + [BatchError(n + 1, RefusalOf(users, n))])
  {
    hide BatchMeant, Accepted;
    if Accepted(s, users, n) {
      BatchMeantAdds(s, s', users, n, times, now, added, errors);
    } else {
      BatchMeantRefuses(s, s', users, n, times, now, added, errors);
    }
  }

  lemma {:induction false} BatchRuns(s: Store, users: seq<User>, times: seq<Time>)
    returns (s': Store, added: nat, errors: seq<BatchError>)
    requires |times| <= |users|
    ensures Solo(s, Start(BatchAddUsers(users)), times) == (s', BatchNext(users, |times|, added, errors))
    ensures BatchMeant(s, s', users, |times|, times, added, errors)
    decreases |times|
  {
    if times == [] {
      s', added, errors := s, 0, [];
    } else {
      hide BatchMeant, Step;
      var n := |times| - 1;
      var before, added', errors' := BatchRuns(s, users, times[..n]);
      assert times[..n] + [times[n]] == times;
      s', added, errors := BatchRunsOn(s, before, users, n, times[..n], times[n], added', errors');
    }
  }

  lemma BatchRunsOn(s: Store, before: Store, users: seq<User>, n: nat, times: seq<Time>, now: Time,
                    added: nat, errors: seq<BatchError>)
    returns (s': Store, added': nat, errors': seq<BatchError>)
    requires n < |users| && n == |times| && BatchMeant(s, before, users, n, times, added, errors)
    ensures Step(before, BatchNext(users, n, added, errors), now) == (s', BatchNext(users, n + 1, added', errors'))
    ensures BatchMeant(s, s', users, n + 1, times + [now], added', errors')
  {
    hide BatchMeant, Step, Accepted;
    BatchMeantNext(s, before, users, n, times, now, added, errors);
    StepBatchAlone(s, before, users, n, added, errors, now);
    if Accepted(s, users, n) {
      s', added', errors' := before[users[n].id := Stored(WithDefaults(users[n], now))], added + 1, errors;
    } else {
      s', added', errors' := before, added, errors + [BatchError(n + 1, RefusalOf(users, n))];
    }
  }

  lemma BatchIgnoresTheEnd(s: Store, s': Store, users: seq<User>, times: seq<Time>, end: Time,
                           added: nat, errors: seq<BatchError>)
    requires |times| == |users| && BatchMeant(s, s', users, |users|, times, added, errors)
    ensures BatchMeant(s, s', users, |users|, times + [end], added, errors)
  {
  }

  /** A whole batch: the store gains, for each new id, the first valid message that names it, with the
      add defaults; nothing else changes. The summary counts every message once, added is the growth of
      the store, and the errors are the refused messages at strictly increasing positions (RefusalPositions). */
  lemma BatchMeaning(s: Store, users: seq<User>, times: seq<Time>)
    returns (s': Store, added: nat, errors: seq<BatchError>)
    requires |times| == |users| + 1
    ensures Solo(s, Start(BatchAddUsers(users)), times) == (s', Done(BatchSummary(|users|, added, errors)))
    ensures BatchMeant(s, s', users, |users|, times, added, errors)
  {
    hide BatchMeant;
    var init := times[..|users|];
    s', added, errors := BatchRuns(s, users, init);
    assert times == init + [times[|users|]];
    BatchIgnoresTheEnd(s, s', users, init, times[|users|], added, errors);
  }

  // ---------- SyncUsers: the last message for an id wins ----------

  /** The message that inserts its user: the id is neither stored before nor sent before. */
  predicate Fresh(s: Store, users: seq<User>, i: nat)
    requires i < |users|
  {
    users[i].id !in s && forall j | 0 <= j < i :: users[j].id != users[i].id
  }

  /** The last of the first n messages that is for id */
  function LastFor(users: seq<User>, n: nat, id: Id): Option<nat>
    requires n <= |users|
  {
    if n == 0 then None
    else if users[n - 1].id == id then Some(n - 1)
    else LastFor(users, n - 1, id)
  }

  lemma {:induction false} LastForIsLast(users: seq<User>, n: nat, id: Id)
    requires n <= |users|
    ensures match LastFor(users, n, id)
            case None => forall j | 0 <= j < n :: users[j].id != id
            case Some(i) => i < n && users[i].id == id && forall j | i < j < n :: users[j].id != id
  {
    if n > 0 {
      LastForIsLast(users, n - 1, id);
    }
  }

  function ExpectedOutcome(s: Store, users: seq<User>, i: nat): Outcome
    requires i < |users|
  {
    if users[i].id == 0 then Rejected(IdIsZero) else if Fresh(s, users, i) then Created else Updated
  }

  /** The number of steps that the first n messages take alone: one without an id, two with one */
  function StepsFor(users: seq<User>, n: nat): nat
    requires n <= |users|
  {
    if n == 0 then 0 else StepsFor(users, n - 1) + if users[n - 1].id == 0 then 1 else 2
  }

  /** kept is the stored copy of message i with the add defaults; a date that it lacked is the reading of the clock
      at the write of that message. */
  predicate KeptAsAdded(users: seq<User>, i: nat, kept: User, times: seq<Time>)
    requires i < |users|
  {
    var write := StepsFor(users, i) + 1;
    write < |times| && kept == Stored(WithDefaults(users[i], times[write]))
  }

  /** What the store holds for one id after the first n messages */
  predicate SyncHolds(s: Store, s': Store, users: seq<User>, n: nat, times: seq<Time>, id: Id)
    requires n <= |users|
  {
    match if id == 0 then None else LastFor(users, n, id)
    case None => (id in s' <==> id in s) && (id in s ==> s'[id] == s[id])
    case Some(i) =>
      && i < n && id in s'
      && (if Fresh(s, users, i) then KeptAsAdded(users, i, s'[id], times) else s'[id] == Stored(users[i]))
  }

  ghost predicate SyncStored(s: Store, s': Store, users: seq<User>, n: nat, times: seq<Time>)
    requires n <= |users|
  {
    forall id: Id :: SyncHolds(s, s', users, n, times, id)
  }

  ghost predicate SyncMeant(s: Store, s': Store, users: seq<User>, answers: seq<SyncReply>, times: seq<Time>) {
    && |answers| <= |users|
    && SyncStored(s, s', users, |answers|, times)
    && (forall i | 0 <= i < |answers| :: answers[i] == SyncReply(users[i].id, ExpectedOutcome(s, users, i)))
  }

  /** Running alone, what the existence check found still holds at the write. */
  ghost predicate SyncRunning(s: Store, s': Store, users: seq<User>, l: Local, times: seq<Time>) {
    match l
    case SyncNext(us, answers) =>
      us == users && SyncMeant(s, s', users, answers, times) && |times| == StepsFor(users, |answers|)
    case SyncWrite(us, answers, found) =>
      && us == users && SyncMeant(s, s', users, answers, times)
      && |answers| < |users| && users[|answers|].id != 0 && |times| == StepsFor(users, |answers|) + 1
      && found == (users[|answers|].id in s')
    case Done(r) => r.SyncReplies? && |r.sync| == |users| && SyncMeant(s, s', users, r.sync, times)
    case _ => false
  }

  lemma SyncSeenIsStored(s: Store, s': Store, users: seq<User>, n: nat, times: seq<Time>)
    requires n < |users| && users[n].id != 0 && SyncStored(s, s', users, n, times)
    ensures users[n].id in s' <==> !Fresh(s, users, n)
  {
    assert SyncHolds(s, s', users, n, times, users[n].id);
    LastForIsLast(users, n, users[n].id);
  }

  lemma SyncWrites(s: Store, s': Store, users: seq<User>, n: nat, times: seq<Time>, now: Time)
    requires n < |users| && users[n].id != 0 && SyncStored(s, s', users, n, times)
    requires |times| == StepsFor(users, n) + 1
    ensures var kept := Stored(if Fresh(s, users, n) then WithDefaults(users[n], now) else users[n]);
            SyncStored(s, s'[users[n].id := kept], users, n + 1, times + [now])
  {
    var kept := Stored(if Fresh(s, users, n) then WithDefaults(users[n], now) else users[n]);
    var s'', m := s'[users[n].id := kept], n + 1;
    forall id: Id ensures SyncHolds(s, s'', users, m, times + [now], id) {
      assert SyncHolds(s, s', users, n, times, id);
    }
  }

  lemma SyncSkips(s: Store, s': Store, users: seq<User>, n: nat, m: nat, times: seq<Time>, now: Time)
    requires n <= m <= n + 1 && m <= |users| && SyncStored(s, s', users, n, times)
    requires m == n + 1 ==> users[n].id == 0
    ensures SyncStored(s, s', users, m, times + [now])
  {
    forall id: Id ensures SyncHolds(s, s', users, m, times + [now], id) {
      assert SyncHolds(s, s', users, n, times, id);
    }
  }

  lemma SyncMeantLater(s: Store, s': Store, users: seq<User>, answers: seq<SyncReply>, times: seq<Time>, now: Time)
    requires SyncMeant(s, s', users, answers, times)
    ensures SyncMeant(s, s', users, answers, times + [now])
  {
    SyncSkips(s, s', users, |answers|, |answers|, times, now);
    hide SyncStored, ExpectedOutcome;
  }

  lemma SyncMeantExtends(s: Store, s': Store, s'': Store, users: seq<User>, answers: seq<SyncReply>, times: seq<Time>,
                         now: Time)
    requires SyncMeant(s, s', users, answers, times) && |answers| < |users|
    requires SyncStored(s, s'', users, |answers| + 1, times + [now])
    ensures var answer := SyncReply(users[|answers|].id, ExpectedOutcome(s, users, |answers|));
            SyncMeant(s, s'', users, answers + [answer], times + [now])
  {
    hide SyncStored, ExpectedOutcome;
  }

  lemma SyncNextStep(s: Store, s': Store, users: seq<User>, answers: seq<SyncReply>, times: seq<Time>, now: Time)
    requires SyncRunning(s, s', users, SyncNext(users, answers), times)
    ensures SyncRunning(s, Step(s', SyncNext(users, answers), now).0, users,
                        Step(s', SyncNext(users, answers), now).1, times + [now])
  {
    StepSyncNext(s', users, answers, now);
    SyncMeantLater(s, s', users, answers, times, now);
    if |answers| < |users| && users[|answers|].id == 0 {
      SyncSkips(s, s', users, |answers|, |answers| + 1, times, now);
      SyncMeantExtends(s, s', s', users, answers, times, now);
    }
    hide SyncMeant, Step, Fresh;
  }

  lemma SyncWriteStep(s: Store, s': Store, users: seq<User>, answers: seq<SyncReply>, found: bool, times: seq<Time>,
                      now: Time)
    requires SyncRunning(s, s', users, SyncWrite(users, answers, found), times)
    ensures SyncRunning(s, Step(s', SyncWrite(users, answers, found), now).0, users,
                        Step(s', SyncWrite(users, answers, found), now).1, times + [now])
  {
    hide SyncMeant, SyncStored, Fresh, Step, WithDefaults, Stored;
    var n, u := |answers|, users[|answers|];
    SyncMeantStores(s, s', users, answers, times);
    SyncSeenIsStored(s, s', users, n, times);
    SyncWrites(s, s', users, n, times, now);
    StepSyncWrite(s', users, answers, found, now);
    var kept := Stored(if Fresh(s, users, n) then WithDefaults(u, now) else u);
    SyncMeantExtends(s, s', s'[u.id := kept], users, answers, times, now);
  }

  lemma SyncMeantStores(s: Store, s': Store, users: seq<User>, answers: seq<SyncReply>, times: seq<Time>)
    requires SyncMeant(s, s', users, answers, times)
    ensures |answers| <= |users| && SyncStored(s, s', users, |answers|, times)
  {
  }

  lemma SyncStep(s: Store, s': Store, users: seq<User>, l: Local, times: seq<Time>, now: Time)
    requires SyncRunning(s, s', users, l, times)
    ensures SyncRunning(s, Step(s', l, now).0, users, Step(s', l, now).1, times + [now])
  {
    hide SyncMeant, Step;
    match l
    case SyncNext(_, answers) =>
      SyncNextStep(s, s', users, answers, times, now);
    case SyncWrite(_, answers, found) =>
      SyncWriteStep(s, s', users, answers, found, times, now);
    case Done(r) =>
      StepDone(s', r, now);
      SyncMeantLater(s, s', users, r.sync, times, now);
  }

  /** Every solo run of SyncUsers, finished or not: one answer per message in order, FAILED exactly when
      the id is 0, "created" exactly when the message inserted its user. The key set is the old one and
      all non-zero ids answered; each of those holds the stored copy of its last message, with the add
      defaults only when that message was the one that inserted it. */
  lemma {:induction false} SyncMeaning(s: Store, users: seq<User>, times: seq<Time>)
    ensures SyncRunning(s, Solo(s, Start(SyncUsers(users)), times).0, users,
                        Solo(s, Start(SyncUsers(users)), times).1, times)
    decreases |times|
  {
    if times != [] {
      var init := times[..|times| - 1];
      SyncMeaning(s, users, init);
      var (s', l) := Solo(s, Start(SyncUsers(users)), init);
      SyncStep(s, s', users, l, init, times[|init|]);
      assert init + [times[|init|]] == times;
    }
  }

  /** A solo run that has answered n messages */
  lemma {:induction false} SyncProgress(s: Store, users: seq<User>, n: nat)
    returns (times: seq<Time>, s': Store, answers: seq<SyncReply>)
    requires n <= |users|
    ensures |answers| == n && Reaches(s, SyncUsers(users), times, s', SyncNext(users, answers))
  {
    if n == 0 {
      times, s', answers := [], s, [];
      ReachesStart(s, SyncUsers(users));
    } else {
      hide Reaches;
      times, s', answers := SyncProgress(s, users, n - 1);
      SyncReachesNext(s, users, times, s', answers, 0);
      var u := users[n - 1];
      if u.id == 0 {
        times, answers := times + [0], answers + [SyncReply(0, Rejected(IdIsZero))];
      } else if u.id in s' {
        times, s', answers := times + [0] + [0], s'[u.id := Stored(u)], answers + [SyncReply(u.id, Updated)];
      } else {
        times, s', answers :=
          times + [0] + [0], s'[u.id := Stored(WithDefaults(u, 0))], answers + [SyncReply(u.id, Created)];
      }
    }
  }

  // ---------- UserActivityStream: the last login wins ----------

  /** The last LOGIN of a user among the first n activities */
  function LastLogin(acts: seq<Activity>, n: nat, id: Id): Option<nat>
    requires n <= |acts|
  {
    if n == 0 then None
    else if acts[n - 1].userId == id && acts[n - 1].kind == LOGIN then Some(n - 1)
    else LastLogin(acts, n - 1, id)
  }

  function LoggedIn(u: User, acts: seq<Activity>, n: nat): User
    requires n <= |acts|
  {
    match LastLogin(acts, n, u.id)
    case None => u
    case Some(i) => if i < |acts| then u.(lastLogin := acts[i].timestamp) else u
  }

  lemma {:induction false} LastLoginIsLast(acts: seq<Activity>, n: nat, id: Id)
    requires n <= |acts|
    ensures match LastLogin(acts, n, id)
            case None => forall j | 0 <= j < n :: acts[j].userId == id ==> acts[j].kind != LOGIN
            case Some(i) => i < n && acts[i].userId == id && acts[i].kind == LOGIN
                            && forall j | i < j < n :: acts[j].userId == id ==> acts[j].kind != LOGIN
  {
    if n > 0 {
      LastLoginIsLast(acts, n - 1, id);
    }
  }

  ghost predicate ActivityMeant(s: Store, s': Store, acts: seq<Activity>, replies: seq<ActivityReply>,
                                times: seq<Time>)
  {
    && |replies| <= |acts|
    && s'.Keys == s.Keys
    && (forall id | id in s :: s'[id] == LoggedIn(s[id], acts, |replies|))
    && RepliesMeant(s, acts, replies, times)
  }

  ghost predicate RepliesMeant(s: Store, acts: seq<Activity>, replies: seq<ActivityReply>, times: seq<Time>) {
    && |replies| <= |acts|
    && forall i | 0 <= i < |replies| ::
         && replies[i].userId == acts[i].userId
         && replies[i].acknowledged == (acts[i].userId in s)
         && replies[i].processedAt in times
  }

  lemma RepliesExtend(s: Store, acts: seq<Activity>, replies: seq<ActivityReply>, reply: ActivityReply,
                      times: seq<Time>, now: Time)
    requires RepliesMeant(s, acts, replies, times) && |replies| < |acts|
    requires reply.userId == acts[|replies|].userId && reply.acknowledged == (reply.userId in s)
    requires reply.processedAt in times
    ensures RepliesMeant(s, acts, replies + [reply], times + [now])
  {
  }

  ghost predicate Pending(s: Store, acts: seq<Activity>, replies: seq<ActivityReply>, reply: ActivityReply,
                          times: seq<Time>)
  {
    && |replies| < |acts|
    && reply.userId == acts[|replies|].userId && reply.userId in s
    && acts[|replies|].kind == LOGIN && reply.acknowledged && reply.processedAt in times
  }

  ghost predicate ActivityRunning(s: Store, s': Store, acts: seq<Activity>, l: Local, times: seq<Time>) {
    match l
    case ActivityNext(a, replies) => a == acts && ActivityMeant(s, s', acts, replies, times)
    case ActivityFetch(a, replies, reply) =>
      a == acts && ActivityMeant(s, s', acts, replies, times) && Pending(s, acts, replies, reply, times)
    case ActivityWrite(a, replies, reply, user) =>
      && a == acts && ActivityMeant(s, s', acts, replies, times) && Pending(s, acts, replies, reply, times)
      && user == s'[reply.userId].(lastLogin := acts[|replies|].timestamp)
    case Done(r) => r.ActivityReplies? && |r.activity| == |acts| && ActivityMeant(s, s', acts, r.activity, times)
    case _ => false
  }

  lemma LoggedInKeeps(s: Store, acts: seq<Activity>, n: nat)
    requires WellKept(s) && n <= |acts|
    ensures forall id | id in s ::
              LoggedIn(s[id], acts, n).id == id && Stored(LoggedIn(s[id], acts, n)) == LoggedIn(s[id], acts, n)
  {
  }

  lemma LoginWritten(s: Store, s': Store, acts: seq<Activity>, n: nat, user: User)
    requires WellKept(s) && n < |acts| && acts[n].kind == LOGIN && acts[n].userId in s
    requires s'.Keys == s.Keys && forall id | id in s :: s'[id] == LoggedIn(s[id], acts, n)
    requires user == s'[acts[n].userId].(lastLogin := acts[n].timestamp)
    ensures user.id == acts[n].userId && Stored(user) == user
    ensures forall id | id in s :: s'[user.id := user][id] == LoggedIn(s[id], acts, n + 1)
  {
    LoggedInKeeps(s, acts, n);
  }

  lemma ActivityNextStep(s: Store, s': Store, acts: seq<Activity>, replies: seq<ActivityReply>,
                         times: seq<Time>, now: Time)
    requires WellKept(s) && ActivityMeant(s, s', acts, replies, times)
    ensures ActivityRunning(s, s', acts, Step(s', ActivityNext(acts, replies), now).1, times + [now])
  {
    hide Step, LoggedIn, WellKept;
    StepActivityNext(s', acts, replies, now);
    NoLoginWritten(s, acts, |replies|);
    assert now in times + [now];
  }

  lemma ActivityFetchStep(s: Store, s': Store, acts: seq<Activity>, l: Local, times: seq<Time>, now: Time)
    requires WellKept(s) && l.ActivityFetch? && ActivityRunning(s, s', acts, l, times)
    ensures ActivityRunning(s, s', acts, Step(s', l, now).1, times + [now])
  {
    LoggedInKeeps(s, acts, |l.replies|);
    hide Step, LoggedIn, WellKept;
    StepActivityFetch(s', acts, l.replies, l.reply, now);
  }

  lemma ActivityWriteStep(s: Store, s': Store, acts: seq<Activity>, replies: seq<ActivityReply>, reply: ActivityReply,
                          user: User, times: seq<Time>, now: Time)
    requires WellKept(s) && ActivityMeant(s, s', acts, replies, times) && Pending(s, acts, replies, reply, times)
    requires user == s'[reply.userId].(lastLogin := acts[|replies|].timestamp)
    ensures user.id in s' && Stored(user) == user
    ensures ActivityMeant(s, s'[user.id := user], acts, replies + [reply], times + [now])
  {
    LoginWritten(s, s', acts, |replies|, user);
    hide LoggedIn, WellKept, Stored, RepliesMeant;
    RepliesExtend(s, acts, replies, reply, times, now);
  }

  lemma ActivityStep(s: Store, s': Store, acts: seq<Activity>, l: Local, times: seq<Time>, now: Time)
    requires WellKept(s) && ActivityRunning(s, s', acts, l, times)
    ensures ActivityRunning(s, Step(s', l, now).0, acts, Step(s', l, now).1, times + [now])
  {
    hide Step, ActivityMeant, WellKept;
    match l
    case ActivityNext(_, replies) =>
      ActivityNextStep(s, s', acts, replies, times, now);
      StepActivityNext(s', acts, replies, now);
    case ActivityFetch(_, replies, reply) =>
      ActivityFetchStep(s, s', acts, l, times, now);
      StepActivityFetch(s', acts, replies, reply, now);
    case ActivityWrite(_, replies, reply, user) =>
      ActivityWriteStep(s, s', acts, replies, reply, user, times, now);
      StepActivityWrite(s', acts, replies, reply, user, now);
    case Done(r) =>
      ActivityMeantLater(s, s', acts, r.activity, times, now);
      StepDone(s', r, now);
  }

  lemma ActivityMeantLater(s: Store, s': Store, acts: seq<Activity>, replies: seq<ActivityReply>,
                           times: seq<Time>, now: Time)
    requires ActivityMeant(s, s', acts, replies, times)
    ensures ActivityMeant(s, s', acts, replies, times + [now])
  {
  }

  lemma NoLoginWritten(s: Store, acts: seq<Activity>, n: nat)
    requires WellKept(s) && n <= |acts|
    ensures n < |acts| && (acts[n].userId !in s || acts[n].kind != LOGIN) ==>
              forall id | id in s :: LoggedIn(s[id], acts, n + 1) == LoggedIn(s[id], acts, n)
  {
  }

  /** Every solo run of UserActivityStream: one reply per activity in order, acknowledged exactly when the
      user exists; the key set and all other fields are unchanged, and the last login of a stored user is
      the timestamp of its last LOGIN activity answered so far, or what it was if there is none. */
  lemma {:induction false} ActivityMeaning(s: Store, acts: seq<Activity>, times: seq<Time>)
    requires WellKept(s)
    ensures ActivityRunning(s, Solo(s, Start(UserActivityStream(acts)), times).0, acts,
                            Solo(s, Start(UserActivityStream(acts)), times).1, times)
    decreases |times|
  {
    if times == [] {
    } else {
      var init := times[..|times| - 1];
      ActivityMeaning(s, acts, init);
      var (s', l) := Solo(s, Start(UserActivityStream(acts)), init);
      ActivityStep(s, s', acts, l, init, times[|init|]);
      assert init + [times[|init|]] == times;
    }
  }
}
