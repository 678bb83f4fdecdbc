/** The nine handlers as methods over the in-memory storage. Each is proved to do, when nothing runs beside
    it, what the stepwise handler of module Handlers does alone. Messages of one stream are distinct objects:
    every receive decodes into a new one. Readings of the clock are parameters. */
module Server {
  import opened Values
  import opened FieldMask
  import opened Filters
  import opened StoreSpec
  import opened Handlers
  import opened Objects
  import opened MemoryStorage
  import Streams

  /** The response of a handler that returns only an error or nothing */
  function Replied(error: Option<Error>): Response {
    if error.None? then Empty else Fail(error.value)
  }

  /** What AddUser does when nothing runs beside it; the three below say so of the other unary calls. */
  ghost predicate AddServed(s: Store, u: User, now: Time, s': Store, error: Option<Error>) {
    Serves(s, Call.AddUser(u), now, s', Replied(error))
  }

  ghost predicate GetServed(s: Store, id: Id, user: Option<User>, error: Option<Error>) {
    && (user.Some? <==> error.None?)
    && Serves(s, Call.GetUser(id), 0, s, if user.Some? then OneUser(user.value) else Replied(error))
  }

  ghost predicate UpdateServed(s: Store, req: Option<User>, mask: seq<string>, s': Store,
                               user: Option<User>, error: Option<Error>) {
    && (user.Some? <==> error.None?)
    && Serves(s, Call.UpdateUser(req, mask), 0, s', if user.Some? then OneUser(user.value) else Replied(error))
  }

  ghost predicate DeleteServed(s: Store, id: Id, s': Store, error: Option<Error>) {
    Serves(s, Call.DeleteUser(id), 0, s', Replied(error))
  }

  lemma AddServes(s: Store, u: User, now: Time)
    ensures var refused := |s| == 0 && u.role != ADMIN;
            && (refused ==> AddServed(s, u, now, s, Some(FirstUserNotAdmin)))
            && (!refused && u.id == 0 ==> AddServed(s, u, now, s, Some(IdIsZero)))
            && (!refused && u.id != 0 && u.username == "" ==> AddServed(s, u, now, s, Some(UsernameEmpty)))
            && (!refused && u.id != 0 && u.username != "" ==>
                  AddServed(s, u, now, After(s, Add(u), now), ErrorIn(Answer(s, Add(u)))))
  {
    hide Serves;
    ServeAddUser(s, u, now);
  }

  lemma GetServes(s: Store, id: Id)
    ensures id == 0 ==> GetServed(s, id, None, Some(IdIsZero))
    ensures id != 0 && id !in s ==> GetServed(s, id, None, Some(NotFound))
    ensures id != 0 && id in s ==> GetServed(s, id, Some(Stored(s[id])), None)
  {
    hide Serves;
    ServeGetUser(s, id, 0);
  }

  lemma UpdateServes(s: Store, req: User, mask: seq<string>)
    ensures req.id == 0 ==> UpdateServed(s, Some(req), mask, s, None, Some(IdIsZero))
    ensures req.id != 0 && req.id !in s ==> UpdateServed(s, Some(req), mask, s, None, Some(NotFound))
    ensures req.id != 0 && req.id in s ==>
              match Edited(Stored(s[req.id]), req, mask)
              case Failure(e) => UpdateServed(s, Some(req), mask, s, None, Some(e))
              case Success(edited) =>
                UpdateServed(s, Some(req), mask, After(s, Update(edited), 0),
                             if edited.id in s then Some(edited) else None, ErrorIn(Answer(s, Update(edited))))
  {
    hide Serves, Edited;
    ServeUpdateUser(s, req, mask, 0);
  }

  lemma UpdateOfNothing(s: Store, mask: seq<string>)
    ensures UpdateServed(s, None, mask, s, None, Some(UserMissing))
  {
    hide Serves;
    ServeUpdateNothing(s, mask, 0);
  }

  lemma DeleteServes(s: Store, id: Id)
    ensures id == 0 ==> DeleteServed(s, id, s, Some(IdIsZero))
    ensures id != 0 ==> DeleteServed(s, id, After(s, Delete(id), 0), ErrorIn(Answer(s, Delete(id))))
  {
    hide Serves;
    ServeDeleteUser(s, id, 0);
  }

  ghost function OptionalUser(user: UserObject?): Option<User>
    reads user, if user == null then {} else {user.profile, user.addresses}, if user == null then {} else user.Reach()
  {
    if user == null then None else Some(user.Value())
  }

  lemma OnlyItself(u: UserObject, v: UserObject)
    requires u != v
    ensures u !in v.Reach()
  {
    UserNotAmongAddresses(u, v.addresses);
    hide AddressesReach;
  }

  method AssignScalar(existing: UserObject, req: UserObject, f: Field)
    requires existing != req && f != Field.Profile && f != Addresses
    modifies existing
    ensures existing.Value() == SetField(old(existing.Value()), req.Value(), f)
    ensures req.Value() == old(req.Value())
  {
    hide UserObject.Reach, AddressValues, AddressesReach, AddressValue;
    ghost var before, theirs := existing.Value(), req.Value();
    UserNotAmongAddresses(existing, existing.addresses);
    UserNotAmongAddresses(existing, req.addresses);
    match f {
      case Role => existing.role := req.role;
      case Username => existing.username := req.username;
      case Email => existing.email := req.email;
      case Phone => existing.phone := req.phone;
      case Tags => existing.tags := req.tags;
      case Metadata => existing.metadata := req.metadata;
      case Status => existing.status := req.status;
      case LastLogin => existing.lastLogin := req.lastLogin;
    }
    assert OptionalProfile(req.profile) == theirs.profile && AddressValues(req.addresses) == theirs.addresses;
    assert OptionalProfile(existing.profile) == before.profile && AddressValues(existing.addresses) == before.addresses;
    hide OptionalProfile, OptionalEntries;
  }

  method AssignProfile(existing: UserObject, req: UserObject)
    requires existing != req
    modifies existing
    ensures existing.Value() == SetField(old(existing.Value()), req.Value(), Field.Profile)
    ensures req.Value() == old(req.Value())
  {
    hide UserObject.Reach, AddressValues, AddressesReach, AddressValue;
    UserNotAmongAddresses(existing, existing.addresses);
    UserNotAmongAddresses(existing, req.addresses);
    existing.profile := req.profile;
    assert OptionalProfile(req.profile) == old(OptionalProfile(req.profile));
  }

  method AssignAddresses(existing: UserObject, req: UserObject)
    requires existing != req
    modifies existing
    ensures existing.Value() == SetField(old(existing.Value()), req.Value(), Addresses)
    ensures req.Value() == old(req.Value())
  {
    hide UserObject.Reach, AddressValues, AddressesReach, AddressValue;
    UserNotAmongAddresses(existing, req.addresses);
    existing.addresses := req.addresses;
    assert AddressValues(req.addresses) == old(AddressValues(req.addresses));
  }

  /** The assignments of UpdateUser's switch */
  method AssignField(existing: UserObject, req: UserObject, f: Field)
    requires existing != req
    modifies existing
    ensures existing.Value() == SetField(old(existing.Value()), req.Value(), f)
    ensures req.Value() == old(req.Value())
  {
    hide UserObject.Value, UserObject.Reach, SetField;
    match f {
      case Profile => AssignProfile(existing, req);
      case Addresses => AssignAddresses(existing, req);
      case _ => AssignScalar(existing, req, f);
    }
  }

  predicate Distinct(stream: seq<UserObject>) {
    forall i, j | 0 <= i < j < |stream| :: stream[i] != stream[j]
  }

  /** Positions are counted in int32. */
  function OnTheWire(errors: seq<BatchError>): seq<BatchError> {
    seq(|errors|, i requires 0 <= i < |errors| => BatchError(Wrap32(errors[i].position), errors[i].error))
  }

  lemma OnTheWireStart()
    ensures OnTheWire([]) == []
  {
  }

  lemma OnTheWireNext(errors: seq<BatchError>, e: BatchError)
    ensures OnTheWire(errors + [e]) == OnTheWire(errors) + [BatchError(Wrap32(e.position), e.error)]
  {
  }

  /** int32 increment */
  function Increment(n: Int32): Int32 {
    Wrap32(n + 1)
  }

  lemma WrapCounts(n: int)
    ensures Wrap32(0) == 0 && Increment(Wrap32(n)) == Wrap32(n + 1)
  {
  }

  lemma ExactPositions(errors: seq<BatchError>)
    requires forall e | e in errors :: 1 <= e.position < 0x8000_0000
    ensures OnTheWire(errors) == errors
  {
    forall i | 0 <= i < |errors| ensures OnTheWire(errors)[i] == errors[i] {
      assert errors[i] in errors;
    }
  }

  /** What is sent of a whole batch is exact, positions included, exactly up to 2^31 - 1 messages. */
  lemma SummaryIsExact(s: Store, s': Store, users: seq<User>, times: seq<Time>, errors: seq<BatchError>)
    requires |errors| <= |users|
    requires Streams.BatchMeant(s, s', users, |users|, times, |users| - |errors|, errors)
    ensures Wrap32(|users|) == |users| <==> |users| < 0x8000_0000
    ensures |users| < 0x8000_0000 ==>
              && Wrap32(|users|) == Wrap32(|users| - |errors|) + Wrap32(|errors|)
              && Wrap32(|users| - |errors|) == |s'| - |s| && Wrap32(|errors|) == |errors|
              && OnTheWire(errors) == errors
  {
    hide Streams.BatchStored, Streams.Refusals, Streams.Accepted;
    Streams.RefusalPositions(s, users, |users|);
    if |users| < 0x8000_0000 {
      assert forall e | e in errors :: 1 <= e.position <= |users|;
      ExactPositions(errors);
    }
  }

  /** BatchAddUsers, running alone, has handled |times| messages with these errors. */
  ghost predicate BatchAt(s: Store, users: seq<User>, times: seq<Time>, s': Store, errors: seq<BatchError>) {
    && |errors| <= |times|
    && Reaches(s, Call.BatchAddUsers(users), times, s', BatchNext(users, |times|, |times| - |errors|, errors))
  }

  ghost predicate BatchDone(s: Store, users: seq<User>, times: seq<Time>, s': Store, errors: seq<BatchError>) {
    && |errors| <= |users|
    && Reaches(s, Call.BatchAddUsers(users), times, s', Done(BatchSummary(|users|, |users| - |errors|, errors)))
  }

  function WithError(errors: seq<BatchError>, i: nat, error: Option<Error>): seq<BatchError> {
    if error.None? then errors else errors + [BatchError(i + 1, error.value)]
  }

  lemma BatchAtStart(s: Store, users: seq<User>)
    ensures BatchAt(s, users, [], s, [])
  {
    hide Reaches;
    ReachesStart(s, Call.BatchAddUsers(users));
  }

  lemma BatchAtNext(s: Store, users: seq<User>, times: seq<Time>, s': Store, errors: seq<BatchError>, now: Time)
    requires |times| < |users| && BatchAt(s, users, times, s', errors)
    ensures var n, u := |times|, users[|times|];
            && (u.id == 0 ==> BatchAt(s, users, times + [now], s', WithError(errors, n, Some(IdIsZero))))
            && (u.id != 0 && u.username == "" ==>
                  BatchAt(s, users, times + [now], s', WithError(errors, n, Some(UsernameEmpty))))
            && (u.id != 0 && u.username != "" ==>
                  BatchAt(s, users, times + [now], After(s', Add(u), now),
                          WithError(errors, n, ErrorIn(Answer(s', Add(u))))))
  {
    hide Reaches;
    BatchReachesNext(s, users, times, s', |times| - |errors|, errors, now);
  }

  lemma BatchAtEnd(s: Store, users: seq<User>, times: seq<Time>, s': Store, errors: seq<BatchError>, end: Time)
    requires |times| == |users| && BatchAt(s, users, times, s', errors)
    ensures BatchDone(s, users, times + [end], s', errors)
  {
    hide Reaches;
    BatchReachesNext(s, users, times, s', |times| - |errors|, errors, end);
  }

  lemma BatchMeans(s: Store, users: seq<User>, times: seq<Time>, s': Store, errors: seq<BatchError>)
    requires |times| == |users| + 1 && BatchDone(s, users, times, s', errors)
    ensures Streams.BatchMeant(s, s', users, |users|, times, |users| - |errors|, errors)
  {
    hide Solo, Start, Streams.BatchMeant;
    var t, added, refused := Streams.BatchMeaning(s, users, times);
  }

  /** SyncUsers, running alone, has sent these answers. */
  ghost predicate SyncAt(s: Store, users: seq<User>, times: seq<Time>, s': Store, answers: seq<SyncReply>) {
    Reaches(s, Call.SyncUsers(users), times, s', SyncNext(users, answers))
  }

  ghost predicate SyncDone(s: Store, users: seq<User>, times: seq<Time>, s': Store, answers: seq<SyncReply>) {
    Reaches(s, Call.SyncUsers(users), times, s', Done(SyncReplies(answers)))
  }

  function OutcomeOf(error: Option<Error>, done: Outcome): Outcome {
    if error.Some? then Rejected(error.value) else done
  }

  lemma SyncAtStart(s: Store, users: seq<User>)
    ensures SyncAt(s, users, [], s, [])
  {
    hide Reaches;
    ReachesStart(s, Call.SyncUsers(users));
  }

  lemma SyncAtNext(s: Store, users: seq<User>, times: seq<Time>, s': Store, answers: seq<SyncReply>, now: Time)
    requires |answers| < |users| && SyncAt(s, users, times, s', answers)
    ensures var u := users[|answers|];
            && (u.id == 0 ==> SyncAt(s, users, times + [now], s', answers + [SyncReply(0, Rejected(IdIsZero))]))
            && (u.id != 0 && u.id in s' ==>
                  SyncAt(s, users, times + [now] + [now], After(s', Update(u), 0),
                         answers + [SyncReply(u.id, OutcomeOf(ErrorIn(Answer(s', Update(u))), Updated))]))
            && (u.id != 0 && u.id !in s' ==>
                  SyncAt(s, users, times + [now] + [now], After(s', Add(u), now),
                         answers + [SyncReply(u.id, OutcomeOf(ErrorIn(Answer(s', Add(u))), Created))]))
  {
    hide Reaches;
    SyncReachesNext(s, users, times, s', answers, now);
  }

  lemma SyncAtEnd(s: Store, users: seq<User>, times: seq<Time>, s': Store, answers: seq<SyncReply>, end: Time)
    requires |answers| == |users| && SyncAt(s, users, times, s', answers)
    ensures SyncDone(s, users, times + [end], s', answers)
  {
    hide Reaches;
    SyncReachesNext(s, users, times, s', answers, end);
  }

  lemma SyncMeans(s: Store, users: seq<User>, times: seq<Time>, s': Store, answers: seq<SyncReply>)
    requires SyncDone(s, users, times, s', answers)
    ensures |answers| == |users| && Streams.SyncMeant(s, s', users, answers, times)
  {
    hide Solo, Start, Streams.SyncMeant;
    Streams.SyncMeaning(s, users, times);
  }

  /** UserActivityStream, running alone, has sent these replies. */
  ghost predicate ActivityAt(s: Store, acts: seq<Activity>, times: seq<Time>, s': Store, replies: seq<ActivityReply>) {
    Reaches(s, Call.UserActivityStream(acts), times, s', ActivityNext(acts, replies))
  }

  ghost predicate ActivityDone(s: Store, acts: seq<Activity>, times: seq<Time>, s': Store,
                               replies: seq<ActivityReply>)
  {
    Reaches(s, Call.UserActivityStream(acts), times, s', Done(ActivityReplies(replies)))
  }

  lemma ActivityAtStart(s: Store, acts: seq<Activity>)
    ensures ActivityAt(s, acts, [], s, [])
  {
    hide Reaches;
    ReachesStart(s, Call.UserActivityStream(acts));
  }

  lemma ActivityAtNext(s: Store, acts: seq<Activity>, times: seq<Time>, s': Store, replies: seq<ActivityReply>,
                       now: Time)
    requires |replies| < |acts| && ActivityAt(s, acts, times, s', replies)
    ensures var a := acts[|replies|];
            var replies' := replies + [ActivityReply(a.userId, a.userId in s', now)];
            if a.userId in s' && a.kind == LOGIN then
              ActivityAt(s, acts, times + [now] + [now] + [now],
                         After(s', Update(Stored(s'[a.userId]).(lastLogin := a.timestamp)), 0), replies')
            else ActivityAt(s, acts, times + [now], s', replies')
  {
    hide Reaches;
    ActivityReachesNext(s, acts, times, s', replies, now);
  }

  lemma ActivityAtEnd(s: Store, acts: seq<Activity>, times: seq<Time>, s': Store, replies: seq<ActivityReply>,
                      end: Time)
    requires |replies| == |acts| && ActivityAt(s, acts, times, s', replies)
    ensures ActivityDone(s, acts, times + [end], s', replies)
  {
    hide Reaches;
    ActivityReachesNext(s, acts, times, s', replies, end);
  }

  lemma ActivityMeans(s: Store, acts: seq<Activity>, times: seq<Time>, s': Store, replies: seq<ActivityReply>)
    requires WellKept(s) && ActivityDone(s, acts, times, s', replies)
    ensures |replies| == |acts| && Streams.ActivityMeant(s, s', acts, replies, times)
  {
    hide Solo, Start, WellKept, Streams.ActivityMeant;
    Streams.ActivityMeaning(s, acts, times);
  }

  method SetLastLogin(user: UserObject, t: Option<Time>)
    modifies user
    ensures user.Value() == old(user.Value()).(lastLogin := t)
  {
    UserNotAmongAddresses(user, user.addresses);
    hide AddressValues, AddressesReach, AddressValue;
    user.lastLogin := t;
  }

  lemma AllMerged(existing: User, req: User)
    ensures Merged(existing, req, ALL_FIELDS) == req.(id := existing.id, createDate := existing.createDate)
  {
  }

  /** Without a mask every field but id and create date is assigned. */
  method AssignAll(existing: UserObject, req: UserObject)
    requires existing != req
    modifies existing
    ensures existing.Value() == Merged(old(existing.Value()), req.Value(), ALL_FIELDS)
    ensures req.Value() == old(req.Value())
  {
    hide UserObject.Value, UserObject.Reach, Merged;
    AllMerged(existing.Value(), req.Value());
    AssignField(existing, req, Role);
    AssignField(existing, req, Username);
    AssignField(existing, req, Email);
    AssignField(existing, req, Phone);
    AssignField(existing, req, Field.Profile);
    AssignField(existing, req, Tags);
    AssignField(existing, req, Metadata);
    AssignField(existing, req, Status);
    AssignField(existing, req, LastLogin);
    AssignField(existing, req, Addresses);
  }

  /** The loop over the mask, on a copy */
  method EditCopy(existing: UserObject, req: UserObject, mask: seq<string>) returns (error: Option<Error>)
    requires existing != req
    modifies existing
    ensures match Edited(old(existing.Value()), old(req.Value()), mask)
            case Failure(e) => error == Some(e)
            case Success(edited) => error == None && existing.Value() == edited
  {
    hide UserObject.Value, UserObject.Reach, SetField, Merged;
    if |mask| > 0 {
      ghost var fetched, theirs := existing.Value(), req.Value();
      for i := 0 to |mask|
        invariant req.Value() == theirs
        invariant ApplyPaths(existing.Value(), theirs, mask[i..]) == ApplyPaths(fetched, theirs, mask)
      {
        var path := mask[i];
        assert mask[i..][0] == path && mask[i..][1..] == mask[i + 1..];
        if path == "id" {
          return Some(CannotUpdateId);
        }
        match FieldOf(path) {
          case None =>
            return Some(InvalidPath(path));
          case Some(f) =>
            AssignField(existing, req, f);
        }
      }
    } else {
      AssignAll(existing, req);
    }
    error := None;
  }

  /** With clocks that do not run backwards, whoever is listed is within the bounds of the request and whoever
      is clear of them is listed. */
  ghost predicate ListingInBounds(s: Store, order: seq<Id>, req: ListRequest, now: Time, clock: Id -> Readings) {
    (forall id: Id :: now <= clock(id).first <= clock(id).second) ==>
      && (forall id | id in order :: id in s && UserWithinBounds(s[id], req, now))
      && (forall id | id in s && ClearOfBounds(s[id], req, now, clock(id)) :: id in order)
  }

  lemma BoundsOfMatching(s: Store, req: ListRequest, now: Time, clock: Id -> Readings)
    ensures forall order: seq<Id> | Enumerates(order, Matching(s, FilterOf(req, now), clock)) ::
              ListingInBounds(s, order, req, now, clock)
  {
    hide Passes, UserWithinBounds, ClearOfBounds, FilterOf;
    if forall id: Id :: now <= clock(id).first <= clock(id).second {
      forall id | id in s
        ensures Passes(s[id], FilterOf(req, now), clock(id)) ==> UserWithinBounds(s[id], req, now)
        ensures ClearOfBounds(s[id], req, now, clock(id)) ==> Passes(s[id], FilterOf(req, now), clock(id))
      {
        if Passes(s[id], FilterOf(req, now), clock(id)) {
          ListedWithinBounds(s[id], req, now, clock(id));
        }
        if ClearOfBounds(s[id], req, now, clock(id)) {
          ClearOfBoundsIsListed(s[id], req, now, clock(id));
        }
      }
    }
  }

  /** The write of message i is the step made at this reading of the clock. */
  ghost predicate WrittenAt(values: seq<User>, times: seq<Time>, i: nat, t: Time)
    requires i < |values|
  {
    var write := Streams.StepsFor(values, i) + 1;
    write < |times| && times[write] == t
  }

  lemma NoStepsYet(values: seq<User>)
    ensures Streams.StepsFor(values, 0) == 0
  {
  }

  lemma OneMoreWrittenAt(values: seq<User>, times: seq<Time>, clock: seq<Time>, i: nat)
    requires i < |values| == |clock| && |times| == Streams.StepsFor(values, i)
    requires forall k | 0 <= k < i && values[k].id != 0 :: WrittenAt(values, times, k, clock[k])
    ensures var times' := if values[i].id == 0 then times + [clock[i]] else times + [clock[i]] + [clock[i]];
            && |times'| == Streams.StepsFor(values, i + 1)
            && forall k | 0 <= k <= i && values[k].id != 0 :: WrittenAt(values, times', k, clock[k])
  {
  }

  class UserServer {
    const storage: Storage

    constructor (storage: Storage)
      ensures this.storage == storage
    {
      this.storage := storage;
    }

    method AddUser(user: UserObject, now: Time) returns (error: Option<Error>)
      requires storage.Valid() && user !in storage.Repr
      modifies storage, user`createDate, user`status
      ensures storage.Valid() && fresh(storage.Repr - old(storage.Repr))
      ensures AddServed(old(storage.Contents()), old(user.Value()), now, storage.Contents(), error)
    {
      ghost var s, value := storage.Contents(), user.Value();
      assert value.role == user.role && value.username == user.username;
      hide AddServed, After, UserObject.Reach, UserObject.Value, Storage.Valid, Storage.Contents, WithDefaults;
      AddServes(s, value, now);
      var count := storage.Count();
      if count == 0 && user.role != ADMIN {
        return Some(FirstUserNotAdmin);
      }
      if user.id == 0 {
        return Some(IdIsZero);
      }
      if user.username == "" {
        return Some(UsernameEmpty);
      }
      error := storage.AddUser(user, now);
    }

    method GetUser(id: Id) returns (user: UserObject?, error: Option<Error>)
      requires storage.Valid()
      ensures storage.Valid() && storage.Contents() == old(storage.Contents())
      ensures user != null ==> fresh(user.Reach())
      ensures GetServed(old(storage.Contents()), id, OptionalUser(user), error)
    {
      hide GetServed, UserObject.Reach, Storage.Valid, Storage.Contents, UserObject.Value;
      GetServes(storage.Contents(), id);
      if id == 0 {
        return null, Some(IdIsZero);
      }
      user, error := storage.GetUser(id);
    }

    /** The request's objects may end up in the user returned, but the storage takes a copy of its own,
        and when the mask is refused only the copy fetched has been edited. */
    method UpdateUser(req: UserObject?, mask: seq<string>) returns (user: UserObject?, error: Option<Error>)
      requires storage.Valid()
      modifies storage
      ensures storage.Valid() && fresh(storage.Repr - old(storage.Repr))
      ensures UpdateServed(old(storage.Contents()), old(OptionalUser(req)), mask, storage.Contents(),
                           OptionalUser(user), error)
    {
      hide UpdateServed, UserObject.Reach, Storage.Valid, Storage.Contents, UserObject.Value, Edited, After, Stored;
      ghost var s := storage.Contents();
      if req == null {
        UpdateOfNothing(s, mask);
        return null, Some(UserMissing);
      }
      ReachIsAllocated(req);
      ghost var value := req.Value();
      UpdateServes(s, value, mask);
      if req.id == 0 {
        return null, Some(IdIsZero);
      }
      var existing, missing := storage.GetUser(req.id);
      if existing == null {
        return null, missing;
      }
      error := EditCopy(existing, req, mask);
      if error.Some? {
        return null, error;
      }
      error := storage.UpdateUser(existing);
      user := if error.None? then existing else null;
    }

    method DeleteUser(id: Id) returns (error: Option<Error>)
      requires storage.Valid()
      modifies storage
      ensures storage.Valid() && storage.Repr == old(storage.Repr)
      ensures DeleteServed(old(storage.Contents()), id, storage.Contents(), error)
    {
      hide DeleteServed, Storage.Valid, Storage.Contents, After;
      DeleteServes(storage.Contents(), id);
      if id == 0 {
        return Some(IdIsZero);
      }
      error := storage.DeleteUser(id);
    }

    /** AddUser on one message of a stream; the other messages are left as they are. */
    method AddFrom(stream: seq<UserObject>, i: nat, now: Time) returns (error: Option<Error>)
      requires storage.Valid() && i < |stream| && Distinct(stream) && stream[i] !in storage.Repr
      modifies storage, stream[i]
      ensures storage.Valid() && fresh(storage.Repr - old(storage.Repr))
      ensures storage.Contents() == After(old(storage.Contents()), Add(old(stream[i].Value())), now)
      ensures error == ErrorIn(Answer(old(storage.Contents()), Add(old(stream[i].Value()))))
      ensures forall j | 0 <= j < |stream| && j != i :: stream[j].Value() == old(stream[j].Value())
    {
      hide UserObject.Value, UserObject.Reach, Storage.Contents, Storage.Valid, After, Answer;
      forall j | 0 <= j < |stream| && j != i
        ensures allocated(stream[j].Reach()) && stream[i] !in stream[j].Reach() && storage !in stream[j].Reach()
      {
        ReachIsAllocated(stream[j]);
        OnlyItself(stream[i], stream[j]);
        storage.NotInMessage(stream[j]);
      }
      error := storage.AddUser(stream[i], now);
    }

    /** UpdateUser on one message of a stream */
    method UpdateFrom(stream: seq<UserObject>, i: nat) returns (error: Option<Error>)
      requires storage.Valid() && i < |stream|
      modifies storage
      ensures storage.Valid() && fresh(storage.Repr - old(storage.Repr))
      ensures storage.Contents() == After(old(storage.Contents()), Update(old(stream[i].Value())), 0)
      ensures error == ErrorIn(Answer(old(storage.Contents()), Update(old(stream[i].Value()))))
      ensures forall j | 0 <= j < |stream| :: stream[j].Value() == old(stream[j].Value())
    {
      hide UserObject.Value, UserObject.Reach, Storage.Contents, Storage.Valid, After, Answer;
      forall j | 0 <= j < |stream|
        ensures allocated(stream[j].Reach()) && storage !in stream[j].Reach()
      {
        ReachIsAllocated(stream[j]);
        storage.NotInMessage(stream[j]);
      }
      error := storage.UpdateUser(stream[i]);
    }

    /** One turn of BatchAddUsers: message i of the stream, with the first i handled */
    method BatchOne(stream: seq<UserObject>, i: nat, now: Time, ghost s: Store, ghost values: seq<User>,
                    ghost times: seq<Time>, ghost exact: seq<BatchError>) returns (error: Option<Error>)
      requires storage.Valid() && i < |stream| == |values| && Distinct(stream) && stream[i] !in storage.Repr
      requires stream[i].Value() == values[i] && i == |times| && BatchAt(s, values, times, storage.Contents(), exact)
      modifies storage, stream[i]
      ensures storage.Valid() && fresh(storage.Repr - old(storage.Repr))
      ensures forall j | 0 <= j < |stream| && j != i :: stream[j].Value() == old(stream[j].Value())
      ensures BatchAt(s, values, times + [now], storage.Contents(), WithError(exact, i, error))
    {
      assert values[i].id == stream[i].id && values[i].username == stream[i].username;
      hide UserObject.Value, UserObject.Reach, Storage.Contents, Storage.Valid, BatchAt, WithError, After;
      BatchAtNext(s, values, times, storage.Contents(), exact, now);
      if stream[i].id == 0 {
        error := Some(IdIsZero);
      } else if stream[i].username == "" {
        error := Some(UsernameEmpty);
      } else {
        error := AddFrom(stream, i, now);
      }
    }

    /** clock[i] is the reading of the clock when message i is handled, end the one at the end of the stream.
        exact are the errors with unbounded positions; the counts on the wire are int32. */
    method BatchAddUsers(stream: seq<UserObject>, ghost values: seq<User>, clock: seq<Time>, ghost end: Time)
      returns (received: Int32, added: Int32, failed: Int32, errors: seq<BatchError>, ghost exact: seq<BatchError>)
      requires storage.Valid() && Distinct(stream) && |clock| == |stream| == |values|
      requires forall i | 0 <= i < |stream| :: stream[i] !in storage.Repr && stream[i].Value() == values[i]
      modifies storage, stream
      ensures storage.Valid() && fresh(storage.Repr - old(storage.Repr)) && |exact| <= |values|
      ensures BatchDone(old(storage.Contents()), values, clock + [end], storage.Contents(), exact)
      ensures received == Wrap32(|values|) && added == Wrap32(|values| - |exact|) && failed == Wrap32(|exact|)
      ensures errors == OnTheWire(exact)
      ensures Streams.BatchMeant(old(storage.Contents()), storage.Contents(), values, |values|, clock + [end],
                                 |values| - |exact|, exact)
    {
      hide UserObject.Value, UserObject.Reach, Storage.Contents, Storage.Valid, BatchAt, Wrap32, OnTheWire,
           BatchDone, Streams.BatchMeant;
      ghost var s := storage.Contents();
      received, added, failed, errors, exact := 0, 0, 0, [], [];
      OnTheWireStart();
      BatchAtStart(s, values);
      WrapCounts(0);
      for i := 0 to |stream|
        invariant storage.Valid() && fresh(storage.Repr - old(storage.Repr)) && |exact| <= i
        invariant forall j | i <= j < |stream| :: stream[j] !in storage.Repr && stream[j].Value() == values[j]
        invariant received == Wrap32(i) && added == Wrap32(i - |exact|) && failed == Wrap32(|exact|)
        invariant errors == OnTheWire(exact)
        invariant BatchAt(s, values, clock[..i], storage.Contents(), exact)
      {
        WrapCounts(i);
        WrapCounts(i - |exact|);
        WrapCounts(|exact|);
        assert clock[..i] + [clock[i]] == clock[..i + 1];
        received := Increment(received);
        var error := BatchOne(stream, i, clock[i], s, values, clock[..i], exact);
        if error.Some? {
          OnTheWireNext(exact, BatchError(i + 1, error.value));
          failed := Increment(failed);
          errors, exact := errors + [BatchError(received, error.value)], exact + [BatchError(i + 1, error.value)];
        } else {
          added := Increment(added);
        }
      }
      assert clock[..|stream|] == clock;
      BatchAtEnd(s, values, clock, storage.Contents(), exact, end);
      BatchMeans(s, values, clock + [end], storage.Contents(), exact);
    }

    /** One turn of SyncUsers */
    method SyncOne(stream: seq<UserObject>, i: nat, now: Time, ghost s: Store, ghost values: seq<User>,
                   ghost times: seq<Time>, ghost answers: seq<SyncReply>)
      returns (answer: SyncReply, ghost times': seq<Time>)
      requires storage.Valid() && i < |stream| == |values| && Distinct(stream) && stream[i] !in storage.Repr
      requires stream[i].Value() == values[i] && |answers| == i && SyncAt(s, values, times, storage.Contents(), answers)
      modifies storage, stream[i]
      ensures storage.Valid() && fresh(storage.Repr - old(storage.Repr))
      ensures forall j | 0 <= j < |stream| && j != i :: stream[j].Value() == old(stream[j].Value())
      ensures SyncAt(s, values, times', storage.Contents(), answers + [answer])
      ensures times' == if values[i].id == 0 then times + [now] else times + [now] + [now]
    {
      assert values[i].id == stream[i].id;
      hide UserObject.Value, UserObject.Reach, Storage.Contents, Storage.Valid;
      hide SyncAt, After, Answer, ErrorIn, OutcomeOf;
      SyncAtNext(s, values, times, storage.Contents(), answers, now);
      var id := stream[i].id;
      if id == 0 {
        return SyncReply(0, Rejected(IdIsZero)), times + [now];
      }
      times' := times + [now] + [now];
      var found := storage.UserExists(id);
      if found {
        var error := UpdateFrom(stream, i);
        answer := SyncReply(id, OutcomeOf(error, Updated));
      } else {
        var error := AddFrom(stream, i, now);
        answer := SyncReply(id, OutcomeOf(error, Created));
      }
    }

    /** times are the steps of the solo run; the write of message i is made at clock[i]. */
    method SyncUsers(stream: seq<UserObject>, ghost values: seq<User>, clock: seq<Time>, ghost end: Time)
      returns (answers: seq<SyncReply>, ghost times: seq<Time>)
      requires storage.Valid() && Distinct(stream) && |clock| == |stream| == |values|
      requires forall i | 0 <= i < |stream| :: stream[i] !in storage.Repr && stream[i].Value() == values[i]
      modifies storage, stream
      ensures storage.Valid() && fresh(storage.Repr - old(storage.Repr))
      ensures SyncDone(old(storage.Contents()), values, times + [end], storage.Contents(), answers)
      ensures |times| == Streams.StepsFor(values, |values|) && forall t | t in times :: t in clock
      ensures forall i | 0 <= i < |values| && values[i].id != 0 :: WrittenAt(values, times, i, clock[i])
      ensures |answers| == |values|
      ensures Streams.SyncMeant(old(storage.Contents()), storage.Contents(), values, answers, times + [end])
    {
      hide Streams.StepsFor, WrittenAt;
      NoStepsYet(values);
      hide UserObject.Value, UserObject.Reach, Storage.Contents, Storage.Valid, SyncAt, SyncDone, Streams.SyncMeant;
      ghost var s := storage.Contents();
      answers, times := [], [];
      SyncAtStart(s, values);
      for i := 0 to |stream|
        invariant storage.Valid() && fresh(storage.Repr - old(storage.Repr)) && |answers| == i
        invariant forall j | i <= j < |stream| :: stream[j] !in storage.Repr && stream[j].Value() == values[j]
        invariant |times| == Streams.StepsFor(values, i) && forall t | t in times :: t in clock
        invariant forall k | 0 <= k < i && values[k].id != 0 :: WrittenAt(values, times, k, clock[k])
        invariant SyncAt(s, values, times, storage.Contents(), answers)
      {
        var answer;
        ghost var before := times;
        answer, times := SyncOne(stream, i, clock[i], s, values, times, answers);
        OneMoreWrittenAt(values, before, clock, i);
        answers := answers + [answer];
      }
      SyncAtEnd(s, values, times, storage.Contents(), answers, end);
      SyncMeans(s, values, times + [end], storage.Contents(), answers);
    }

    /** One turn of UserActivityStream */
    method ActivityOne(a: Activity, now: Time, ghost s: Store, ghost acts: seq<Activity>,
                       ghost times: seq<Time>, ghost replies: seq<ActivityReply>)
      returns (reply: ActivityReply, ghost times': seq<Time>)
      requires storage.Valid() && |replies| < |acts| && a == acts[|replies|]
      requires ActivityAt(s, acts, times, storage.Contents(), replies)
      modifies storage
      ensures storage.Valid() && fresh(storage.Repr - old(storage.Repr))
      ensures ActivityAt(s, acts, times', storage.Contents(), replies + [reply])
      ensures times' == times + [now] || times' == times + [now] + [now] + [now]
    {
      hide UserObject.Value, UserObject.Reach, Storage.Contents, Storage.Valid, ActivityAt, After;
      ActivityAtNext(s, acts, times, storage.Contents(), replies, now);
      var found := storage.UserExists(a.userId);
      reply, times' := ActivityReply(a.userId, found, now), times + [now];
      if found && a.kind == LOGIN {
        times' := times' + [now] + [now];
        var user, error := storage.GetUser(a.userId);
        if user != null {
          SetLastLogin(user, a.timestamp);
          var failed := storage.UpdateUser(user);
        }
      }
    }

    method UserActivityStream(acts: seq<Activity>, clock: seq<Time>, ghost end: Time)
      returns (replies: seq<ActivityReply>, ghost times: seq<Time>)
      requires storage.Valid() && |clock| == |acts|
      modifies storage
      ensures storage.Valid() && fresh(storage.Repr - old(storage.Repr))
      ensures ActivityDone(old(storage.Contents()), acts, times + [end], storage.Contents(), replies)
      ensures forall t | t in times :: t in clock
      ensures WellKept(old(storage.Contents())) ==>
                && |replies| == |acts|
                && Streams.ActivityMeant(old(storage.Contents()), storage.Contents(), acts, replies, times + [end])
    {
      hide Storage.Contents, Storage.Valid, ActivityAt, ActivityDone, WellKept, Streams.ActivityMeant;
      ghost var s := storage.Contents();
      replies, times := [], [];
      ActivityAtStart(s, acts);
      for i := 0 to |acts|
        invariant storage.Valid() && fresh(storage.Repr - old(storage.Repr)) && |replies| == i
        invariant forall t | t in times :: t in clock
        invariant ActivityAt(s, acts, times, storage.Contents(), replies)
      {
        var reply;
        reply, times := ActivityOne(acts[i], clock[i], s, acts, times, replies);
        replies := replies + [reply];
      }
      ActivityAtEnd(s, acts, times, storage.Contents(), replies, end);
      if WellKept(s) {
        ActivityMeans(s, acts, times + [end], storage.Contents(), replies);
      }
    }

    /** now is the reading of the clock that turns older_than into a cutoff; each user is judged with two
        more. Exactly the users that pass are sent, each once, and NotFound means that there is none. */
    method ListUsers(req: ListRequest, now: Time, clock: Id -> Readings)
      returns (sent: seq<UserObject>, error: Option<Error>, ghost order: seq<Id>)
      requires storage.Valid()
      ensures Enumerates(order, Matching(storage.Contents(), FilterOf(req, now), clock)) && |sent| == |order|
      ensures forall i | 0 <= i < |sent| :: fresh(sent[i].Reach())
      ensures forall i | 0 <= i < |sent| ::
                order[i] in storage.Contents() && sent[i].Value() == Stored(storage.Contents()[order[i]])
      ensures error == if Matching(storage.Contents(), FilterOf(req, now), clock) == {} then Some(NotFound) else None
      ensures ListingInBounds(storage.Contents(), order, req, now, clock)
    {
      hide UserObject.Value, UserObject.Reach, Storage.Contents, Storage.Valid, Passes, ListingInBounds;
      var filter := ListFilter(None, None, None, req.pageSize, req.pageToken);
      if req.createdSince.Some? {
        filter := filter.(createdSince := Some(Unix(req.createdSince.value)));
      }
      if req.olderThan.Some? {
        filter := filter.(olderThan := Some(Cutoff(now, req.olderThan.value)));
      }
      if req.status != INACTIVE {
        filter := filter.(status := Some(req.status));
      }
      BoundsOfMatching(storage.Contents(), req, now, clock);
      sent, order := storage.ListUsers(filter, clock);
      if |sent| == 0 {
        return sent, Some(NotFound), order;
      }
      assert order[0] in Matching(storage.Contents(), filter, clock);
      error := None;
    }

    method ListUsersByRole(role: Int32)
      returns (sent: seq<UserObject>, error: Option<Error>, ghost order: seq<Id>)
      requires storage.Valid()
      ensures Enumerates(order, WithRole(storage.Contents(), role)) && |sent| == |order|
      ensures forall i | 0 <= i < |sent| :: fresh(sent[i].Reach())
      ensures forall i | 0 <= i < |sent| ::
                order[i] in storage.Contents() && sent[i].Value() == Stored(storage.Contents()[order[i]])
      ensures error == if WithRole(storage.Contents(), role) == {} then Some(NotFound) else None
    {
      hide UserObject.Value, UserObject.Reach, Storage.Contents, Storage.Valid;
      sent, order := storage.ListUsersByRole(role);
      if |sent| == 0 {
        return sent, Some(NotFound), order;
      }
      assert order[0] in WithRole(storage.Contents(), role);
      error := None;
    }
  }
}
