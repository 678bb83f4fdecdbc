/** The storage among callers that do as they like with every object they can reach. */
module Isolation {
  import opened Values
  import opened Filters
  import opened StoreSpec
  import opened Objects
  import opened MemoryStorage

  /** Following pointers from objs leads nowhere else */
  ghost predicate Closed(objs: set<object>)
    reads objs
  {
    && (forall u: UserObject | u in objs :: Owned(u, objs))
    && (forall p: ProfileObject | p in objs && p.preferences != null :: p.preferences in objs)
    && (forall a: array<AddressObject?> | a in objs :: forall i | 0 <= i < a.Length && a[i] != null :: a[i] in objs)
  }

  lemma ReachIsClosed(u: UserObject)
    ensures Closed(u.Reach())
  {
  }

  lemma UnionIsClosed(s: set<object>, t: set<object>)
    requires Closed(s) && Closed(t)
    ensures Closed(s + t)
  {
  }

  /** A storage call, with the value of the message that it passes in */
  datatype Op =
    | OpAdd(user: User, now: Time)
    | OpGet(id: Id)
    | OpUpdate(user: User)
    | OpDelete(id: Id)
    | OpList(filter: ListFilter, clock: Readings)
    | OpListByRole(role: Int32)
    | OpExists(id: Id)
    | OpCount

  function RequestOf(op: Op): Request {
    match op
    case OpAdd(user, _) => Add(user)
    case OpGet(id) => Get(id)
    case OpUpdate(user) => Update(user)
    case OpDelete(id) => Delete(id)
    case OpList(filter, clock) => List(filter, clock)
    case OpListByRole(role) => ListByRole(role)
    case OpExists(id) => Exists(id)
    case OpCount => Count
  }

  function TimeOf(op: Op): Time {
    if op.OpAdd? then op.now else 0
  }

  /** The store after a script of calls, by the map of values */
  function FinalStore(s: Store, script: seq<Op>): Store {
    if script == [] then s
    else
      var last := script[|script| - 1];
      After(FinalStore(s, script[..|script| - 1]), RequestOf(last), TimeOf(last))
  }

  /** The replies to a script of calls, by the map of values */
  function Replies(s: Store, script: seq<Op>): seq<Reply> {
    if script == [] then []
    else
      var before := script[..|script| - 1];
      Replies(s, before) + [Answer(FinalStore(s, before), RequestOf(script[|script| - 1]))]
  }

  function MessageOf(op: Op): User {
    match op
    case OpAdd(user, _) => user
    case OpUpdate(user) => user
    case _ => NO_USER
  }

  /** Stands for any code of the callers: it may write every object they can reach, make new ones and
      drop or move pointers between them, and it ends with a message of the given value.
      Its own callers know no more than this contract. */
  method CallersAct(ghost objs: set<object>, value: User) returns (ghost objs': set<object>, message: UserObject)
    requires Closed(objs)
    modifies objs
    ensures objs <= objs' && fresh(objs' - objs) && Closed(objs') && message in objs'
    ensures message.Value() == value
  {
    message := Decode(value);
    ReachIsClosed(message);
    UnionIsClosed(objs, message.Reach());
    objs' := objs + message.Reach();
  }

  /** The two sides share nothing */
  ghost predicate Apart(storage: Storage, callers: set<object>)
    reads storage, storage.Repr, callers
  {
    storage.Valid() && Closed(callers) && storage !in callers && callers !! storage.Repr
  }

  method ServeAdd(storage: Storage, ghost callers: set<object>, message: UserObject, now: Time)
    returns (error: Option<Error>)
    requires Apart(storage, callers) && message in callers
    modifies storage, message`createDate, message`status
    ensures Apart(storage, callers) && fresh(storage.Repr - old(storage.Repr))
    ensures error == ErrorIn(Answer(old(storage.Contents()), Add(old(message.Value()))))
    ensures storage.Contents() == After(old(storage.Contents()), Add(old(message.Value())), now)
  {
    hide UserObject.Reach, UserObject.Value;
    error := storage.AddUser(message, now);
  }

  method ServeUpdate(storage: Storage, ghost callers: set<object>, message: UserObject) returns (error: Option<Error>)
    requires Apart(storage, callers) && message in callers
    modifies storage
    ensures Apart(storage, callers) && fresh(storage.Repr - old(storage.Repr))
    ensures error == ErrorIn(Answer(old(storage.Contents()), Update(old(message.Value()))))
    ensures storage.Contents() == After(old(storage.Contents()), Update(old(message.Value())), 0)
  {
    error := storage.UpdateUser(message);
  }

  method ServeGet(storage: Storage, ghost callers: set<object>, id: Id)
    returns (ghost callers': set<object>, user: UserObject?, error: Option<Error>)
    requires Apart(storage, callers)
    ensures Apart(storage, callers') && callers <= callers' && fresh(callers' - callers)
    ensures storage.Contents() == old(storage.Contents())
    ensures user == null <==> error.Some?
    ensures error == ErrorIn(Answer(storage.Contents(), Get(id)))
    ensures user != null ==> user in callers' && Answer(storage.Contents(), Get(id)) == Found(user.Value())
  {
    callers' := callers;
    user, error := storage.GetUser(id);
    if user != null {
      ReachIsClosed(user);
      UnionIsClosed(callers, user.Reach());
      callers' := callers + user.Reach();
    }
  }

  method ServeDelete(storage: Storage, ghost callers: set<object>, id: Id) returns (error: Option<Error>)
    requires Apart(storage, callers)
    modifies storage
    ensures Apart(storage, callers) && storage.Repr == old(storage.Repr)
    ensures error == ErrorIn(Answer(old(storage.Contents()), Delete(id)))
    ensures storage.Contents() == After(old(storage.Contents()), Delete(id), 0)
  {
    error := storage.DeleteUser(id);
  }

  /** The objects of a listing go over to the callers; reaches[i] is what can be reached from users[i]. */
  lemma HandOver(storage: Storage, callers: set<object>, users: seq<UserObject>, reaches: seq<set<object>>)
    returns (callers': set<object>)
    requires Apart(storage, callers) && |reaches| == |users|
    requires forall i | 0 <= i < |users| ::
               reaches[i] == users[i].Reach() && reaches[i] !! storage.Repr && storage !in reaches[i]
    ensures Apart(storage, callers') && callers <= callers'
    ensures forall i | 0 <= i < |users| :: users[i] in callers'
    ensures callers' == callers + Union(reaches)
  {
    hide UserObject.Value, UserObject.Reach, ProfileObject.Reach, AddressesReach, Storage.Valid, Closed;
    callers' := callers;
    for k := 0 to |users|
      invariant Apart(storage, callers') && callers <= callers'
      invariant forall i | 0 <= i < k :: users[i] in callers'
      invariant callers' == callers + Union(reaches[..k])
    {
      ReachIsClosed(users[k]);
      OwnsItself(users[k]);
      UnionIsClosed(callers', reaches[k]);
      callers' := callers' + reaches[k];
      assert reaches[..k + 1][..k] == reaches[..k];
    }
    assert reaches[..|users|] == reaches;
  }

  function Union(sets: seq<set<object>>): set<object> {
    if sets == [] then {} else Union(sets[..|sets| - 1]) + sets[|sets| - 1]
  }

  lemma ReachesOf(users: seq<UserObject>) returns (reaches: seq<set<object>>)
    ensures |reaches| == |users| && forall i | 0 <= i < |users| :: reaches[i] == users[i].Reach()
  {
    hide UserObject.Reach;
    reaches := [];
    for k := 0 to |users|
      invariant |reaches| == k && forall i | 0 <= i < k :: reaches[i] == users[i].Reach()
    {
      reaches := reaches + [users[k].Reach()];
    }
  }

  lemma {:induction false} InUnion(sets: seq<set<object>>)
    ensures forall o | o in Union(sets) :: exists i :: 0 <= i < |sets| && o in sets[i]
    decreases |sets|
  {
    if sets != [] {
      var init := sets[..|sets| - 1];
      InUnion(init);
      forall o | o in Union(sets) ensures exists i :: 0 <= i < |sets| && o in sets[i] {
        if o in sets[|sets| - 1] {
        } else {
          assert o in Union(init);
          var i :| 0 <= i < |init| && o in init[i];
          assert o in sets[i];
        }
      }
    }
  }

  method ServeList(storage: Storage, ghost callers: set<object>, filter: ListFilter, clock: Readings)
    returns (ghost callers': set<object>, users: seq<UserObject>)
    requires Apart(storage, callers)
    ensures Apart(storage, callers') && callers <= callers' && fresh(callers' - callers)
    ensures storage.Contents() == old(storage.Contents())
    ensures forall i | 0 <= i < |users| :: users[i] in callers'
    ensures Answer(storage.Contents(), List(filter, clock)) == Listed(set i | 0 <= i < |users| :: users[i].Value())
  {
    hide UserObject.Value, UserObject.Reach, ProfileObject.Reach, AddressesReach, Storage.Contents, Passes, Closed;
    ghost var order, reaches;
    users, order := storage.ListUsers(filter, _ => clock);
    MatchingArePassing(storage.Contents(), filter, clock);
    reaches := ReachesOf(users);
    callers' := HandOver(storage, callers, users, reaches);
    InUnion(reaches);
  }

  lemma MatchingArePassing(s: Store, filter: ListFilter, clock: Readings)
    ensures (set id | id in Matching(s, filter, _ => clock) && id in s :: Stored(s[id]))
         == UsersPassing(s, filter, clock)
  {
    hide Passes, Stored;
    assert forall id :: id in Matching(s, filter, _ => clock) <==> id in s && Passes(s[id], filter, clock);
  }

  method ServeListByRole(storage: Storage, ghost callers: set<object>, role: Int32)
    returns (ghost callers': set<object>, users: seq<UserObject>)
    requires Apart(storage, callers)
    ensures Apart(storage, callers') && callers <= callers' && fresh(callers' - callers)
    ensures storage.Contents() == old(storage.Contents())
    ensures forall i | 0 <= i < |users| :: users[i] in callers'
    ensures Answer(storage.Contents(), ListByRole(role)) == Listed(set i | 0 <= i < |users| :: users[i].Value())
  {
    hide UserObject.Value, UserObject.Reach, ProfileObject.Reach, AddressesReach, Storage.Contents, Closed;
    ghost var order, reaches;
    users, order := storage.ListUsersByRole(role);
    WithRoleAreInRole(storage.Contents(), role);
    reaches := ReachesOf(users);
    callers' := HandOver(storage, callers, users, reaches);
    InUnion(reaches);
  }

  lemma WithRoleAreInRole(s: Store, role: Int32)
    ensures (set id | id in WithRole(s, role) && id in s :: Stored(s[id])) == UsersInRole(s, role)
  {
    hide Stored;
    assert forall id :: id in WithRole(s, role) <==> id in s && s[id].role == role;
  }

  /** The callers act, and then one of them makes a storage call with a message of theirs. The reply is what
      the map of values answers, and it is what the objects, the error, the flag and the number returned say. */
  method Turn(storage: Storage, ghost callers: set<object>, op: Op)
    returns (ghost callers': set<object>, users: seq<UserObject>, error: Option<Error>, found: bool, n: nat,
             ghost reply: Reply)
    requires Apart(storage, callers)
    modifies storage, callers
    ensures Apart(storage, callers') && callers <= callers' && fresh(callers' - callers)
    ensures fresh(storage.Repr - old(storage.Repr))
    ensures storage.Contents() == After(old(storage.Contents()), RequestOf(op), TimeOf(op))
    ensures reply == Answer(old(storage.Contents()), RequestOf(op))
    ensures error == ErrorIn(reply)
    ensures reply.Found? ==> |users| == 1 && users[0].Value() == reply.user
    ensures reply.Listed? ==> reply.users == set i | 0 <= i < |users| :: users[i].Value()
    ensures reply.Present? ==> found == reply.found
    ensures reply.Counted? ==> n == reply.n
    ensures forall i | 0 <= i < |users| :: users[i] in callers'
  {
    hide Closed, Storage.Contents, UserObject.Value, UserObject.Reach;
    var message;
    callers', message := CallersAct(callers, MessageOf(op));
    assert Apart(storage, callers') && storage.Contents() == old(storage.Contents());
    reply := Answer(storage.Contents(), RequestOf(op));
    users, error, found, n := [], None, false, 0;
    match op
    case OpAdd(_, now) => error := ServeAdd(storage, callers', message, now);
    case OpGet(id) =>
      var user;
      callers', user, error := ServeGet(storage, callers', id);
      users := if user == null then [] else [user];
    case OpUpdate(_) => error := ServeUpdate(storage, callers', message);
    case OpDelete(id) => error := ServeDelete(storage, callers', id);
    case OpList(filter, clock) => callers', users := ServeList(storage, callers', filter, clock);
    case OpListByRole(role) => callers', users := ServeListByRole(storage, callers', role);
    case OpExists(id) => found := storage.UserExists(id);
    case OpCount => n := storage.Count();
  }

  /** Over every sequence of storage calls, with anything the callers do to their own objects before and
      between them, the storage is the map of the values that were passed in, and every reply is that of the
      map: both are functions of the script alone. No object is ever reachable from both sides. */
  method Interleave(storage: Storage, ghost callers: set<object>, script: seq<Op>)
    returns (ghost callers': set<object>, ghost replies: seq<Reply>)
    requires Apart(storage, callers)
    modifies storage, callers
    ensures Apart(storage, callers')
    ensures storage.Contents() == FinalStore(old(storage.Contents()), script)
    ensures replies == Replies(old(storage.Contents()), script)
  {
    hide Closed, Storage.Contents, UserObject.Value, UserObject.Reach, After, Answer;
    ghost var s := storage.Contents();
    callers', replies := callers, [];
    for i := 0 to |script|
      invariant Apart(storage, callers') && callers <= callers' && fresh(callers' - callers)
      invariant fresh(storage.Repr - old(storage.Repr))
      invariant storage.Contents() == FinalStore(s, script[..i]) && replies == Replies(s, script[..i])
    {
      var users, error, found, n;
      ghost var reply;
      callers', users, error, found, n, reply := Turn(storage, callers', script[i]);
      replies := replies + [reply];
      assert script[..i + 1][..i] == script[..i];
    }
    assert script[..|script|] == script;
  }
}
