/** The storage interface over a map of values: what each call answers and what it writes. */
module StoreSpec {
  import opened Values
  import opened Filters

  type Store = map<Id, User>

  datatype Request =
    | Count
    | Add(user: User)
    | Get(id: Id)
    | Update(user: User)
    | Delete(id: Id)
    | Exists(id: Id)
    | List(filter: ListFilter, clock: Readings)
    | ListByRole(role: Int32)
    | Nothing

  datatype Reply =
    | Counted(n: nat)
    | Ok
    | Found(user: User)
    | Present(found: bool)
    | Listed(users: set<User>)
    | Failed(error: Error)

  datatype Write = Inserted(user: User) | Replaced(user: User) | Removed(id: Id)

  function Effect(s: Store, req: Request, now: Time): Option<Write> {
    match req
    case Add(u) => if u.id in s then None else Some(Inserted(Stored(WithDefaults(u, now))))
    case Update(u) => if u.id in s then Some(Replaced(Stored(u))) else None
    case Delete(id) => if id in s then Some(Removed(id)) else None
    case _ => None
  }

  function Apply(s: Store, w: Write): Store {
    match w
    case Inserted(u) => s[u.id := u]
    case Replaced(u) => s[u.id := u]
    case Removed(id) => s - {id}
  }

  function After(s: Store, req: Request, now: Time): Store {
    match Effect(s, req, now)
    case None => s
    case Some(w) => Apply(s, w)
  }

  function UsersPassing(s: Store, f: ListFilter, clock: Readings): set<User> {
    set id | id in s && Passes(s[id], f, clock) :: Stored(s[id])
  }

  function UsersInRole(s: Store, role: Int32): set<User> {
    set id | id in s && s[id].role == role :: Stored(s[id])
  }

  function Answer(s: Store, req: Request): Reply {
    match req
    case Count => Counted(|s|)
    case Add(u) => if u.id in s then Failed(AlreadyExists) else Ok
    case Get(id) => if id in s then Found(Stored(s[id])) else Failed(NotFound)
    case Update(u) => if u.id in s then Ok else Failed(NotFound)
    case Delete(id) => if id in s then Ok else Failed(NotFound)
    case Exists(id) => Present(id in s)
    case List(f, clock) => Listed(UsersPassing(s, f, clock))
    case ListByRole(role) => Listed(UsersInRole(s, role))
    case Nothing => Ok
  }

  /** The error of a reply, as a storage method returns it */
  function ErrorIn(reply: Reply): Option<Error> {
    if reply.Failed? then Some(reply.error) else None
  }

  /** Every user sits under its own id, which is not 0, and is its own stored copy. */
  ghost predicate WellKept(s: Store) {
    forall id | id in s :: s[id].id == id && id != 0 && Stored(s[id]) == s[id]
  }

  /** The storage's copies lose contact data: a user added and read back is the one sent
      exactly when it had neither email nor phone (and came with its defaults filled in). */
  lemma ReadBack(s: Store, u: User, now: Time)
    requires u.id !in s
    ensures Answer(After(s, Add(u), now), Get(u.id)) == Found(u) <==>
              u.email == "" && u.phone == "" && u.createDate.Some? && u.status != INACTIVE
  {
    var kept := Stored(WithDefaults(u, now));
    assert After(s, Add(u), now)[u.id] == kept && Stored(kept) == kept;
    if u.email == "" && u.phone == "" && u.createDate.Some? && u.status != INACTIVE {
      assert kept == u;
    } else {
      assert kept != u;
    }
  }

  /** What AddUser keeps of a new user, field by field: now stands in for a missing create date and ACTIVE (1) for
      INACTIVE (0), email and phone are dropped, and the rest is the message's. */
  lemma AddKeeps(s: Store, u: User, now: Time)
    requires u.id !in s
    ensures Answer(s, Add(u)) == Ok
    ensures var s' := After(s, Add(u), now);
            && s'.Keys == s.Keys + {u.id} && forall id | id in s :: s'[id] == s[id]
    ensures u.id in After(s, Add(u), now)
    ensures var kept := After(s, Add(u), now)[u.id];
            && kept.id == u.id && kept.role == u.role && kept.username == u.username
            && kept.createDate == (if u.createDate.None? then Some(now) else u.createDate)
            && kept.status == (if u.status == 0 then 1 else u.status)
            && kept.email == "" && kept.phone == ""
            && kept.profile == u.profile && kept.tags == u.tags && kept.metadata == u.metadata
            && kept.lastLogin == u.lastLogin && kept.addresses == u.addresses
  {
    assert After(s, Add(u), now) == s[u.id := Stored(WithDefaults(u, now))];
  }

  /** What UpdateUser keeps: the message without email and phone, whatever was there, its date included. */
  lemma UpdateKeeps(s: Store, u: User, now: Time)
    requires u.id in s
    ensures Answer(s, Update(u)) == Ok
    ensures var s' := After(s, Update(u), now);
            && s'.Keys == s.Keys && (forall id | id in s && id != u.id :: s'[id] == s[id])
            && s'[u.id] == u.(email := "", phone := "")
  {
  }

  /** What a caller sees of a user */
  function Seen(s: Store, id: Id): Option<User> {
    match Answer(s, Get(id))
    case Found(u) => Some(u)
    case _ => None
  }

  /** GetUser tells all: every other call answers by what GetUser would say of each id. */
  lemma GetTellsAll(s: Store, id: Id, u: User, role: Int32)
    requires WellKept(s)
    ensures Seen(s, id).None? ==> Answer(s, Get(id)) == Failed(NotFound)
    ensures Seen(s, id).Some? ==> Seen(s, id).value.id == id
    ensures Answer(s, Exists(id)) == Present(Seen(s, id).Some?)
    ensures Answer(s, Delete(id)) == if Seen(s, id).Some? then Ok else Failed(NotFound)
    ensures Answer(s, Update(u)) == if Seen(s, u.id).Some? then Ok else Failed(NotFound)
    ensures Answer(s, Add(u)) == if Seen(s, u.id).Some? then Failed(AlreadyExists) else Ok
    ensures Answer(s, Count) == Counted(|set i: Id | Seen(s, i).Some?|)
    ensures Answer(s, ListByRole(role)) ==
            Listed(set i: Id | Seen(s, i).Some? && Seen(s, i).value.role == role :: Seen(s, i).value)
  {
    assert s.Keys == set i: Id | Seen(s, i).Some?;
    assert UsersInRole(s, role) == set i: Id | Seen(s, i).Some? && Seen(s, i).value.role == role :: Seen(s, i).value;
  }

  /** What the calls that write do to what GetUser says: of their own user, and of any other. */
  lemma WritesShow(s: Store, u: User, id: Id, other: Id, now: Time)
    requires WellKept(s)
    ensures Seen(s, u.id).None? ==> Seen(After(s, Add(u), now), u.id) == Some(Stored(WithDefaults(u, now)))
    ensures Seen(s, u.id).Some? ==> Seen(After(s, Update(u), now), u.id) == Some(Stored(u))
    ensures Seen(After(s, Delete(id), now), id) == None
    ensures other != u.id ==> Seen(After(s, Add(u), now), other) == Seen(After(s, Update(u), now), other)
                              == Seen(s, other)
    ensures other != id ==> Seen(After(s, Delete(id), now), other) == Seen(s, other)
    ensures Seen(s, u.id).Some? ==> After(s, Add(u), now) == s
    ensures Seen(s, u.id).None? ==> After(s, Update(u), now) == s
  {
  }

  /** A delete undoes an add: of a user who was not there, nothing remains, and adding once more is possible. */
  lemma DeleteUndoesAdd(s: Store, u: User, now: Time, later: Time)
    requires u.id !in s
    ensures After(After(s, Add(u), now), Delete(u.id), later) == s
    ensures Answer(After(s, Add(u), now), Delete(u.id)) == Ok
  {
    assert After(s, Add(u), now).Keys == s.Keys + {u.id};
  }

  function Matching(s: Store, filter: ListFilter, clock: Id -> Readings): set<Id> {
    set id | id in s && Passes(s[id], filter, clock(id))
  }

  /** order names each id of ids once, and no other */
  ghost predicate Enumerates(order: seq<Id>, ids: set<Id>) {
    && NoRepeats(order)
    && (forall id :: id in ids <==> id in order)
  }

  lemma {:induction false} EnumerationSize(order: seq<Id>, ids: set<Id>)
    requires Enumerates(order, ids)
    ensures |order| == |ids|
  {
    if order == [] {
      assert ids == {};
    } else {
      var last := order[|order| - 1];
      assert forall id :: id in ids - {last} <==> id in order[..|order| - 1];
      EnumerationSize(order[..|order| - 1], ids - {last});
    }
  }

  function WithRole(s: Store, role: Int32): set<Id> {
    set id | id in s && s[id].role == role
  }

  function WithRoles(s: Store, roles: seq<Int32>): set<Id> {
    set id | id in s && s[id].role in roles
  }

  function SumOfSizes(s: Store, roles: seq<Int32>): nat {
    if roles == [] then 0 else |WithRole(s, roles[0])| + SumOfSizes(s, roles[1..])
  }

  /** Listings by distinct roles are disjoint, and their sizes add up to the number of users with one of
      those roles. That is Count exactly when every user has one of them: the role field may hold
      a number without a name, and then the four named roles do not cover the store. */
  lemma {:induction false} RolesPartition(s: Store, roles: seq<Int32>)
    requires NoRepeats(roles)
    ensures forall i, j | 0 <= i < j < |roles| :: WithRole(s, roles[i]) !! WithRole(s, roles[j])
    ensures SumOfSizes(s, roles) == |WithRoles(s, roles)|
    ensures SumOfSizes(s, roles) == |s| <==> forall id | id in s :: s[id].role in roles
  {
    SizesAddUp(s, roles);
    var covered := WithRoles(s, roles);
    assert covered <= s.Keys;
    if exists id :: id in s && s[id].role !in roles {
      var id :| id in s && s[id].role !in roles;
      assert id in s.Keys && id !in covered;
      assert covered <= s.Keys - {id};
      SubsetSize(covered, s.Keys - {id});
      assert |s.Keys - {id}| == |s| - 1;
    } else {
      assert covered == s.Keys;
      assert |covered| == |s.Keys|;
    }
  }

  function SumOfLengths(orders: seq<seq<Id>>): nat {
    if orders == [] then 0 else |orders[0]| + SumOfLengths(orders[1..])
  }

  lemma {:induction false} LengthsAreSizes(s: Store, roles: seq<Int32>, orders: seq<seq<Id>>)
    requires |orders| == |roles| && forall i | 0 <= i < |roles| :: Enumerates(orders[i], WithRole(s, roles[i]))
    ensures SumOfLengths(orders) == SumOfSizes(s, roles)
  {
    hide Enumerates, WithRole;
    if roles != [] {
      EnumerationSize(orders[0], WithRole(s, roles[0]));
      LengthsAreSizes(s, roles[1..], orders[1..]);
    }
  }

  /** The listings that ListUsersByRole returns for distinct roles are as long together as the store is large
      exactly when every stored role is among them. */
  lemma ListingsAddUp(s: Store, roles: seq<Int32>, orders: seq<seq<Id>>)
    requires NoRepeats(roles)
    requires |orders| == |roles| && forall i | 0 <= i < |roles| :: Enumerates(orders[i], WithRole(s, roles[i]))
    ensures SumOfLengths(orders) == |s| <==> forall id | id in s :: s[id].role in roles
  {
    LengthsAreSizes(s, roles, orders);
    RolesPartition(s, roles);
  }

  lemma {:induction false} SizesAddUp(s: Store, roles: seq<Int32>)
    requires NoRepeats(roles)
    ensures SumOfSizes(s, roles) == |WithRoles(s, roles)|
  {
    if roles == [] {
      assert WithRoles(s, roles) == {};
    } else {
      SizesAddUp(s, roles[1..]);
      assert WithRoles(s, roles) == WithRole(s, roles[0]) + WithRoles(s, roles[1..]);
      assert WithRole(s, roles[0]) !! WithRoles(s, roles[1..]);
    }
  }

  lemma {:induction false} SubsetSize<T>(a: set<T>, b: set<T>)
    requires a <= b
    ensures |a| <= |b|
  {
    assert b == a + (b - a);
  }
}
