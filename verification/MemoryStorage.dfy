/** The in-memory storage over heap objects. Each method holds the lock from start to end. */
module MemoryStorage {
  import opened Values
  import opened Filters
  import opened StoreSpec
  import opened Objects

  /** All that can be reached from u lies in s */
  ghost predicate Owned(u: UserObject, s: set<object>)
    reads u, s
  {
    && u in s
    && (u.profile != null ==> u.profile in s)
    && (u.addresses != null ==> u.addresses in s)
    && u.Reach() <= s
  }

  lemma ReachIsAllocated(u: UserObject)
    ensures allocated(u.Reach())
  {
  }

  lemma OwnsItself(u: UserObject)
    ensures Owned(u, u.Reach())
  {
  }

  lemma UserNotAmongAddresses(u: UserObject, addresses: array?<AddressObject?>)
    ensures u !in AddressesReach(addresses)
  {
    if addresses != null {
      forall i | 0 <= i < addresses.Length && addresses[i] != null ensures addresses[i] as object != u {
      }
    }
  }

  /** Storage.AddUser fills in the caller's message before it takes the copy. */
  method FillDefaults(user: UserObject, now: Time)
    modifies user`createDate, user`status
    ensures user.Value() == WithDefaults(old(user.Value()), now) && user.Reach() == old(user.Reach())
    ensures user.createDate == if old(user.createDate).None? then Some(now) else old(user.createDate)
    ensures user.status == if old(user.status) == 0 then 1 else old(user.status)
  {
    UserNotAmongAddresses(user, user.addresses);
    if user.createDate == None {
      user.createDate := Some(now);
    }
    if user.status == INACTIVE {
      user.status := ACTIVE;
    }
    assert AddressValues(user.addresses) == old(AddressValues(user.addresses));
    hide AddressValues, AddressesReach;
  }

  /** The tests of ListUsers on one user */
  method Skips(user: UserObject, filter: ListFilter, clock: Readings) returns (skip: bool)
    ensures skip <==> !Passes(user.Value(), filter, clock)
  {
    hide AddressValues, AddressesReach;
    if filter.createdSince.Some? {
      var createdSince := FromUnix(filter.createdSince.value);
      if AsTime(user.createDate) < createdSince {
        return true;
      }
    }
    if filter.olderThan.Some? {
      var olderThan := FromUnix(filter.olderThan.value);
      if Since(clock.first, AsTime(user.createDate)) <= Since(clock.second, olderThan) {
        return true;
      }
    }
    return filter.status.Some? && user.status != filter.status.value;
  }

  class Storage {
    var users: map<Id, UserObject>
    ghost var Repr: set<object>

    /** Repr covers all objects that can be reached from the map. */
    ghost predicate Valid()
      reads this, Repr
    {
      this !in Repr && forall id | id in users :: users[id] in Repr && Owned(users[id], Repr)
    }

    ghost function Contents(): Store
      requires Valid()
      reads this, Repr
    {
      map id | id in users :: users[id].Value()
    }

    constructor ()
      ensures Valid() && Contents() == map[] && Repr == {}
    {
      users := map[];
      Repr := {};
    }

    lemma NotAmongAddresses(addresses: array?<AddressObject?>)
      ensures this !in AddressesReach(addresses)
    {
      if addresses != null {
        forall i | 0 <= i < addresses.Length && addresses[i] != null ensures addresses[i] as object != this {
        }
      }
    }

    /** A storage is not part of a message. */
    lemma NotInMessage(u: UserObject)
      ensures this !in u.Reach()
    {
      NotAmongAddresses(u.addresses);
      hide AddressesReach;
    }

    method Install(clone: UserObject)
      requires Valid() && Owned(clone, clone.Reach()) && this !in clone.Reach()
      modifies this
      ensures Valid() && Repr == old(Repr) + clone.Reach()
      ensures Contents() == old(Contents())[clone.id := old(clone.Value())]
    {
      hide UserObject.Value, UserObject.Reach, ProfileObject.Reach, AddressesReach, AddressValues;
      users := users[clone.id := clone];
      Repr := Repr + clone.Reach();
      assert clone.Value() == old(clone.Value()) && clone.Reach() == old(clone.Reach());
      forall id | id in old(users)
        ensures old(users)[id] in Repr && Owned(old(users)[id], Repr) && old(users)[id].Value() == old(Contents())[id]
      {
      }
    }

    /** A copy for a caller, or of a caller's message: it shares nothing with either side. */
    method Copy(user: UserObject) returns (clone: UserObject)
      requires Valid()
      ensures fresh(clone) && fresh(clone.Reach()) && Owned(clone, clone.Reach()) && this !in clone.Reach()
      ensures clone.Value() == Stored(user.Value()) && clone.id == user.id
      ensures Valid() && Contents() == old(Contents()) && user.Value() == old(user.Value())
    {
      hide UserObject.Value, UserObject.Reach, ProfileObject.Reach, AddressesReach, AddressValues;
      clone := CloneUser(user);
      OwnsItself(clone);
      NotInMessage(clone);
      forall id | id in users ensures users[id].Value() == old(Contents())[id] {
      }
    }

    /** Puts a copy of user under its id */
    method Put(user: UserObject)
      requires Valid()
      modifies this
      ensures Valid() && old(Repr) <= Repr && fresh(Repr - old(Repr))
      ensures Contents() == old(Contents())[user.id := Stored(user.Value())]
      ensures user.Value() == old(user.Value())
    {
      ReachIsAllocated(user);
      hide UserObject.Value, UserObject.Reach, ProfileObject.Reach, AddressesReach, AddressValues;
      hide Storage.Valid, Storage.Contents, Owned, Stored;
      NotInMessage(user);
      var clone := Copy(user);
      Install(clone);
    }

    method AddUser(user: UserObject, now: Time) returns (error: Option<Error>)
      requires Valid() && user !in Repr
      modifies this, user`createDate, user`status
      ensures Valid() && old(Repr) <= Repr && fresh(Repr - old(Repr))
      ensures Contents() == After(old(Contents()), Add(old(user.Value())), now)
      ensures error == ErrorIn(Answer(old(Contents()), Add(old(user.Value()))))
      ensures error == if user.id in old(Contents()) then Some(AlreadyExists) else None
      ensures user.Value() == if error.None? then WithDefaults(old(user.Value()), now) else old(user.Value())
      ensures user.Reach() == old(user.Reach())
    {
      hide UserObject.Value, UserObject.Reach, ProfileObject.Reach, AddressesReach, AddressValues;
      if user.id in users {
        return Some(AlreadyExists);
      }
      FillDefaults(user, now);
      assert Contents() == old(Contents());
      hide Storage.Valid, Owned;
      Put(user);
      error := None;
    }

    method GetUser(id: Id) returns (user: UserObject?, error: Option<Error>)
      requires Valid()
      ensures Valid() && Contents() == old(Contents())
      ensures error == ErrorIn(Answer(Contents(), Get(id)))
      ensures error == if id in Contents() then None else Some(NotFound)
      ensures user == null <==> error.Some?
      ensures user != null ==> fresh(user) && fresh(user.Reach()) && Answer(Contents(), Get(id)) == Found(user.Value())
    {
      hide UserObject.Value, UserObject.Reach, ProfileObject.Reach, AddressesReach, AddressValues;
      if id !in users {
        return null, Some(NotFound);
      }
      user := Copy(users[id]);
      error := None;
    }

    method UpdateUser(user: UserObject) returns (error: Option<Error>)
      requires Valid()
      modifies this
      ensures Valid() && old(Repr) <= Repr && fresh(Repr - old(Repr))
      ensures Contents() == After(old(Contents()), Update(user.Value()), 0)
      ensures error == ErrorIn(Answer(old(Contents()), Update(user.Value())))
      ensures error == if user.id in old(Contents()) then None else Some(NotFound)
      ensures user.Value() == old(user.Value())
    {
      hide UserObject.Value, UserObject.Reach, ProfileObject.Reach, AddressesReach, AddressValues;
      if user.id !in users {
        return Some(NotFound);
      }
      Put(user);
      error := None;
    }

    method DeleteUser(id: Id) returns (error: Option<Error>)
      requires Valid()
      modifies this`users
      ensures Valid() && Repr == old(Repr)
      ensures Contents() == After(old(Contents()), Delete(id), 0) == old(Contents()) - {id}
      ensures error == ErrorIn(Answer(old(Contents()), Delete(id)))
      ensures error == if id in old(Contents()) then None else Some(NotFound)
    {
      hide UserObject.Value, UserObject.Reach, ProfileObject.Reach, AddressesReach, AddressValues;
      if id !in users {
        return Some(NotFound);
      }
      users := users - {id};
      error := None;
    }

    method CopyIfPassing(id: Id, filter: ListFilter, clock: Readings) returns (clone: UserObject?)
      requires Valid() && id in users
      ensures Valid() && Contents() == old(Contents())
      ensures clone != null <==> Passes(Contents()[id], filter, clock)
      ensures clone != null ==>
                fresh(clone.Reach()) && allocated(clone.Reach()) && clone.Value() == Stored(Contents()[id])
    {
      hide Passes, UserObject.Value, UserObject.Reach, ProfileObject.Reach, AddressesReach, AddressValues;
      var skip := Skips(users[id], filter, clock);
      if skip {
        return null;
      }
      clone := Copy(users[id]);
    }

    /** The users are visited in any order; clock(id) are the two readings made when id has its turn. */
    method ListUsers(filter: ListFilter, clock: Id -> Readings) returns (result: seq<UserObject>, ghost order: seq<Id>)
      requires Valid()
      ensures Enumerates(order, Matching(Contents(), filter, clock)) && |result| == |order|
      ensures forall i | 0 <= i < |result| :: fresh(result[i].Reach())
      ensures forall i | 0 <= i < |result| ::
                order[i] in Contents() && result[i].Value() == Stored(Contents()[order[i]])
    {
      hide UserObject.Reach, ProfileObject.Reach, AddressesReach, AddressValues, Passes, UserObject.Value;
      result, order := [], [];
      ghost var s := Contents();
      var ids := users.Keys;
      while ids != {}
        invariant ids <= users.Keys && Contents() == s
        invariant |result| == |order|
        invariant forall i, j | 0 <= i < j < |order| :: order[i] != order[j]
        invariant forall id :: id in order <==> id in Matching(s, filter, clock) && id !in ids
        invariant forall i | 0 <= i < |result| :: fresh(result[i].Reach()) && allocated(result[i].Reach())
        invariant forall i | 0 <= i < |result| :: order[i] in s && result[i].Value() == Stored(s[order[i]])
        decreases ids
      {
        var id :| id in ids;
        ids := ids - {id};
        var clone := CopyIfPassing(id, filter, clock(id));
        if clone != null {
          result, order := result + [clone], order + [id];
        }
      }
    }

    method CopyIfInRole(id: Id, role: Int32) returns (clone: UserObject?)
      requires Valid() && id in users
      ensures Valid() && Contents() == old(Contents())
      ensures clone != null <==> Contents()[id].role == role
      ensures clone != null ==>
                fresh(clone.Reach()) && allocated(clone.Reach()) && clone.Value() == Stored(Contents()[id])
    {
      hide UserObject.Reach, ProfileObject.Reach, AddressesReach, AddressValues;
      if users[id].role != role {
        return null;
      }
      clone := Copy(users[id]);
    }

    method ListUsersByRole(role: Int32) returns (result: seq<UserObject>, ghost order: seq<Id>)
      requires Valid()
      ensures Enumerates(order, WithRole(Contents(), role)) && |result| == |order|
      ensures forall i | 0 <= i < |result| :: fresh(result[i].Reach())
      ensures forall i | 0 <= i < |result| ::
                order[i] in Contents() && result[i].Value() == Stored(Contents()[order[i]])
    {
      hide UserObject.Value, UserObject.Reach, ProfileObject.Reach, AddressesReach, AddressValues;
      result, order := [], [];
      ghost var s := Contents();
      var ids := users.Keys;
      while ids != {}
        invariant ids <= users.Keys && Contents() == s
        invariant |result| == |order|
        invariant forall i, j | 0 <= i < j < |order| :: order[i] != order[j]
        invariant forall id :: id in order <==> id in WithRole(s, role) && id !in ids
        invariant forall i | 0 <= i < |result| :: fresh(result[i].Reach()) && allocated(result[i].Reach())
        invariant forall i | 0 <= i < |result| :: order[i] in s && result[i].Value() == Stored(s[order[i]])
        decreases ids
      {
        var id :| id in ids;
        ids := ids - {id};
        var clone := CopyIfInRole(id, role);
        if clone != null {
          result, order := result + [clone], order + [id];
        }
      }
    }

    function UserExists(id: Id): (found: bool)
      requires Valid()
      reads this, Repr
      ensures found <==> id in Contents()
    {
      id in users
    }

    function Count(): (n: nat)
      requires Valid()
      reads this, Repr
      ensures n == |Contents()|
    {
      assert Contents().Keys == users.Keys;
      assert |Contents()| == |Contents().Keys| == |users.Keys| == |users|;
      |users|
    }
  }
}
