/** The messages as the objects the storage shares with its callers, and the copies it takes of them.
    Timestamps are values here: a copy shares them, and no one writes them. */
module Objects {
  import opened Values

  class StringMap {
    var entries: map<string, string>

    constructor ()
      ensures entries == map[]
    {
      entries := map[];
    }
  }

  class IntMap {
    var entries: map<string, int>

    constructor ()
      ensures entries == map[]
    {
      entries := map[];
    }
  }

  class AddressObject {
    var kind: Int32
    var street: string
    var city: string
    var state: string
    var postalCode: string
    var country: string
    var isPrimary: bool

    constructor (kind: Int32, street: string, city: string, state: string,
                 postalCode: string, country: string, isPrimary: bool)
      ensures Value() == Address(kind, street, city, state, postalCode, country, isPrimary)
    {
      this.kind, this.street, this.city, this.state := kind, street, city, state;
      this.postalCode, this.country, this.isPrimary := postalCode, country, isPrimary;
    }

    ghost function Value(): Address
      reads this
    {
      Address(kind, street, city, state, postalCode, country, isPrimary)
    }
  }

  class ProfileObject {
    var displayName: string
    var bio: string
    var avatarUrl: string
    var dateOfBirth: Option<Time>
    var preferences: IntMap?

    constructor (displayName: string, bio: string, avatarUrl: string, dateOfBirth: Option<Time>, preferences: IntMap?)
      ensures this.displayName == displayName && this.bio == bio && this.avatarUrl == avatarUrl
      ensures this.dateOfBirth == dateOfBirth && this.preferences == preferences
    {
      this.displayName, this.bio, this.avatarUrl := displayName, bio, avatarUrl;
      this.dateOfBirth, this.preferences := dateOfBirth, preferences;
    }

    /** The objects that can be reached from this one */
    ghost function Reach(): set<object>
      reads this
    {
      {this} + (if preferences == null then {} else {preferences})
    }

    ghost function Value(): Profile
      reads this, preferences
    {
      Profile(displayName, bio, avatarUrl, dateOfBirth, if preferences == null then map[] else preferences.entries)
    }
  }

  ghost function AddressesReach(addresses: array?<AddressObject?>): set<object>
    reads addresses
  {
    if addresses == null then {}
    else {addresses} + set i | 0 <= i < addresses.Length && addresses[i] != null :: addresses[i]
  }

  ghost function AddressValue(a: AddressObject?): Option<Address>
    reads a
  {
    if a == null then None else Some(a.Value())
  }

  ghost function AddressValues(addresses: array?<AddressObject?>): seq<Option<Address>>
    reads addresses, AddressesReach(addresses)
  {
    if addresses == null then []
    else seq(addresses.Length, i requires 0 <= i < addresses.Length reads addresses, AddressesReach(addresses) =>
               AddressValue(addresses[i]))
  }

  ghost function OptionalProfile(profile: ProfileObject?): Option<Profile>
    reads profile, if profile == null then {} else profile.Reach()
  {
    if profile == null then None else Some(profile.Value())
  }

  ghost function OptionalEntries(m: StringMap?): map<string, string>
    reads m
  {
    if m == null then map[] else m.entries
  }

  class UserObject {
    var id: Id
    var role: Int32
    var createDate: Option<Time>
    var username: string
    var email: string
    var phone: string
    var profile: ProfileObject?
    var tags: array?<string>
    var metadata: StringMap?
    var status: Int32
    var lastLogin: Option<Time>
    var addresses: array?<AddressObject?>

    constructor (id: Id, role: Int32, createDate: Option<Time>, username: string, profile: ProfileObject?,
                 tags: array?<string>, metadata: StringMap?, status: Int32, lastLogin: Option<Time>,
                 addresses: array?<AddressObject?>)
      ensures this.id == id && this.role == role && this.createDate == createDate && this.username == username
      ensures this.email == "" && this.phone == "" && this.profile == profile && this.tags == tags
      ensures this.metadata == metadata && this.status == status && this.lastLogin == lastLogin
      ensures this.addresses == addresses
    {
      this.id, this.role, this.createDate, this.username := id, role, createDate, username;
      this.email, this.phone, this.profile, this.tags := "", "", profile, tags;
      this.metadata, this.status, this.lastLogin, this.addresses := metadata, status, lastLogin, addresses;
    }

    ghost function Reach(): set<object>
      reads this, profile, addresses
    {
      {this}
      + (if profile == null then {} else profile.Reach())
      + (if tags == null then {} else {tags})
      + (if metadata == null then {} else {metadata})
      + AddressesReach(addresses)
    }

    ghost function Value(): (value: User)
      reads this, profile, addresses, Reach()
      ensures value.id == id
    {
      User(id, role, createDate, username, email, phone,
           OptionalProfile(profile),
           if tags == null then [] else tags[..],
           OptionalEntries(metadata),
           status, lastLogin, AddressValues(addresses))
    }
  }

  method CloneMap(m: StringMap?) returns (result: StringMap?)
    ensures m == null <==> result == null
    ensures m != null ==> fresh(result) && result.entries == m.entries
  {
    if m == null {
      return null;
    }
    result := new StringMap();
    var keys := m.entries.Keys;
    while keys != {}
      invariant keys <= m.entries.Keys
      invariant result.entries == map k | k in m.entries && k !in keys :: m.entries[k]
      decreases keys
    {
      var k :| k in keys;
      result.entries := result.entries[k := m.entries[k]];
      keys := keys - {k};
    }
  }

  method CloneIntMap(m: IntMap?) returns (result: IntMap?)
    ensures m == null <==> result == null
    ensures m != null ==> fresh(result) && result.entries == m.entries
  {
    if m == null {
      return null;
    }
    result := new IntMap();
    var keys := m.entries.Keys;
    while keys != {}
      invariant keys <= m.entries.Keys
      invariant result.entries == map k | k in m.entries && k !in keys :: m.entries[k]
      decreases keys
    {
      var k :| k in keys;
      result.entries := result.entries[k := m.entries[k]];
      keys := keys - {k};
    }
  }

  method CloneProfile(profile: ProfileObject?) returns (result: ProfileObject?)
    ensures profile == null <==> result == null
    ensures profile != null ==> fresh(result.Reach()) && result.Value() == profile.Value()
  {
    if profile == null {
      return null;
    }
    var preferences := CloneIntMap(profile.preferences);
    result := new ProfileObject(profile.displayName, profile.bio, profile.avatarUrl, profile.dateOfBirth, preferences);
  }

  method CloneTags(tags: array?<string>) returns (result: array<string>)
    ensures fresh(result)
    ensures result[..] == if tags == null then [] else tags[..]
  {
    if tags == null {
      result := new string[0];
    } else {
      result := new string[tags.Length];
      for i := 0 to tags.Length
        invariant result[..i] == tags[..i]
      {
        result[i] := tags[i];
      }
      assert result[..] == result[..tags.Length] && tags[..] == tags[..tags.Length];
    }
  }

  method CloneAddresses(addresses: array?<AddressObject?>) returns (result: array?<AddressObject?>)
    ensures addresses == null <==> result == null
    ensures fresh(AddressesReach(result)) && AddressValues(result) == AddressValues(addresses)
  {
    if addresses == null {
      return null;
    }
    result := new AddressObject?[addresses.Length](_ => null);
    for i := 0 to addresses.Length
      invariant fresh(result) && result.Length == addresses.Length
      invariant forall k | 0 <= k < i :: result[k] == null <==> addresses[k] == null
      invariant forall k | 0 <= k < i && result[k] != null ::
                  fresh(result[k]) && result[k].Value() == addresses[k].Value()
      invariant forall k | i <= k < addresses.Length :: result[k] == null
    {
      var addr := addresses[i];
      if addr != null {
        result[i] := new AddressObject(addr.kind, addr.street, addr.city, addr.state,
                                       addr.postalCode, addr.country, addr.isPrimary);
      }
    }
    assert AddressValues(result) == AddressValues(addresses);
  }

  ghost function Parts(profile: ProfileObject?, tags: array<string>, metadata: StringMap?,
                       addresses: array?<AddressObject?>): set<object>
    reads profile, addresses
  {
    (if profile == null then {} else profile.Reach()) + {tags}
    + (if metadata == null then {} else {metadata}) + AddressesReach(addresses)
  }

  method CloneParts(user: UserObject)
    returns (profile: ProfileObject?, tags: array<string>, metadata: StringMap?, addresses: array?<AddressObject?>)
    ensures fresh(Parts(profile, tags, metadata, addresses))
    ensures OptionalProfile(profile) == user.Value().profile && tags[..] == user.Value().tags
    ensures OptionalEntries(metadata) == user.Value().metadata && AddressValues(addresses) == user.Value().addresses
    ensures user.Value() == old(user.Value())
  {
    ghost var value := user.Value();
    profile := CloneProfile(user.profile);
    assert OptionalProfile(profile) == value.profile;
    tags := CloneTags(user.tags);
    metadata := CloneMap(user.metadata);
    assert OptionalEntries(metadata) == value.metadata;
    addresses := CloneAddresses(user.addresses);
    assert OptionalProfile(user.profile) == value.profile;
    assert AddressValues(user.addresses) == value.addresses;
    hide AddressValues, AddressValue, OptionalEntries, OptionalProfile;
  }

  /** The copy shares no object with the original, and is its stored value: without email and phone. */
  method CloneUser(user: UserObject?) returns (clone: UserObject?)
    ensures user == null <==> clone == null
    ensures user != null ==> fresh(clone.Reach()) && clone.Value() == Stored(user.Value())
    ensures user != null ==> user.Value() == old(user.Value())
  {
    if user == null {
      return null;
    }
    ghost var value := user.Value();
    var profile, tags, metadata, addresses := CloneParts(user);
    clone := new UserObject(user.id, user.role, user.createDate, user.username, profile, tags, metadata,
                            user.status, user.lastLogin, addresses);
    assert OptionalProfile(clone.profile) == value.profile && AddressValues(clone.addresses) == value.addresses;
    assert clone.Reach() == {clone} + Parts(profile, tags, metadata, addresses);
    assert OptionalProfile(user.profile) == value.profile && AddressValues(user.addresses) == value.addresses;
    hide UserObject.Reach, AddressesReach, ProfileObject.Reach, AddressValues, OptionalProfile, OptionalEntries;
  }

  method DecodeProfile(value: Option<Profile>) returns (profile: ProfileObject?)
    ensures profile != null ==> fresh(profile.Reach())
    ensures OptionalProfile(profile) == value
  {
    if value.None? {
      return null;
    }
    var p := value.value;
    var preferences := new IntMap();
    preferences.entries := p.preferences;
    profile := new ProfileObject(p.displayName, p.bio, p.avatarUrl, p.dateOfBirth, preferences);
  }

  method DecodeAddresses(values: seq<Option<Address>>) returns (addresses: array<AddressObject?>)
    ensures fresh(AddressesReach(addresses)) && AddressValues(addresses) == values
  {
    addresses := new AddressObject?[|values|](_ => null);
    for i := 0 to |values|
      invariant fresh(addresses) && addresses.Length == |values|
      invariant forall k | 0 <= k < i && addresses[k] != null :: fresh(addresses[k])
      invariant forall k | 0 <= k < i :: AddressValue(addresses[k]) == values[k]
      invariant forall k | i <= k < |values| :: addresses[k] == null
    {
      if values[i].Some? {
        var a := values[i].value;
        addresses[i] := new AddressObject(a.kind, a.street, a.city, a.state, a.postalCode, a.country, a.isPrimary);
      }
    }
  }

  method DecodeParts(value: User)
    returns (profile: ProfileObject?, tags: array<string>, metadata: StringMap, addresses: array<AddressObject?>)
    ensures fresh(Parts(profile, tags, metadata, addresses))
    ensures OptionalProfile(profile) == value.profile && tags[..] == value.tags
    ensures OptionalEntries(metadata) == value.metadata && AddressValues(addresses) == value.addresses
  {
    profile := DecodeProfile(value.profile);
    tags := new string[|value.tags|](i requires 0 <= i < |value.tags| => value.tags[i]);
    metadata := new StringMap();
    metadata.entries := value.metadata;
    addresses := DecodeAddresses(value.addresses);
    assert OptionalProfile(profile) == value.profile;
    hide AddressValues, AddressValue, OptionalProfile;
  }

  method SetContact(user: UserObject, email: string, phone: string)
    modifies user`email, user`phone
    ensures user.Value() == old(user.Value()).(email := email, phone := phone) && user.Reach() == old(user.Reach())
  {
    assert AddressesReach(user.addresses) == old(AddressesReach(user.addresses));
    assert user !in AddressesReach(user.addresses) by {
      if user.addresses != null {
        forall i | 0 <= i < user.addresses.Length && user.addresses[i] != null
          ensures user.addresses[i] as object != user
        {
        }
      }
    }
    hide AddressesReach, AddressValue, AddressValues;
    user.email, user.phone := email, phone;
  }

  /** A message as it is received: new objects with the given value */
  method Decode(value: User) returns (user: UserObject)
    ensures fresh(user.Reach()) && user.Value() == value
  {
    var profile, tags, metadata, addresses := DecodeParts(value);
    user := new UserObject(value.id, value.role, value.createDate, value.username, profile, tags, metadata,
                           value.status, value.lastLogin, addresses);
    assert OptionalProfile(user.profile) == value.profile && AddressValues(user.addresses) == value.addresses;
    assert user.Reach() == {user} + Parts(profile, tags, metadata, addresses);
    hide UserObject.Reach, UserObject.Value, AddressesReach, ProfileObject.Reach, AddressValues, OptionalProfile;
    SetContact(user, value.email, value.phone);
  }
}
