/** The messages of the user service as values, and the fixed-width arithmetic the source relies on.
    A nil slice or map and an empty one are the same value, as they are on the wire;
    a missing message (a nil pointer) is None. */
module Values {
  datatype Option<+T> = None | Some(value: T)

  datatype Result<+T, +E> = Success(value: T) | Failure(error: E)

  /** uint32 */
  type Id = x: int | 0 <= x <= 0xFFFF_FFFF

  /** int32; proto3 enums are open, so an enum field may hold any of them */
  type Int32 = x: int | -0x8000_0000 <= x <= 0x7FFF_FFFF

  /** Nanoseconds since the Unix epoch */
  type Time = int

  const ADMIN: Int32 := 2
  const INACTIVE: Int32 := 0
  const ACTIVE: Int32 := 1
  const LOGIN: Int32 := 0

  const MIN_INT64 := -0x8000_0000_0000_0000
  const MAX_INT64 := 0x7FFF_FFFF_FFFF_FFFF
  const TWO_TO_THE_32 := 0x1_0000_0000
  const TWO_TO_THE_64 := 0x1_0000_0000_0000_0000

  /** Two's complement wrap-around of int32 addition */
  function Wrap32(x: int): Int32 {
    (x + 0x8000_0000) % TWO_TO_THE_32 - 0x8000_0000
  }

  predicate FitsInt64(x: int) {
    MIN_INT64 <= x <= MAX_INT64
  }

  /** Two's complement wrap-around of int64 arithmetic */
  function Wrap64(x: int): (r: int)
    ensures FitsInt64(r)
    ensures FitsInt64(x) ==> r == x
  {
    (x + 0x8000_0000_0000_0000) % TWO_TO_THE_64 - 0x8000_0000_0000_0000
  }

  datatype Address = Address(kind: Int32, street: string, city: string, state: string,
                             postalCode: string, country: string, isPrimary: bool)

  datatype Profile = Profile(displayName: string, bio: string, avatarUrl: string,
                             dateOfBirth: Option<Time>, preferences: map<string, int>)

  datatype User = User(id: Id, role: Int32, createDate: Option<Time>, username: string,
                       email: string, phone: string, profile: Option<Profile>,
                       tags: seq<string>, metadata: map<string, string>, status: Int32,
                       lastLogin: Option<Time>, addresses: seq<Option<Address>>)

  /** The message with every field at its default */
  const NO_USER := User(0, 0, None, "", "", "", None, [], map[], 0, None, [])

  datatype Activity = Activity(userId: Id, kind: Int32, timestamp: Option<Time>)

  datatype Error =
    | NotFound
    | AlreadyExists
    | FirstUserNotAdmin
    | IdIsZero
    | UsernameEmpty
    | UserMissing
    | CannotUpdateId
    | InvalidPath(path: string)
    | Internal

  /** What the storage keeps of a user: the copy it takes leaves out email and phone. */
  function Stored(u: User): User {
    u.(email := "", phone := "")
  }

  /** What AddUser writes into the message it is given before it copies it. */
  function WithDefaults(u: User, now: Time): User {
    u.(createDate := if u.createDate.None? then Some(now) else u.createDate,
       status := if u.status == INACTIVE then ACTIVE else u.status)
  }

  /** The time of a timestamp message; that of a missing one is the epoch. */
  function AsTime(t: Option<Time>): Time {
    match t
    case None => 0
    case Some(v) => v
  }

  ghost predicate NoRepeats<T>(s: seq<T>) {
    forall i, j | 0 <= i < j < |s| :: s[i] != s[j]
  }
}
