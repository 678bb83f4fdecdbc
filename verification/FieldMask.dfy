/** The field mask of UpdateUser. */
module FieldMask {
  import opened Values

  datatype Field = Role | Username | Email | Phone | Profile | Tags | Metadata | Status | LastLogin | Addresses

  const ALL_FIELDS: set<Field> :=
    {Role, Username, Email, Phone, Field.Profile, Tags, Metadata, Status, LastLogin, Addresses}

  function FieldName(f: Field): string {
    match f
    case Role => "role"
    case Username => "username"
    case Email => "email"
    case Phone => "phone"
    case Profile => "profile"
    case Tags => "tags"
    case Metadata => "metadata"
    case Status => "status"
    case LastLogin => "last_login"
    case Addresses => "addresses"
  }

  /** The switch over path names; None is its default branch. */
  function FieldOf(path: string): Option<Field> {
    if path == "role" then Some(Role)
    else if path == "username" then Some(Username)
    else if path == "email" then Some(Email)
    else if path == "phone" then Some(Phone)
    else if path == "profile" then Some(Field.Profile)
    else if path == "tags" then Some(Tags)
    else if path == "metadata" then Some(Metadata)
    else if path == "status" then Some(Status)
    else if path == "last_login" then Some(LastLogin)
    else if path == "addresses" then Some(Addresses)
    else None
  }

  function SetField(u: User, req: User, f: Field): User {
    match f
    case Role => u.(role := req.role)
    case Username => u.(username := req.username)
    case Email => u.(email := req.email)
    case Phone => u.(phone := req.phone)
    case Profile => u.(profile := req.profile)
    case Tags => u.(tags := req.tags)
    case Metadata => u.(metadata := req.metadata)
    case Status => u.(status := req.status)
    case LastLogin => u.(lastLogin := req.lastLogin)
    case Addresses => u.(addresses := req.addresses)
  }

  function PathError(path: string): Error {
    if path == "id" then CannotUpdateId else InvalidPath(path)
  }

  /** The loop over a mask's paths, which stops at the first one it does not know. */
  function ApplyPaths(u: User, req: User, paths: seq<string>): Result<User, Error>
    decreases |paths|
  {
    if paths == [] then Success(u)
    else
      match FieldOf(paths[0])
      case None => Failure(PathError(paths[0]))
      case Some(f) => ApplyPaths(SetField(u, req, f), req, paths[1..])
  }

  /** A missing or empty mask replaces every field but id and create date. */
  function Edited(u: User, req: User, mask: seq<string>): Result<User, Error> {
    if mask == [] then Success(Merged(u, req, ALL_FIELDS)) else ApplyPaths(u, req, mask)
  }

  /** The meaning of a set of fields: those in it come from the request, all others from the old user. */
  function Merged(u: User, req: User, fields: set<Field>): User {
    User(u.id,
         if Role in fields then req.role else u.role,
         u.createDate,
         if Username in fields then req.username else u.username,
         if Email in fields then req.email else u.email,
         if Phone in fields then req.phone else u.phone,
         if Field.Profile in fields then req.profile else u.profile,
         if Tags in fields then req.tags else u.tags,
         if Metadata in fields then req.metadata else u.metadata,
         if Status in fields then req.status else u.status,
         if LastLogin in fields then req.lastLogin else u.lastLogin,
         if Addresses in fields then req.addresses else u.addresses)
  }

  predicate Known(paths: seq<string>) {
    forall p | p in paths :: FieldOf(p).Some?
  }

  function PathFields(paths: seq<string>): set<Field> {
    set p | p in paths && FieldOf(p).Some? :: FieldOf(p).value
  }

  /** The fields that a mask names; the empty mask names them all. */
  function Named(mask: seq<string>): set<Field> {
    if mask == [] then ALL_FIELDS else PathFields(mask)
  }

  lemma SetThenMerge(u: User, req: User, f: Field, fields: set<Field>)
    ensures Merged(SetField(u, req, f), req, fields) == Merged(u, req, {f} + fields)
  {
    SetIsMerge(u, req, f);
    MergeTwice(u, req, {f}, fields);
    hide Merged, SetField;
  }

  lemma SetIsMerge(u: User, req: User, f: Field)
    ensures SetField(u, req, f) == Merged(u, req, {f})
  {
  }

  lemma MergeTwice(u: User, req: User, first: set<Field>, second: set<Field>)
    ensures Merged(Merged(u, req, first), req, second) == Merged(u, req, first + second)
  {
  }

  lemma {:induction false} KnownPathsMerge(u: User, req: User, paths: seq<string>)
    requires Known(paths)
    ensures ApplyPaths(u, req, paths) == Success(Merged(u, req, PathFields(paths)))
    decreases |paths|
  {
    if paths != [] {
      assert paths[0] in paths;
      var f := FieldOf(paths[0]).value;
      KnownPathsMerge(SetField(u, req, f), req, paths[1..]);
      SetThenMerge(u, req, f, PathFields(paths[1..]));
    }
  }

  lemma {:induction false} FirstUnknownPathFails(u: User, req: User, paths: seq<string>, bad: nat)
    requires bad < |paths| && FieldOf(paths[bad]).None? && Known(paths[..bad])
    ensures ApplyPaths(u, req, paths) == Failure(PathError(paths[bad]))
    decreases |paths|
  {
    if bad > 0 {
      assert paths[0] in paths[..bad];
      assert paths[1..][..bad - 1] == paths[..bad][1..];
      FirstUnknownPathFails(SetField(u, req, FieldOf(paths[0]).value), req, paths[1..], bad - 1);
    }
  }

  /** A mask succeeds exactly when it has only known paths, and then it means the set of fields it names:
      order and repetition do not matter (MaskIsASet), and naming all ten fields is the same as giving
      no mask (TenPathsAreNoMask). Otherwise the first unknown path is the error. Id and create date never change. */
  lemma MaskMeaning(u: User, req: User, mask: seq<string>)
    ensures Edited(u, req, mask).Success? <==> Known(mask)
    ensures Known(mask) ==> Edited(u, req, mask) == Success(Merged(u, req, Named(mask)))
    ensures forall i | 0 <= i < |mask| && FieldOf(mask[i]).None? && Known(mask[..i]) ::
              Edited(u, req, mask) == Failure(PathError(mask[i]))
    ensures Edited(u, req, mask).Success? ==>
              Edited(u, req, mask).value.id == u.id && Edited(u, req, mask).value.createDate == u.createDate
  {
    forall i | 0 <= i < |mask| && FieldOf(mask[i]).None? && Known(mask[..i])
      ensures Edited(u, req, mask) == Failure(PathError(mask[i]))
    {
      FirstUnknownPathFails(u, req, mask, i);
    }
    if Known(mask) {
      KnownPathsMerge(u, req, mask);
    } else {
      var bad := FirstUnknown(mask);
      FirstUnknownPathFails(u, req, mask, bad);
    }
  }

  lemma FirstUnknown(paths: seq<string>) returns (bad: nat)
    requires !Known(paths)
    ensures bad < |paths| && FieldOf(paths[bad]).None? && Known(paths[..bad])
    decreases |paths|
  {
    if FieldOf(paths[0]).None? {
      bad := 0;
    } else {
      var rest := FirstUnknown(paths[1..]);
      bad := rest + 1;
      assert paths[..bad] == [paths[0]] + paths[1..][..rest];
    }
  }

  /** Masks that name the same fields edit alike, whatever their order, length and repetitions. */
  lemma MaskIsASet(u: User, req: User, m1: seq<string>, m2: seq<string>)
    requires Known(m1) && Known(m2) && Named(m1) == Named(m2)
    ensures Edited(u, req, m1) == Edited(u, req, m2)
  {
    MaskMeaning(u, req, m1);
    MaskMeaning(u, req, m2);
  }

  lemma IsAField(f: Field)
    ensures f in ALL_FIELDS
  {
    match f
    case Role =>
    case _ =>
  }

  /** A mask names every field exactly when it is empty or has all ten paths. */
  lemma NamesAllExactly(mask: seq<string>)
    ensures Named(mask) == ALL_FIELDS <==> mask == [] || forall f: Field :: FieldName(f) in mask
  {
    if mask != [] {
      forall f: Field ensures f in PathFields(mask) <==> FieldName(f) in mask {
        if f in PathFields(mask) {
          var path :| path in mask && FieldOf(path) == Some(f);
        }
      }
      forall f: Field ensures f in ALL_FIELDS {
        IsAField(f);
      }
      hide PathFields, FieldName, FieldOf;
    }
  }

  /** A mask with all ten paths, in any order and with any repetitions, does what no mask does. */
  lemma TenPathsAreNoMask(u: User, req: User, mask: seq<string>)
    requires Known(mask) && forall f: Field :: FieldName(f) in mask
    ensures Edited(u, req, mask) == Edited(u, req, [])
  {
    NamesAllExactly(mask);
    MaskIsASet(u, req, mask, []);
  }

  // ---------- The texts ----------

  /** The ten paths that a mask may have */
  const PATHS: set<string> :=
    {"role", "username", "email", "phone", "profile", "tags", "metadata", "status", "last_login", "addresses"}

  /** A field is named exactly when its text is in the mask or there is no mask. */
  lemma NamedByText(mask: seq<string>, f: Field)
    ensures f in Named(mask) <==> mask == [] || FieldName(f) in mask
  {
    IsAField(f);
    if mask != [] && f in PathFields(mask) {
      var path :| path in mask && FieldOf(path) == Some(f);
    }
    hide FieldName, FieldOf;
  }

  /** A merge in the words of the mask: a field whose text is there is taken from the request, any other from the
      user. */
  lemma MergedByText(u: User, req: User, mask: seq<string>)
    ensures var e := Merged(u, req, Named(mask));
            && e.id == u.id && e.createDate == u.createDate
            && e.role == (if mask == [] || "role" in mask then req.role else u.role)
            && e.username == (if mask == [] || "username" in mask then req.username else u.username)
            && e.email == (if mask == [] || "email" in mask then req.email else u.email)
            && e.phone == (if mask == [] || "phone" in mask then req.phone else u.phone)
            && e.profile == (if mask == [] || "profile" in mask then req.profile else u.profile)
            && e.tags == (if mask == [] || "tags" in mask then req.tags else u.tags)
            && e.metadata == (if mask == [] || "metadata" in mask then req.metadata else u.metadata)
            && e.status == (if mask == [] || "status" in mask then req.status else u.status)
            && e.lastLogin == (if mask == [] || "last_login" in mask then req.lastLogin else u.lastLogin)
            && e.addresses == (if mask == [] || "addresses" in mask then req.addresses else u.addresses)
  {
    NamedByText(mask, Role);
    NamedByText(mask, Username);
    NamedByText(mask, Email);
    NamedByText(mask, Phone);
    NamedByText(mask, Field.Profile);
    NamedByText(mask, Tags);
    NamedByText(mask, Metadata);
    NamedByText(mask, Status);
    NamedByText(mask, LastLogin);
    NamedByText(mask, Addresses);
    hide Named;
  }

  /** A mask in its own words: it is accepted exactly when each path is one of the ten texts, and then each of them
      stands for its field, as all of them do when there is no mask; otherwise the first other text is the error,
      "id" having one of its own. */
  lemma MaskByText(u: User, req: User, mask: seq<string>)
    ensures Edited(u, req, mask).Success? <==>
              forall path | path in mask ::
                path in {"role", "username", "email", "phone", "profile", "tags", "metadata", "status", "last_login",
                         "addresses"}
    ensures Edited(u, req, mask).Success? ==>
              var e := Edited(u, req, mask).value;
              && e.id == u.id && e.createDate == u.createDate
              && e.role == (if mask == [] || "role" in mask then req.role else u.role)
              && e.username == (if mask == [] || "username" in mask then req.username else u.username)
              && e.email == (if mask == [] || "email" in mask then req.email else u.email)
              && e.phone == (if mask == [] || "phone" in mask then req.phone else u.phone)
              && e.profile == (if mask == [] || "profile" in mask then req.profile else u.profile)
              && e.tags == (if mask == [] || "tags" in mask then req.tags else u.tags)
              && e.metadata == (if mask == [] || "metadata" in mask then req.metadata else u.metadata)
              && e.status == (if mask == [] || "status" in mask then req.status else u.status)
              && e.lastLogin == (if mask == [] || "last_login" in mask then req.lastLogin else u.lastLogin)
              && e.addresses == (if mask == [] || "addresses" in mask then req.addresses else u.addresses)
    ensures forall i | 0 <= i < |mask| && mask[i] !in PATHS && (forall path | path in mask[..i] :: path in PATHS) ::
              Edited(u, req, mask) == Failure(if mask[i] == "id" then CannotUpdateId else InvalidPath(mask[i]))
  {
    forall path: string ensures FieldOf(path).Some? <==> path in PATHS {
    }
    hide FieldOf, Edited, Named, Merged;
    MaskMeaning(u, req, mask);
    MergedByText(u, req, mask);
  }
}
