/** The INSERT and UPDATE statements as they are sent: columns, placeholders and arguments. What they make of a
    row is read from these lists alone, and it is what the table's step functions do. */
module TableStatements {
  import opened Values
  import opened PostgresTable

  datatype Column =
    | IdColumn | Username | Role | Email | Phone | DisplayName | Bio | AvatarUrl | DateOfBirth | Preferences
    | Tags | Metadata | Status | CreateDate | LastLogin | Addresses

  datatype Cell =
    | Number(n: int)
    | Text(text: string)
    | Moment(t: Option<Time>)
    | Counts(counts: map<string, int>)
    | Words(words: seq<string>)
    | Pairs(pairs: map<string, string>)
    | Places(places: seq<Option<Address>>)

  type Cells = map<Column, Cell>

  /** A column and the number of the placeholder that it is assigned */
  datatype Assignment = Assignment(column: Column, placeholder: nat)

  // ---------- The lists in the source ----------

  /** INSERT INTO users (...) VALUES ($1, ..., $16) */
  function InsertColumns(): seq<Assignment> {
    [Assignment(IdColumn, 1), Assignment(Username, 2), Assignment(Role, 3), Assignment(Email, 4),
     Assignment(Phone, 5), Assignment(DisplayName, 6), Assignment(Bio, 7), Assignment(AvatarUrl, 8),
     Assignment(DateOfBirth, 9), Assignment(Preferences, 10), Assignment(Tags, 11), Assignment(Metadata, 12),
     Assignment(Status, 13), Assignment(CreateDate, 14), Assignment(LastLogin, 15), Assignment(Addresses, 16)]
  }

  /** ON CONFLICT (id) DO UPDATE SET column = EXCLUDED.column, ... */
  function ConflictColumns(): seq<Column> {
    [Username, Role, Email, Phone, DisplayName, Bio, AvatarUrl, DateOfBirth, Preferences, Tags, Metadata, Status,
     LastLogin, Addresses]
  }

  /** UPDATE users SET column = $k, ... WHERE id = $1 */
  function UpdateColumns(): seq<Assignment> {
    [Assignment(Username, 2), Assignment(Role, 3), Assignment(Email, 4), Assignment(Phone, 5),
     Assignment(DisplayName, 6), Assignment(Bio, 7), Assignment(AvatarUrl, 8), Assignment(DateOfBirth, 9),
     Assignment(Preferences, 10), Assignment(Tags, 11), Assignment(Metadata, 12), Assignment(Status, 13),
     Assignment(LastLogin, 14), Assignment(Addresses, 15)]
  }

  function ProfileOf(u: User): Profile {
    if u.profile.Some? then u.profile.value else NO_PROFILE
  }

  /** The arguments of the INSERT, in the order in which they are passed */
  function InsertArgs(u: User): seq<Cell> {
    var p := ProfileOf(u);
    [Number(u.id), Text(u.username), Number(u.role), Text(u.email), Text(u.phone), Text(p.displayName), Text(p.bio),
     Text(p.avatarUrl), Moment(p.dateOfBirth), Counts(p.preferences), Words(u.tags), Pairs(u.metadata),
     Number(u.status), Moment(Some(AsTime(u.createDate))), Moment(u.lastLogin), Places(u.addresses)]
  }

  /** The arguments of the UPDATE */
  function UpdateArgs(u: User): seq<Cell> {
    var p := ProfileOf(u);
    [Number(u.id), Text(u.username), Number(u.role), Text(u.email), Text(u.phone), Text(p.displayName), Text(p.bio),
     Text(p.avatarUrl), Moment(p.dateOfBirth), Counts(p.preferences), Words(u.tags), Pairs(u.metadata),
     Number(u.status), Moment(u.lastLogin), Places(u.addresses)]
  }

  // ---------- What the lists mean ----------

  /** Every column listed has the argument of its placeholder. */
  predicate Filled(cells: Cells, columns: seq<Assignment>, args: seq<Cell>) {
    forall k | 0 <= k < |columns| :: FilledAt(cells, columns[k], args)
  }

  predicate FilledAt(cells: Cells, a: Assignment, args: seq<Cell>) {
    a.column in cells && 1 <= a.placeholder <= |args| && cells[a.column] == args[a.placeholder - 1]
  }

  predicate Lists(columns: seq<Assignment>, c: Column) {
    exists k | 0 <= k < |columns| :: columns[k].column == c
  }

  /** The cells of a new row */
  ghost predicate InsertGives(cells: Cells, columns: seq<Assignment>, args: seq<Cell>) {
    Filled(cells, columns, args) && forall c: Column :: c in cells <==> Lists(columns, c)
  }

  /** The cells of a row after an UPDATE */
  ghost predicate UpdateGives(before: Cells, cells: Cells, columns: seq<Assignment>, args: seq<Cell>) {
    && Filled(cells, columns, args) && (forall c: Column :: c in cells <==> c in before)
    && forall c | c in before && c in cells && !Lists(columns, c) :: cells[c] == before[c]
  }

  /** The cells of a row after a conflict with the row that was to be inserted */
  ghost predicate ConflictGives(before: Cells, excluded: Cells, cells: Cells, columns: seq<Column>) {
    && (forall c: Column :: c in cells <==> c in before)
    && forall c | c in before && c in cells :: FromConflict(before, excluded, cells, columns, c)
  }

  predicate FromConflict(before: Cells, excluded: Cells, cells: Cells, columns: seq<Column>, c: Column)
    requires c in before && c in cells
  {
    if c in columns then c in excluded && cells[c] == excluded[c] else cells[c] == before[c]
  }

  /** The cells of a row of the table */
  function CellsOf(id: Id, r: Row): Cells {
    map c: Column | true :: CellOf(id, r, c)
  }

  function CellOf(id: Id, r: Row, c: Column): Cell {
    match c
    case IdColumn => Number(id)
    case Username => Text(r.username)
    case Role => Number(r.role)
    case Email => Text(r.email)
    case Phone => Text(r.phone)
    case DisplayName => Text(r.displayName)
    case Bio => Text(r.bio)
    case AvatarUrl => Text(r.avatarUrl)
    case DateOfBirth => Moment(r.dateOfBirth)
    case Preferences => Counts(r.preferences)
    case Tags => Words(r.tags)
    case Metadata => Pairs(r.metadata)
    case Status => Number(r.status)
    case CreateDate => Moment(Some(r.createDate))
    case LastLogin => Moment(r.lastLogin)
    case Addresses => Places(r.addresses)
  }

  /** A row is known by its cells. */
  lemma CellsTellTheRow(id: Id, r: Row, id': Id, r': Row)
    ensures CellsOf(id, r) == CellsOf(id', r') <==> id == id' && r == r'
  {
    if CellsOf(id, r) == CellsOf(id', r') {
      forall c: Column ensures CellOf(id, r, c) == CellOf(id', r', c) {
        assert CellsOf(id, r)[c] == CellsOf(id', r')[c];
      }
      hide CellsOf;
      SameCells(id, r, id', r');
    }
  }

  lemma SameCells(id: Id, r: Row, id': Id, r': Row)
    requires forall c: Column :: CellOf(id, r, c) == CellOf(id', r', c)
    ensures id == id' && r == r'
  {
    SameAccount(id, r, id', r');
    SameProfile(id, r, id', r');
    SameRest(id, r, id', r');
    hide CellOf;
  }

  lemma SameAccount(id: Id, r: Row, id': Id, r': Row)
    requires forall c: Column :: CellOf(id, r, c) == CellOf(id', r', c)
    ensures id == id' && r.username == r'.username && r.role == r'.role && r.email == r'.email && r.phone == r'.phone
  {
    assert CellOf(id, r, IdColumn) == CellOf(id', r', IdColumn);
    assert CellOf(id, r, Username) == CellOf(id', r', Username) && CellOf(id, r, Role) == CellOf(id', r', Role);
    assert CellOf(id, r, Email) == CellOf(id', r', Email) && CellOf(id, r, Phone) == CellOf(id', r', Phone);
  }

  lemma SameProfile(id: Id, r: Row, id': Id, r': Row)
    requires forall c: Column :: CellOf(id, r, c) == CellOf(id', r', c)
    ensures r.displayName == r'.displayName && r.bio == r'.bio && r.avatarUrl == r'.avatarUrl
    ensures r.dateOfBirth == r'.dateOfBirth && r.preferences == r'.preferences
  {
    assert CellOf(id, r, DisplayName) == CellOf(id', r', DisplayName) && CellOf(id, r, Bio) == CellOf(id', r', Bio);
    assert CellOf(id, r, AvatarUrl) == CellOf(id', r', AvatarUrl);
    assert CellOf(id, r, DateOfBirth) == CellOf(id', r', DateOfBirth);
    assert CellOf(id, r, Preferences) == CellOf(id', r', Preferences);
  }

  lemma SameRest(id: Id, r: Row, id': Id, r': Row)
    requires forall c: Column :: CellOf(id, r, c) == CellOf(id', r', c)
    ensures r.tags == r'.tags && r.metadata == r'.metadata && r.status == r'.status
    ensures r.createDate == r'.createDate && r.lastLogin == r'.lastLogin && r.addresses == r'.addresses
  {
    assert CellOf(id, r, Tags) == CellOf(id', r', Tags) && CellOf(id, r, Metadata) == CellOf(id', r', Metadata);
    assert CellOf(id, r, Status) == CellOf(id', r', Status);
    assert CellOf(id, r, CreateDate) == CellOf(id', r', CreateDate);
    assert CellOf(id, r, LastLogin) == CellOf(id', r', LastLogin);
    assert CellOf(id, r, Addresses) == CellOf(id', r', Addresses);
  }

  // ---------- Every column gets its own field ----------

  /** Where the columns stand in the INSERT */
  function InsertPosition(c: Column): nat {
    match c
    case IdColumn => 0
    case Username => 1
    case Role => 2
    case Email => 3
    case Phone => 4
    case DisplayName => 5
    case Bio => 6
    case AvatarUrl => 7
    case DateOfBirth => 8
    case Preferences => 9
    case Tags => 10
    case Metadata => 11
    case Status => 12
    case CreateDate => 13
    case LastLogin => 14
    case Addresses => 15
  }

  lemma InsertHasOwnField(u: User, c: Column)
    ensures var k := InsertPosition(c);
            && k < 16 && InsertColumns()[k] == Assignment(c, k + 1)
            && InsertArgs(u)[k] == CellsOf(u.id, RowFor(u))[c]
  {
  }

  lemma InsertListsAll(k: nat)
    requires k < 16
    ensures InsertPosition(InsertColumns()[k].column) == k
  {
  }

  /** Where the columns stand in the SET list of the UPDATE, which has neither id nor create_date */
  function UpdatePosition(c: Column): nat
    requires c != IdColumn && c != CreateDate
  {
    InsertPosition(c) - if c == LastLogin || c == Addresses then 2 else 1
  }

  lemma UpdateHasOwnField(u: User, d: Time, c: Column)
    requires c != IdColumn && c != CreateDate
    ensures var k := UpdatePosition(c);
            && k < 14 && UpdateColumns()[k] == Assignment(c, k + 2)
            && UpdateArgs(u)[k + 1] == CellsOf(u.id, RowFor(u).(createDate := d))[c]
  {
  }

  lemma UpdateListsOthers(k: nat)
    requires k < 14
    ensures var c := UpdateColumns()[k].column; c != IdColumn && c != CreateDate && UpdatePosition(c) == k
  {
  }

  /** Neither SET list has create_date or id. */
  lemma CreateDateIsNotSet()
    ensures !Lists(UpdateColumns(), CreateDate) && !Lists(UpdateColumns(), IdColumn)
    ensures CreateDate !in ConflictColumns() && IdColumn !in ConflictColumns()
  {
    forall k | 0 <= k < 14 ensures UpdateColumns()[k].column != CreateDate && UpdateColumns()[k].column != IdColumn {
      UpdateListsOthers(k);
    }
  }

  // ---------- What the statements do ----------

  /** The INSERT makes the row for the user, and nothing else. */
  lemma InsertMakesTheRow(u: User, cells: Cells)
    ensures InsertGives(cells, InsertColumns(), InsertArgs(u)) <==> cells == CellsOf(u.id, RowFor(u))
  {
    var row := CellsOf(u.id, RowFor(u));
    forall c: Column ensures Lists(InsertColumns(), c) {
      InsertHasOwnField(u, c);
    }
    forall k | 0 <= k < 16 ensures FilledAt(row, InsertColumns()[k], InsertArgs(u)) {
      InsertListsAll(k);
      InsertHasOwnField(u, InsertColumns()[k].column);
    }
    if Filled(cells, InsertColumns(), InsertArgs(u)) {
      forall c: Column ensures c in cells && cells[c] == row[c] {
        InsertHasOwnField(u, c);
        assert FilledAt(cells, InsertColumns()[InsertPosition(c)], InsertArgs(u));
      }
    }
    hide InsertColumns, InsertArgs, CellsOf, RowFor, Lists, FilledAt;
  }

  /** The UPDATE makes the row for the user with the create date that was there. */
  lemma UpdateMakesTheRow(u: User, r: Row, cells: Cells)
    ensures UpdateGives(CellsOf(u.id, r), cells, UpdateColumns(), UpdateArgs(u))
            <==> cells == CellsOf(u.id, RowFor(u).(createDate := r.createDate))
  {
    var before, row := CellsOf(u.id, r), CellsOf(u.id, RowFor(u).(createDate := r.createDate));
    CreateDateIsNotSet();
    forall c: Column | c != IdColumn && c != CreateDate ensures Lists(UpdateColumns(), c) {
      UpdateHasOwnField(u, r.createDate, c);
    }
    forall k | 0 <= k < 14 ensures FilledAt(row, UpdateColumns()[k], UpdateArgs(u)) {
      UpdateListsOthers(k);
      UpdateHasOwnField(u, r.createDate, UpdateColumns()[k].column);
    }
    assert row[CreateDate] == before[CreateDate] && row[IdColumn] == before[IdColumn];
    if UpdateGives(before, cells, UpdateColumns(), UpdateArgs(u)) {
      forall c: Column ensures c in cells && cells[c] == row[c] {
        if c != IdColumn && c != CreateDate {
          UpdateHasOwnField(u, r.createDate, c);
          assert FilledAt(cells, UpdateColumns()[UpdatePosition(c)], UpdateArgs(u));
        }
      }
    }
    hide UpdateColumns, UpdateArgs, CellsOf, RowFor, Lists, FilledAt;
  }

  /** So does the upsert on a conflict. */
  lemma ConflictMakesTheRow(u: User, r: Row, cells: Cells)
    ensures ConflictGives(CellsOf(u.id, r), CellsOf(u.id, RowFor(u)), cells, ConflictColumns())
            <==> cells == CellsOf(u.id, RowFor(u).(createDate := r.createDate))
  {
    var before, excluded := CellsOf(u.id, r), CellsOf(u.id, RowFor(u));
    var row := CellsOf(u.id, RowFor(u).(createDate := r.createDate));
    forall c: Column ensures row[c] == if c in ConflictColumns() then excluded[c] else before[c] {
    }
    hide ConflictColumns, CellsOf, RowFor;
    if ConflictGives(before, excluded, cells, ConflictColumns()) {
      forall c: Column ensures c in cells && cells[c] == row[c] {
        assert FromConflict(before, excluded, cells, ConflictColumns(), c);
      }
    }
  }

  // ---------- The step functions of the table ----------

  /** r is the row of u after the statement, as the lists say. */
  ghost predicate UpsertGives(t: Table, u: User, r: Row) {
    if u.id !in t then InsertGives(CellsOf(u.id, r), InsertColumns(), InsertArgs(u))
    else exists excluded :: InsertGives(excluded, InsertColumns(), InsertArgs(u))
                            && ConflictGives(CellsOf(u.id, t[u.id]), excluded, CellsOf(u.id, r), ConflictColumns())
  }

  /** Upsert does to the table what the INSERT with its conflict clause does: the row it leaves is the one row that
      the lists allow, and no other row changes. */
  lemma UpsertIsTheStatement(t: Table, u: User, r: Row)
    requires NameFree(t, u.id, u.username)
    ensures Upsert(t, u).Some? && u.id in Upsert(t, u).value && Upsert(t, u).value - {u.id} == t - {u.id}
    ensures UpsertGives(t, u, r) <==> r == Upsert(t, u).value[u.id]
  {
    hide RowFor, CellsOf, NameFree, InsertColumns, InsertArgs, ConflictColumns, InsertGives, ConflictGives;
    InsertMakesTheRow(u, CellsOf(u.id, r));
    CellsTellTheRow(u.id, r, u.id, RowFor(u));
    InsertMakesTheRow(u, CellsOf(u.id, RowFor(u)));
    if u.id in t {
      var kept := RowFor(u).(createDate := t[u.id].createDate);
      ConflictMakesTheRow(u, t[u.id], CellsOf(u.id, r));
      CellsTellTheRow(u.id, r, u.id, kept);
      if UpsertGives(t, u, r) {
        var excluded :| InsertGives(excluded, InsertColumns(), InsertArgs(u))
          && ConflictGives(CellsOf(u.id, t[u.id]), excluded, CellsOf(u.id, r), ConflictColumns());
        InsertMakesTheRow(u, excluded);
      }
    }
  }

  /** UpdateRow does what the UPDATE does: its row is the one row that the lists allow. */
  lemma UpdateRowIsTheStatement(t: Table, u: User, r: Row)
    requires NameFree(t, u.id, u.username) && u.id in t
    ensures UpdateRow(t, u).Some? && u.id in UpdateRow(t, u).value && UpdateRow(t, u).value - {u.id} == t - {u.id}
    ensures UpdateGives(CellsOf(u.id, t[u.id]), CellsOf(u.id, r), UpdateColumns(), UpdateArgs(u))
            <==> r == UpdateRow(t, u).value[u.id]
  {
    hide RowFor, CellsOf, NameFree, UpdateColumns, UpdateArgs, UpdateGives;
    UpdateMakesTheRow(u, t[u.id], CellsOf(u.id, r));
    CellsTellTheRow(u.id, r, u.id, RowFor(u).(createDate := t[u.id].createDate));
  }
}
