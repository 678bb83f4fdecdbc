/** The query that PostgresStorage.ListUsers puts together as text, and what the text means. The meaning is
    read back from the text by a small parser for the grammar of the queries at hand:
    conditions joined by AND, then ORDER BY, then at most one LIMIT. */
module QueryBuilder {
  import opened Values
  import opened Filters

  datatype Arg = TimeArg(t: Time) | StatusArg(status: Int32) | LimitArg(n: Int32)

  /** A column compared with a placeholder; op is an operator of SQL */
  datatype Condition = Condition(column: string, op: string, placeholder: nat)

  datatype Query = Query(conditions: seq<Condition>, limit: Option<nat>)

  /** The columns that the filter looks at */
  datatype Row = Row(createDate: Time, status: Int32)

  /** The fixed beginning, white space aside */
  function SelectUsers(): string {
    "SELECT id, username, role, email, phone, display_name, bio, avatar_url, date_of_birth, preferences, "
    + "tags, metadata, status, create_date, last_login, addresses FROM users WHERE 1=1"
  }
  const ORDER_BY := " ORDER BY id"
  const LIMIT := " LIMIT $"

  // ---------- Decimal numbers ----------

  function Digit(d: nat): char
    requires d < 10
  {
    '0' + d as char
  }

  function Decimal(n: nat): string {
    if n < 10 then [Digit(n)] else Decimal(n / 10) + [Digit(n % 10)]
  }

  predicate IsDigit(c: char) {
    '0' <= c <= '9'
  }

  predicate IsLetter(c: char) {
    'a' <= c <= 'z' || c == '_'
  }

  predicate IsSign(c: char) {
    c == '<' || c == '=' || c == '>'
  }

  /** The length of the longest run of such characters at the start */
  function RunLength(text: string, good: char -> bool): (n: nat)
    ensures n <= |text|
  {
    if text != [] && good(text[0]) then 1 + RunLength(text[1..], good) else 0
  }

  lemma {:induction false} RunIsGood(text: string, good: char -> bool)
    ensures forall c | c in text[..RunLength(text, good)] :: good(c)
  {
    if text != [] && good(text[0]) {
      RunIsGood(text[1..], good);
      assert text[..RunLength(text, good)] == [text[0]] + text[1..][..RunLength(text[1..], good)];
    }
  }

  function DigitsValue(digits: string): nat
    requires forall c | c in digits :: IsDigit(c)
  {
    if digits == [] then 0
    else
      var last := digits[|digits| - 1];
      assert last in digits && IsDigit(last);
      DigitsValue(digits[..|digits| - 1]) * 10 + (last as int - '0' as int)
  }

  lemma {:induction false} DecimalValue(n: nat)
    ensures |Decimal(n)| > 0 && forall c | c in Decimal(n) :: IsDigit(c)
    ensures DigitsValue(Decimal(n)) == n
  {
    if n < 10 {
      assert Decimal(n)[..0] == [];
    } else {
      DecimalValue(n / 10);
      assert Decimal(n)[..|Decimal(n)| - 1] == Decimal(n / 10);
    }
  }

  lemma {:induction false} RunLengthOf(run: string, rest: string, good: char -> bool)
    requires forall c | c in run :: good(c)
    requires rest == [] || !good(rest[0])
    ensures RunLength(run + rest, good) == |run|
  {
    if run == [] {
      assert run + rest == rest;
    } else {
      assert (run + rest)[1..] == run[1..] + rest;
      RunLengthOf(run[1..], rest, good);
    }
  }

  // ---------- Reading a query ----------

  predicate StartsWith(text: string, start: string) {
    |start| <= |text| && text[..|start|] == start
  }

  /** A run of such characters at the start of the text, and what follows it */
  function ReadRun(text: string, good: char -> bool): (r: Option<(string, string)>)
    ensures r.Some? ==> r.value.0 != [] && r.value.0 + r.value.1 == text && forall c | c in r.value.0 :: good(c)
  {
    var n := RunLength(text, good);
    RunIsGood(text, good);
    if n == 0 then None else Some((text[..n], text[n..]))
  }

  /** A placeholder's number at the start of the text, and what follows it */
  function ReadNumber(text: string): (r: Option<(nat, string)>)
    ensures r.Some? ==> |r.value.1| < |text|
  {
    match ReadRun(text, IsDigit)
    case None => None
    case Some((digits, rest)) => Some((DigitsValue(digits), rest))
  }

  /** What follows this start of the text */
  function ReadText(text: string, start: string): (r: Option<string>)
    ensures r.Some? ==> |r.value| + |start| == |text|
  {
    if StartsWith(text, start) then Some(text[|start|..]) else None
  }

  predicate IsOperator(op: string) {
    op == "<" || op == "<=" || op == ">" || op == ">=" || op == "=" || op == "<>"
  }

  predicate IsColumn(column: string) {
    column == "create_date" || column == "status"
  }

  /** An operator and a placeholder, and what follows them */
  function ReadComparison(text: string): (r: Option<(string, nat, string)>)
    ensures r.Some? ==> |r.value.2| < |text|
  {
    match ReadText(text, " ")
    case None => None
    case Some(fromOp) =>
      match ReadRun(fromOp, IsSign)
      case None => None
      case Some((op, afterOp)) =>
        match ReadText(afterOp, " $")
        case None => None
        case Some(fromNumber) =>
          match ReadNumber(fromNumber)
          case None => None
          case Some((n, rest)) => Some((op, n, rest))
  }

  /** AND, a column and its comparison, and what follows them */
  function ReadCondition(text: string): (r: Option<(Condition, string)>)
    ensures r.Some? ==> |r.value.1| < |text|
  {
    match ReadText(text, " AND ")
    case None => None
    case Some(fromColumn) =>
      match ReadRun(fromColumn, IsLetter)
      case None => None
      case Some((column, afterColumn)) =>
        match ReadComparison(afterColumn)
        case None => None
        case Some((op, n, rest)) =>
          if IsColumn(column) && IsOperator(op) then Some((Condition(column, op, n), rest)) else None
  }

  /** All conditions at the start of the text, and what follows them */
  function ReadConditions(text: string): (seq<Condition>, string)
    decreases |text|
  {
    match ReadCondition(text)
    case None => ([], text)
    case Some((c, rest)) =>
      var (conditions, end) := ReadConditions(rest);
      ([c] + conditions, end)
  }

  /** What follows the fixed beginning of a query: conditions, the order, and at most one limit */
  function ReadRest(text: string): Option<Query> {
    var (conditions, end) := ReadConditions(text);
    if !StartsWith(end, ORDER_BY) then None
    else if end == ORDER_BY then Some(Query(conditions, None))
    else if !StartsWith(end[|ORDER_BY|..], LIMIT) then None
    else
      match ReadNumber(end[|ORDER_BY|..][|LIMIT|..])
      case None => None
      case Some((n, rest)) => if rest == [] then Some(Query(conditions, Some(n))) else None
  }

  function ReadQuery(text: string): Option<Query> {
    if StartsWith(text, SelectUsers()) then ReadRest(text[|SelectUsers()|..]) else None
  }

  predicate WellFormed(c: Condition) {
    IsColumn(c.column) && IsOperator(c.op)
  }

  function ConditionText(c: Condition): string {
    " AND " + c.column + " " + c.op + " $" + Decimal(c.placeholder)
  }

  function ConditionsText(conditions: seq<Condition>): string {
    if conditions == [] then [] else ConditionText(conditions[0]) + ConditionsText(conditions[1..])
  }

  lemma ReadTextBack(start: string, rest: string)
    ensures ReadText(start + rest, start) == Some(rest)
  {
    assert (start + rest)[|start|..] == rest;
  }

  lemma ReadRunBack(run: string, rest: string, good: char -> bool)
    requires run != [] && (forall c | c in run :: good(c)) && (rest == [] || !good(rest[0]))
    ensures ReadRun(run + rest, good) == Some((run, rest))
  {
    RunLengthOf(run, rest, good);
    assert (run + rest)[..|run|] == run && (run + rest)[|run|..] == rest;
  }

  lemma ReadNumberBack(n: nat, rest: string)
    requires rest == [] || !IsDigit(rest[0])
    ensures ReadNumber(Decimal(n) + rest) == Some((n, rest))
  {
    DecimalValue(n);
    ReadRunBack(Decimal(n), rest, IsDigit);
  }

  lemma TokensAreRuns(c: Condition)
    requires WellFormed(c)
    ensures c.column != [] && forall ch | ch in c.column :: IsLetter(ch)
    ensures c.op != [] && forall ch | ch in c.op :: IsSign(ch)
  {
  }

  lemma ReadComparisonBack(op: string, n: nat, rest: string)
    requires op != [] && (forall ch | ch in op :: IsSign(ch)) && (rest == [] || !IsDigit(rest[0]))
    ensures ReadComparison(" " + (op + (" $" + (Decimal(n) + rest)))) == Some((op, n, rest))
  {
    hide ReadText, ReadRun, ReadNumber, Decimal;
    ReadTextBack(" ", op + (" $" + (Decimal(n) + rest)));
    ReadRunBack(op, " $" + (Decimal(n) + rest), IsSign);
    ReadTextBack(" $", Decimal(n) + rest);
    ReadNumberBack(n, rest);
  }

  lemma ConditionTextNests(c: Condition, rest: string)
    ensures ConditionText(c) + rest
         == " AND " + (c.column + (" " + (c.op + (" $" + (Decimal(c.placeholder) + rest)))))
  {
    hide Decimal;
  }

  lemma ReadOneBack(c: Condition, rest: string)
    requires WellFormed(c) && (rest == [] || !IsDigit(rest[0]))
    ensures ReadCondition(ConditionText(c) + rest) == Some((c, rest))
  {
    TokensAreRuns(c);
    ConditionTextNests(c, rest);
    hide IsColumn, IsOperator, ReadText, ReadRun, ReadComparison, ConditionText, Decimal, IsSign, IsDigit;
    var comparison := " " + (c.op + (" $" + (Decimal(c.placeholder) + rest)));
    ReadComparisonBack(c.op, c.placeholder, rest);
    ReadRunBack(c.column, comparison, IsLetter);
    ReadTextBack(" AND ", c.column + comparison);
  }

  /** What is written is read back, up to an end that does not look like more of it. */
  lemma {:induction false} ConditionsRoundTrip(conditions: seq<Condition>, end: string)
    requires forall c | c in conditions :: WellFormed(c)
    requires (end == [] || !IsDigit(end[0])) && ReadCondition(end).None?
    ensures ReadConditions(ConditionsText(conditions) + end) == (conditions, end)
    decreases |conditions|
  {
    hide ReadCondition, ConditionText, IsDigit;
    if conditions == [] {
      assert ConditionsText(conditions) + end == end;
    } else {
      hide WellFormed;
      var c, rest := conditions[0], ConditionsText(conditions[1..]) + end;
      ConditionsRoundTrip(conditions[1..], end);
      StartIsNoDigit(conditions[1..], end);
      assert c in conditions;
      ReadOneBack(c, rest);
      assert ConditionsText(conditions) + end == ConditionText(c) + rest;
      assert conditions == [c] + conditions[1..];
    }
  }

  lemma StartIsNoDigit(conditions: seq<Condition>, end: string)
    requires end == [] || !IsDigit(end[0])
    ensures var text := ConditionsText(conditions) + end; text == [] || !IsDigit(text[0])
  {
    hide Decimal;
  }

  // ---------- The meaning of a query ----------

  predicate Compares(x: int, op: string, y: int) {
    || (op == "<" && x < y)
    || (op == "<=" && x <= y)
    || (op == ">" && x > y)
    || (op == ">=" && x >= y)
    || (op == "=" && x == y)
    || (op == "<>" && x != y)
  }

  predicate Satisfies(row: Row, c: Condition, args: seq<Arg>) {
    && 1 <= c.placeholder <= |args|
    && Relates(row, c.column, c.op, args[c.placeholder - 1])
  }

  /** The column stands in this relation to the argument. */
  predicate Relates(row: Row, column: string, op: string, arg: Arg) {
    match arg
    case TimeArg(t) => column == "create_date" && Compares(row.createDate, op, t)
    case StatusArg(status) => column == "status" && Compares(row.status, op, status)
    case LimitArg(_) => false
  }

  /** What the database selects for a query without LIMIT */
  predicate Selected(row: Row, q: Query, args: seq<Arg>) {
    forall i | 0 <= i < |q.conditions| :: Satisfies(row, q.conditions[i], args)
  }

  /** What the filter asks for: created at or after created_since, before older_than, in the given status */
  predicate FilterAccepts(row: Row, filter: Option<ListFilter>) {
    filter.Some? ==>
      var f := filter.value;
      && (f.createdSince.Some? ==> row.createDate >= FromUnix(f.createdSince.value))
      && (f.olderThan.Some? ==> row.createDate < FromUnix(f.olderThan.value))
      && (f.status.Some? ==> row.status == f.status.value)
  }

  predicate Unpaged(filter: Option<ListFilter>) {
    filter.Some? ==> filter.value.pageSize <= 0
  }

  lemma EndIsNoCondition(end: string)
    requires StartsWith(end, ORDER_BY) || StartsWith(end, LIMIT)
    ensures !IsDigit(end[0]) && ReadCondition(end).None?
  {
    assert ORDER_BY[1] == 'O' && LIMIT[1] == 'L' && " AND "[1] == 'A';
    assert StartsWith(end, ORDER_BY) ==> end[1] == ORDER_BY[1];
    assert StartsWith(end, LIMIT) ==> end[1] == LIMIT[1];
  }

  lemma UnpagedTextIsAQuery(conditions: seq<Condition>)
    requires forall c | c in conditions :: WellFormed(c)
    ensures ReadRest(ConditionsText(conditions) + ORDER_BY) == Some(Query(conditions, None))
  {
    hide ReadConditions, ConditionsText, WellFormed;
    EndIsNoCondition(ORDER_BY);
    ConditionsRoundTrip(conditions, ORDER_BY);
  }

  /** LIMIT comes before ORDER BY in the text, which is no query. */
  lemma PagedTextIsNoQuery(conditions: seq<Condition>, n: nat)
    requires forall c | c in conditions :: WellFormed(c)
    ensures ReadRest(ConditionsText(conditions) + (LIMIT + Decimal(n) + ORDER_BY)).None?
  {
    hide ReadConditions, ConditionsText, ReadNumber, Decimal, WellFormed;
    var end := LIMIT + Decimal(n) + ORDER_BY;
    assert end[..|LIMIT|] == LIMIT;
    EndIsNoCondition(end);
    ConditionsRoundTrip(conditions, end);
    assert end[1] == 'L' && ORDER_BY[1] == 'O';
  }

  // ---------- The text and the arguments for a filter ----------

  datatype Test = Test(column: string, op: string, arg: Arg)

  function SinceTests(f: ListFilter): seq<Test> {
    if f.createdSince.Some? then [Test("create_date", ">=", TimeArg(FromUnix(f.createdSince.value)))] else []
  }

  function OlderTests(f: ListFilter): seq<Test> {
    if f.olderThan.Some? then [Test("create_date", "<", TimeArg(FromUnix(f.olderThan.value)))] else []
  }

  function StatusTests(f: ListFilter): seq<Test> {
    if f.status.Some? then [Test("status", "=", StatusArg(f.status.value))] else []
  }

  /** The tests of a filter, in the order in which they are written */
  function TestsOf(f: ListFilter): seq<Test> {
    SinceTests(f) + OlderTests(f) + StatusTests(f)
  }

  /** Conditions with the placeholders $1, $2, ... in order */
  function Numbered(tests: seq<Test>): (conditions: seq<Condition>)
    ensures |conditions| == |tests|
  {
    seq(|tests|, i requires 0 <= i < |tests| => Condition(tests[i].column, tests[i].op, i + 1))
  }

  function Arguments(tests: seq<Test>): (args: seq<Arg>)
    ensures |args| == |tests|
  {
    seq(|tests|, i requires 0 <= i < |tests| => tests[i].arg)
  }

  function TestsFor(filter: Option<ListFilter>): seq<Test> {
    match filter
    case None => []
    case Some(f) => TestsOf(f)
  }

  /** What follows the fixed beginning of the query for a filter, and its arguments; nil is no filter */
  function RestText(filter: Option<ListFilter>): string {
    ConditionsText(Numbered(TestsFor(filter)))
    + if Unpaged(filter) then ORDER_BY else LIMIT + Decimal(|TestsFor(filter)| + 1) + ORDER_BY
  }

  function QueryArgs(filter: Option<ListFilter>): seq<Arg> {
    Arguments(TestsFor(filter)) + if Unpaged(filter) then [] else [LimitArg(filter.value.pageSize)]
  }

  /** The database selects the row for the query with this rest; for a text that is no query it selects none. */
  predicate SelectedBy(row: Row, rest: string, args: seq<Arg>) {
    ReadRest(rest).Some? && Selected(row, ReadRest(rest).value, args)
  }

  lemma TestsAreWellFormed(f: ListFilter)
    ensures forall c | c in Numbered(TestsOf(f)) :: WellFormed(c)
  {
  }

  lemma SelectedByTests(row: Row, tests: seq<Test>)
    ensures Selected(row, Query(Numbered(tests), None), Arguments(tests))
            <==> forall i | 0 <= i < |tests| :: Relates(row, tests[i].column, tests[i].op, tests[i].arg)
  {
    hide Relates;
    var conditions, args := Numbered(tests), Arguments(tests);
    forall i | 0 <= i < |tests|
      ensures Satisfies(row, conditions[i], args) <==> Relates(row, tests[i].column, tests[i].op, tests[i].arg)
    {
    }
  }

  lemma TestsAreTheFilter(row: Row, f: ListFilter)
    ensures (forall i | 0 <= i < |TestsOf(f)| ::
               Relates(row, TestsOf(f)[i].column, TestsOf(f)[i].op, TestsOf(f)[i].arg))
            <==> FilterAccepts(row, Some(f))
  {
    var tests, a, b := TestsOf(f), |SinceTests(f)|, |SinceTests(f)| + |OlderTests(f)|;
    assert f.createdSince.Some? ==> tests[0] == SinceTests(f)[0];
    assert f.olderThan.Some? ==> tests[a] == OlderTests(f)[0];
    assert f.status.Some? ==> tests[b] == StatusTests(f)[0];
  }

  lemma {:induction false} ConditionsTextAppends(conditions: seq<Condition>, c: Condition)
    ensures ConditionsText(conditions + [c]) == ConditionsText(conditions) + ConditionText(c)
  {
    hide ConditionText;
    if conditions == [] {
      assert [] + [c] == [c];
      assert ConditionsText([c][1..]) == [];
    } else {
      assert (conditions + [c])[1..] == conditions[1..] + [c];
      ConditionsTextAppends(conditions[1..], c);
    }
  }

  /** One test more, the n-th of them, is one text more. */
  lemma OneTestMore(tests: seq<Test>, test: Test)
    ensures ConditionsText(Numbered(tests + [test]))
         == ConditionsText(Numbered(tests)) + ConditionText(Condition(test.column, test.op, |tests| + 1))
  {
    hide ConditionsText, ConditionText;
    var c := Condition(test.column, test.op, |tests| + 1);
    ConditionsTextAppends(Numbered(tests), c);
    assert Numbered(tests + [test]) == Numbered(tests) + [c];
  }

  /** The text of the test, up to the number of its placeholder */
  predicate Writes(text: string, test: Test) {
    text == " AND " + test.column + " " + test.op + " $"
  }

  lemma TextsWriteTests(t: Time, status: Int32)
    ensures Writes(" AND create_date >= $", Test("create_date", ">=", TimeArg(t)))
    ensures Writes(" AND create_date < $", Test("create_date", "<", TimeArg(t)))
    ensures Writes(" AND status = $", Test("status", "=", StatusArg(status)))
  {
  }

  lemma SmallDecimals()
    ensures Decimal(1) == "1" && Decimal(2) == "2" && Decimal(3) == "3"
  {
  }

  lemma OneInFull(test: Test, text: string, n: nat)
    requires Writes(text, test)
    ensures ConditionText(Condition(test.column, test.op, n)) == text + Decimal(n)
  {
    hide Decimal;
  }

  lemma NoMoreText(tests: seq<Test>)
    ensures tests + [] == tests && ConditionsText(Numbered(tests)) + "" == ConditionsText(Numbered(tests))
    ensures ConditionsText(Numbered([])) == ""
  {
  }

  /** The conditions of a filter, as they are sent */
  function SinceText(f: ListFilter): string {
    if f.createdSince.None? then "" else " AND create_date >= $" + "1"
  }

  function OlderText(f: ListFilter): string {
    if f.olderThan.None? then "" else " AND create_date < $" + if f.createdSince.Some? then "2" else "1"
  }

  function StatusText(f: ListFilter): string {
    if f.status.None? then ""
    else " AND status = $" + (if f.createdSince.Some? && f.olderThan.Some? then "3"
                              else if f.createdSince.Some? || f.olderThan.Some? then "2" else "1")
  }

  lemma SinceInFull(f: ListFilter)
    ensures ConditionsText(Numbered(SinceTests(f))) == SinceText(f)
  {
    NoMoreText([]);
    if f.createdSince.Some? {
      var test := SinceTests(f)[0];
      assert [] + SinceTests(f) == SinceTests(f);
      OneTestMore([], test);
      TextsWriteTests(test.arg.t, 0);
      SmallDecimals();
      hide ConditionsText, ConditionText, Numbered, Decimal, Writes;
      OneInFull(test, " AND create_date >= $", 1);
    }
  }

  lemma OlderInFull(f: ListFilter)
    ensures ConditionsText(Numbered(SinceTests(f) + OlderTests(f))) == SinceText(f) + OlderText(f)
  {
    hide ConditionsText, ConditionText, Numbered, Decimal, Writes;
    var since := SinceTests(f);
    SinceInFull(f);
    NoMoreText(since);
    if f.olderThan.Some? {
      var test := OlderTests(f)[0];
      OneTestMore(since, test);
      TextsWriteTests(test.arg.t, 0);
      SmallDecimals();
      OneInFull(test, " AND create_date < $", |since| + 1);
      hide SinceText;
    }
  }

  /** The text of the conditions: for each part of the filter its own, with its place among those present */
  lemma ConditionsInFull(f: ListFilter)
    ensures ConditionsText(Numbered(TestsOf(f))) == SinceText(f) + OlderText(f) + StatusText(f)
  {
    hide ConditionsText, ConditionText, Numbered, Decimal, Writes, SinceText, OlderText;
    var older := SinceTests(f) + OlderTests(f);
    OlderInFull(f);
    NoMoreText(older);
    if f.status.Some? {
      var test := StatusTests(f)[0];
      OneTestMore(older, test);
      TextsWriteTests(0, test.arg.status);
      SmallDecimals();
      OneInFull(test, " AND status = $", |older| + 1);
    }
  }

  /** The text that is sent: for each part of the filter that is present its condition, numbered in order, then a limit
      if there is a page size, and the order at the very end. */
  lemma TextInFull(f: ListFilter)
    ensures RestText(Some(f)) ==
            (if f.createdSince.None? then "" else " AND create_date >= $" + "1")
            + (if f.olderThan.None? then "" else " AND create_date < $" + if f.createdSince.Some? then "2" else "1")
            + (if f.status.None? then ""
               else " AND status = $" + (if f.createdSince.Some? && f.olderThan.Some? then "3"
                                         else if f.createdSince.Some? || f.olderThan.Some? then "2" else "1"))
            + (if f.pageSize <= 0 then "" else " LIMIT $" + Decimal(|TestsOf(f)| + 1))
            + " ORDER BY id"
  {
    ConditionsInFull(f);
    hide ConditionsText, Numbered, TestsOf, Decimal;
  }

  lemma RowsOfTests(row: Row, filter: Option<ListFilter>)
    ensures Selected(row, Query(Numbered(TestsFor(filter)), None), Arguments(TestsFor(filter)))
            <==> FilterAccepts(row, filter)
  {
    hide Selected, FilterAccepts, TestsOf, Relates;
    SelectedByTests(row, TestsFor(filter));
    if filter.Some? {
      TestsAreTheFilter(row, filter.value);
    } else {
      NoFilterAcceptsAll(row);
    }
  }

  lemma NoFilterAcceptsAll(row: Row)
    ensures FilterAccepts(row, None)
  {
  }

  lemma UnpagedMeans(filter: Option<ListFilter>)
    requires Unpaged(filter)
    ensures ReadRest(RestText(filter)) == Some(Query(Numbered(TestsFor(filter)), None))
    ensures QueryArgs(filter) == Arguments(TestsFor(filter))
  {
    hide ReadRest, ConditionsText, WellFormed, TestsOf, Arguments, Numbered;
    if filter.Some? {
      TestsAreWellFormed(filter.value);
    } else {
      NoTests();
    }
    UnpagedTextIsAQuery(Numbered(TestsFor(filter)));
  }

  lemma NoTests()
    ensures Numbered([]) == [] && Arguments([]) == []
  {
  }

  lemma PagedMeans(filter: Option<ListFilter>)
    requires !Unpaged(filter)
    ensures ReadRest(RestText(filter)).None?
  {
    hide ReadRest, ConditionsText, WellFormed, TestsOf, Numbered, Decimal;
    TestsAreWellFormed(filter.value);
    PagedTextIsNoQuery(Numbered(TestsFor(filter)), |TestsFor(filter)| + 1);
  }

  lemma InOrder(tests: seq<Test>)
    ensures forall i | 0 <= i < |tests| :: Numbered(tests)[i].placeholder == i + 1
  {
  }

  /** The text is a query exactly when no page size is given. Then its placeholders are $1 to $n in order,
      n being the number of arguments, and it selects exactly the rows that the filter accepts. */
  lemma TextMeans(filter: Option<ListFilter>)
    ensures ReadRest(RestText(filter)).Some? <==> Unpaged(filter)
    ensures Unpaged(filter) ==>
              var q := ReadRest(RestText(filter)).value;
              && q.limit == None && |q.conditions| == |QueryArgs(filter)|
              && (forall i | 0 <= i < |q.conditions| :: q.conditions[i].placeholder == i + 1)
              && forall row: Row :: Selected(row, q, QueryArgs(filter)) <==> FilterAccepts(row, filter)
  {
    hide ReadRest, RestText, QueryArgs, Numbered, Arguments, TestsFor, Selected, FilterAccepts, Unpaged;
    if Unpaged(filter) {
      UnpagedMeans(filter);
      InOrder(TestsFor(filter));
      forall row: Row ensures Selected(row, ReadRest(RestText(filter)).value, QueryArgs(filter))
                              <==> FilterAccepts(row, filter)
      {
        RowsOfTests(row, filter);
      }
    } else {
      PagedMeans(filter);
    }
  }

  // ---------- The builder ----------

  /** The state of the builder: the text and the arguments so far are those of the tests so far. */
  ghost predicate Building(query: string, args: seq<Arg>, argIdx: int, tests: seq<Test>) {
    query == SelectUsers() + ConditionsText(Numbered(tests)) && args == Arguments(tests) && argIdx == |tests| + 1
  }

  /** One conditional step of the builder: the text of a condition, its placeholder and its argument */
  method AddCondition(query: string, args: seq<Arg>, argIdx: nat, text: string, arg: Arg, ghost test: Test,
                      ghost tests: seq<Test>)
    returns (query': string, args': seq<Arg>, argIdx': nat)
    requires Building(query, args, argIdx, tests)
    requires test.arg == arg && Writes(text, test)
    ensures Building(query', args', argIdx', tests + [test])
  {
    hide SelectUsers, Decimal, ConditionsText;
    query' := query + (text + Decimal(argIdx));
    args', argIdx' := args + [arg], argIdx + 1;
    ghost var c := Condition(test.column, test.op, argIdx);
    ConditionsTextAppends(Numbered(tests), c);
    assert Numbered(tests + [test]) == Numbered(tests) + [c];
    assert query' == SelectUsers() + ConditionsText(Numbered(tests + [test]));
  }

  /** The conditions of a filter, one after the other */
  method AddConditions(f: ListFilter) returns (query: string, args: seq<Arg>, argIdx: nat)
    ensures Building(query, args, argIdx, TestsOf(f))
  {
    hide SelectUsers, Decimal, ConditionsText, Building, Writes;
    query, args, argIdx := SelectUsers(), [], 1;
    NothingBuilt();
    ghost var tests := [];
    if f.createdSince.Some? {
      var t := FromUnix(f.createdSince.value);
      TextsWriteTests(t, 0);
      query, args, argIdx := AddCondition(query, args, argIdx, " AND create_date >= $", TimeArg(t),
                                          Test("create_date", ">=", TimeArg(t)), tests);
    }
    tests := SinceTests(f);
    assert [] + tests == tests;
    assert Building(query, args, argIdx, tests);
    if f.olderThan.Some? {
      var t := FromUnix(f.olderThan.value);
      TextsWriteTests(t, 0);
      query, args, argIdx := AddCondition(query, args, argIdx, " AND create_date < $", TimeArg(t),
                                          Test("create_date", "<", TimeArg(t)), tests);
    }
    assert tests + [] == tests;
    tests := tests + OlderTests(f);
    assert Building(query, args, argIdx, tests);
    if f.status.Some? {
      TextsWriteTests(0, f.status.value);
      query, args, argIdx := AddCondition(query, args, argIdx, " AND status = $", StatusArg(f.status.value),
                                          Test("status", "=", StatusArg(f.status.value)), tests);
    }
    assert tests + [] == tests;
  }

  lemma ReadAfterSelect(rest: string)
    ensures ReadQuery(SelectUsers() + rest) == ReadRest(rest)
  {
    hide SelectUsers, ReadRest;
    assert (SelectUsers() + rest)[|SelectUsers()|..] == rest;
  }

  /** The text of the query and its arguments, built step by step; what they mean is read off the text. */
  method BuildQuery(filter: Option<ListFilter>) returns (query: string, args: seq<Arg>)
    ensures query == SelectUsers() + RestText(filter) && args == QueryArgs(filter)
    ensures ReadQuery(query) == ReadRest(RestText(filter))
    ensures ReadQuery(query).Some? <==> Unpaged(filter)
    ensures Unpaged(filter) ==>
              forall row: Row :: Selected(row, ReadQuery(query).value, args) <==> FilterAccepts(row, filter)
  {
    hide SelectUsers, ReadQuery, ReadRest, Decimal, ConditionsText, Selected, FilterAccepts, TestsOf;
    TextMeans(filter);
    ReadAfterSelect(RestText(filter));
    if filter.None? {
      NothingBuilt();
      query, args := SelectUsers() + ORDER_BY, [];
    } else {
      var f := filter.value;
      var argIdx;
      query, args, argIdx := AddConditions(f);
      if f.pageSize > 0 {
        query, args := query + (LIMIT + Decimal(argIdx)), args + [LimitArg(f.pageSize)];
        query := query + ORDER_BY;
        Associate(SelectUsers(), ConditionsText(Numbered(TestsOf(f))), LIMIT + Decimal(argIdx), ORDER_BY);
      } else {
        query := query + ORDER_BY;
        Associate(SelectUsers(), ConditionsText(Numbered(TestsOf(f))), ORDER_BY, []);
      }
    }
  }

  lemma Associate(a: string, b: string, c: string, d: string)
    ensures a + b + c + d == a + (b + (c + d)) && c + [] == c && a + b + c == a + (b + c)
  {
  }

  lemma NothingBuilt()
    ensures Building(SelectUsers(), [], 1, [])
  {
    hide SelectUsers;
    assert SelectUsers() + ConditionsText([]) == SelectUsers();
  }

  // ---------- The listing of a request ----------

  /** The text for a request selects the row. */
  predicate Lists(row: Row, req: ListRequest, now: Time) {
    SelectedBy(row, RestText(Some(FilterOf(req, now))), QueryArgs(Some(FilterOf(req, now))))
  }

  lemma ListsByFilter(row: Row, req: ListRequest, now: Time)
    ensures Lists(row, req, now) <==> req.pageSize <= 0 && FilterAccepts(row, Some(FilterOf(req, now)))
  {
    TextMeans(Some(FilterOf(req, now)));
    hide RestText, QueryArgs, ReadRest, Selected, FilterAccepts;
  }

  /** Created at or after created_since and at least one second before now - older_than, in the status */
  predicate ClearInTable(row: Row, req: ListRequest, now: Time) {
    && (req.createdSince.Some? ==> req.createdSince.value <= row.createDate)
    && (req.olderThan.Some? ==> row.createDate + SECOND <= now - req.olderThan.value)
    && (req.status != INACTIVE ==> row.status == req.status)
  }

  lemma SelectedIsWithinBounds(row: Row, req: ListRequest, now: Time)
    requires Lists(row, req, now) && (req.olderThan.Some? ==> req.olderThan.value <= MAX_INT64)
    ensures WithinBounds(row.createDate, row.status, req, now)
  {
    ListsByFilter(row, req, now);
    hide Lists;
    if req.createdSince.Some? {
      UnixBounds(req.createdSince.value);
    }
    if req.olderThan.Some? {
      UnixBounds(now + Wrap64(-Saturate(req.olderThan.value)));
    }
  }

  lemma ClearIsSelected(row: Row, req: ListRequest, now: Time)
    requires req.pageSize <= 0 && ClearInTable(row, req, now)
    requires req.olderThan.Some? ==> MIN_INT64 < req.olderThan.value
    ensures Lists(row, req, now)
  {
    ListsByFilter(row, req, now);
    hide Lists;
    if req.createdSince.Some? {
      UnixBounds(req.createdSince.value);
    }
    if req.olderThan.Some? {
      UnixBounds(now + Wrap64(-Saturate(req.olderThan.value)));
    }
  }

  /** With older_than beyond 2^63 - 1 nanoseconds, someone is selected who is not that old. */
  lemma SelectedTooYoung(req: ListRequest) returns (now: Time, row: Row)
    requires req.pageSize <= 0 && req.olderThan.Some? && req.olderThan.value > MAX_INT64
    ensures Lists(row, req, now) && !WithinBounds(row.createDate, row.status, req, now)
  {
    var d, since := req.olderThan.value, if req.createdSince.Some? then req.createdSince.value else 0;
    var seconds := d + if since > 0 then since else 0;
    now := MAX_INT64 + FromUnix(seconds);
    row := Row(now - d, req.status);
    CutoffOfLong(now, d, seconds);
    UnixBounds(since);
    hide Lists, Cutoff, Unix;
    ListsByFilter(row, req, now);
  }

  /** With older_than of -2^63 nanoseconds or less, someone who is old enough is not selected. */
  lemma ClearNotSelected(req: ListRequest) returns (now: Time, row: Row)
    requires req.pageSize <= 0 && req.olderThan.Some? && req.olderThan.value <= MIN_INT64
    ensures ClearInTable(row, req, now) && !Lists(row, req, now)
  {
    now := if req.createdSince.Some? && req.createdSince.value > 0 then req.createdSince.value else 0;
    row := Row(now - req.olderThan.value - SECOND, req.status);
    CutoffOfLeast(now, req.olderThan.value);
    hide Lists, Cutoff, FromUnix, Unix;
    ListsByFilter(row, req, now);
  }

  /** The text against the bounds of the request, for every row and every clock: whoever it selects is within them
      exactly when older_than fits an int64 from above, and it selects everyone who is clear of them exactly when
      older_than can be negated. */
  lemma SelectionAgainstBoundsExactly(req: ListRequest)
    requires req.pageSize <= 0
    ensures (forall now: Time, row: Row | Lists(row, req, now) ::
               WithinBounds(row.createDate, row.status, req, now))
            <==> (req.olderThan.Some? ==> req.olderThan.value <= MAX_INT64)
    ensures (forall now: Time, row: Row | ClearInTable(row, req, now) :: Lists(row, req, now))
            <==> (req.olderThan.Some? ==> MIN_INT64 < req.olderThan.value)
  {
    hide Lists, WithinBounds, ClearInTable;
    if req.olderThan.Some? && req.olderThan.value > MAX_INT64 {
      var now, row := SelectedTooYoung(req);
    } else {
      forall now: Time, row: Row | Lists(row, req, now) ensures WithinBounds(row.createDate, row.status, req, now) {
        SelectedIsWithinBounds(row, req, now);
      }
    }
    if req.olderThan.Some? && req.olderThan.value <= MIN_INT64 {
      var now, row := ClearNotSelected(req);
    } else {
      forall now: Time, row: Row | ClearInTable(row, req, now) ensures Lists(row, req, now) {
        ClearIsSelected(row, req, now);
      }
    }
  }

  // ---------- The two backends compared ----------

  /** The row that the table holds for a user */
  function RowOf(u: User): Row {
    Row(AsTime(u.createDate), u.status)
  }

  /** Where the in-memory listing is stricter: the time between its two readings of the clock counts against
      the user, and so does an age that saturates. */
  predicate AgeCounts(u: User, f: ListFilter, clock: Readings) {
    f.olderThan.Some? ==>
      && AsTime(u.createDate) < FromUnix(f.olderThan.value) - (clock.second - clock.first)
      && clock.second - FromUnix(f.olderThan.value) < MAX_INT64
      && MIN_INT64 < clock.first - AsTime(u.createDate)
  }

  /** The in-memory filter passes exactly the users that the database selects and whose age counts; with a
      clock that does not run backwards it never passes one that the database would not select. */
  lemma MemoryAgainstDatabase(u: User, f: ListFilter, clock: Readings)
    requires clock.first <= clock.second
    ensures Passes(u, f, clock) <==> FilterAccepts(RowOf(u), Some(f)) && AgeCounts(u, f, clock)
  {
    PassesExactly(u, f, clock);
    hide Passes;
  }
}
