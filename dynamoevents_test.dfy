/**
 * The scenarios of the DynamoDB event-log tests, replayed on the model:
 * the predicate compiler's worked example, the two day-range examples,
 * both migrations end to end, and checkpoint chaining over a descending
 * search. Each scenario states as its contract what the test asserts.
 */
module DynamoeventsTests {
  import opened Wrappers
  import opened Seqs
  import opened Decimal
  import opened Calendar
  import opened DayRange
  import opened FilterExpr
  import opened AuditEvents
  import opened Migrations
  import opened Pagination

  /** The test's start instants, all at 08:05:00 UTC. */
  const April9: int := UnixTime(Date(2021, 4, 9), 8, 5, 0)
  const April10: int := UnixTime(Date(2021, 4, 10), 8, 5, 0)
  const August30: int := UnixTime(Date(2021, 8, 30), 8, 5, 0)
  const Hour: int := 3600

  const TestEventType: string := "test.event"
  const SessionEndEvent: string := "session.end"
  const UserLoginEvent: string := "user.login"

  // ----- TestFromWhereExpr -----

  /** !(equals(login, root) || equals(login, admin)) && contains(participants, user) */
  function Condition(login: string, participants: string, root: string, admin: string, user: string): WhereExpr {
    And(Not(Or(Equals(Field(login), Literal(root)), Equals(Field(login), Literal(admin)))),
        Contains(Field(participants), Literal(user)))
  }

  const ExampleCondition: WhereExpr := Condition("login", "participants", "root", "admin", "test-user")

  /**
   * The filter string the test expects,
   * "(NOT ((FieldsMap.#condName0 = :condValue0) OR (FieldsMap.#condName0 = :condValue1))) AND (contains(FieldsMap.#condName1, :condValue2))",
   * split where the compiler joins its parts.
   */
  const ExampleFilter: string :=
    "(" + "NOT (" + "(" + "FieldsMap.#condName0" + " = " + ":condValue0" + ") " + "OR" + " ("
    + "FieldsMap.#condName0" + " = " + ":condValue1" + ")" + ")" + ") " + "AND" + " ("
    + "contains(" + "FieldsMap.#condName1" + ", " + ":condValue2" + ")" + ")"

  const ExampleBindings: Bindings := Bindings(["login", "participants"], ["root", "admin", "test-user"])

  /** The shape of the test's condition compiled, whatever its names and literals. */
  function ConditionText(): string {
    var login, participants := FieldsRoot + NameAlias(0), FieldsRoot + NameAlias(1);
    ConnectiveText("AND",
      NegationText(ConnectiveText("OR", ComparisonText(false, login, ValueAlias(0)),
                                        ComparisonText(false, login, ValueAlias(1)))),
      ComparisonText(true, participants, ValueAlias(2)))
  }

  /**
   * The repeated field is bound once, the other field gets the next alias,
   * and each of the three literals gets its own placeholder, left to right.
   */
  lemma ConditionCompiles(login: string, participants: string, root: string, admin: string, user: string)
    requires login != "" && participants != "" && login != participants
    ensures Compile(Condition(login, participants, root, admin, user), EmptyBindings) ==
      Compiled(Success(ConditionText()), Bindings([login, participants], [root, admin, user]))
  {
    var e := Condition(login, participants, root, admin, user);
    var n1 := FieldsRoot + NameAlias(1);
    var b2 := Bindings([login], [root, admin]);
    var b3, b4 := Bindings([login, participants], [root, admin]), Bindings([login, participants], [root, admin, user]);
    EitherCompiles(login, root, admin);
    assert [login] + [participants] == [login, participants] && [root, admin] + [user] == [root, admin, user];
    assert IndexOf(b2.names, participants) == None by {
      assert b2.names == [login];
    }
    assert Operand(Field(participants), b2) == (n1, b3);
    assert Operand(Literal(user), b3) == (ValueAlias(2), b4);
    assert Compile(e.r, b2) == Compiled(Success(ComparisonText(true, n1, ValueAlias(2))), b4);
  }

  /** The negated disjunction: one alias for both comparisons of `login`, two placeholders. */
  lemma EitherCompiles(login: string, root: string, admin: string)
    requires login != ""
    ensures Compile(Not(Or(Equals(Field(login), Literal(root)), Equals(Field(login), Literal(admin)))), EmptyBindings) ==
      Compiled(Success(NegationText(ConnectiveText("OR", ComparisonText(false, FieldsRoot + NameAlias(0), ValueAlias(0)),
                                                         ComparisonText(false, FieldsRoot + NameAlias(0), ValueAlias(1))))),
               Bindings([login], [root, admin]))
  {
    var n0 := FieldsRoot + NameAlias(0);
    var b0, b1, b2 := Bindings([login], []), Bindings([login], [root]), Bindings([login], [root, admin]);
    assert [] + [login] == [login] && [] + [root] == [root] && [root] + [admin] == [root, admin];
    assert IndexOf(EmptyBindings.names, login) == None;
    assert Operand(Field(login), EmptyBindings) == (n0, b0);
    assert Operand(Literal(root), b0) == (ValueAlias(0), b1);
    assert Compile(Equals(Field(login), Literal(root)), EmptyBindings) ==
      Compiled(Success(ComparisonText(false, n0, ValueAlias(0))), b1);
    assert IndexOf(b1.names, login) == Some(0);
    assert Operand(Field(login), b1) == (n0, b1);
    assert Operand(Literal(admin), b1) == (ValueAlias(1), b2);
    assert Compile(Equals(Field(login), Literal(admin)), b1) ==
      Compiled(Success(ComparisonText(false, n0, ValueAlias(1))), b2);
    var either := Or(Equals(Field(login), Literal(root)), Equals(Field(login), Literal(admin)));
    assert Compile(either, EmptyBindings) == Compiled(Success(ConnectiveText("OR",
      ComparisonText(false, n0, ValueAlias(0)), ComparisonText(false, n0, ValueAlias(1)))), b2);
  }

  /** The compiled shape over any alias strings, flattened. */
  lemma ShapeText(n0: string, n1: string, v0: string, v1: string, v2: string)
    ensures ConnectiveText("AND",
              NegationText(ConnectiveText("OR", ComparisonText(false, n0, v0), ComparisonText(false, n0, v1))),
              ComparisonText(true, n1, v2)) ==
      "(" + "NOT (" + "(" + n0 + " = " + v0 + ") " + "OR" + " (" + n0 + " = " + v1 + ")" + ")" + ") " + "AND" + " ("
      + "contains(" + n1 + ", " + v2 + ")" + ")"
  {
  }

  /** The shape written out with the numbers 0, 1 and 2 is the test's string. */
  lemma ConditionTextIs()
    ensures ConditionText() == ExampleFilter
  {
    var n0, n1 := FieldsRoot + NameAlias(0), FieldsRoot + NameAlias(1);
    assert n0 == "FieldsMap.#condName0" && n1 == "FieldsMap.#condName1";
    assert ValueAlias(0) == ":condValue0" && ValueAlias(1) == ":condValue1" && ValueAlias(2) == ":condValue2";
    ShapeText(n0, n1, ValueAlias(0), ValueAlias(1), ValueAlias(2));
  }

  /** The expected filter string; "login" is bound once, each literal has its own placeholder. */
  lemma FromWhereExprExample()
    ensures Compile(ExampleCondition, EmptyBindings) == Compiled(Success(ExampleFilter), ExampleBindings)
  {
    ConditionCompiles("login", "participants", "root", "admin", "test-user");
    ConditionTextIs();
  }

  /** `attrNames` as the test expects it. */
  lemma ExampleNames()
    ensures NameBindings(ExampleBindings.names) == map["#condName0" := "login", "#condName1" := "participants"]
  {
    assert NameAlias(0) == "#condName0" && NameAlias(1) == "#condName1";
    var names := ExampleBindings.names;
    assert names[..1] == ["login"] && ["login"][..0] == [];
    assert NameBindings([]) == map[];
    assert NameBindings(["login"]) == map[NameAlias(0) := "login"];
  }

  /** `attrValues` as the test expects it. */
  lemma ExampleValues()
    ensures ValueBindings(ExampleBindings.values) ==
      map[":condValue0" := "root", ":condValue1" := "admin", ":condValue2" := "test-user"]
  {
    assert ValueAlias(0) == ":condValue0" && ValueAlias(1) == ":condValue1" && ValueAlias(2) == ":condValue2";
    var values := ExampleBindings.values;
    assert values[..2] == ["root", "admin"] && ["root", "admin"][..1] == ["root"] && ["root"][..0] == [];
    assert ValueBindings([]) == map[];
    assert ValueBindings(["root"]) == map[ValueAlias(0) := "root"];
    assert ValueBindings(["root", "admin"]) == map[ValueAlias(0) := "root", ValueAlias(1) := "admin"];
  }

  /** The test itself: fresh empty params, one call, the string and both maps. */
  method TestFromWhereExpr() returns (expr: Result<string, CompileError>,
                                      attrNames: map<string, string>, attrValues: map<string, string>)
    ensures expr == Success(ExampleFilter)
    ensures attrNames == map["#condName0" := "login", "#condName1" := "participants"]
    ensures attrValues == map[":condValue0" := "root", ":condValue1" := "admin", ":condValue2" := "test-user"]
  {
    var params := new CondFilterParams();
    expr := params.FromWhereExpr(ExampleCondition);
    FromWhereExprExample();
    ExampleNames();
    ExampleValues();
    attrNames, attrValues := params.AttrNames(), params.AttrValues();
  }

  // ----- TestDateRangeGenerator -----

  /** Day number `z` is the date `y`-`m`-`d`. */
  predicate DayIs(z: int, y: int, m: int, d: int) {
    CivilFromDays(z).year == y && CivilFromDays(z).month == m && CivilFromDays(z).day == d
  }

  /** The test's start instants fall on the dates they were built from. */
  lemma StartDays()
    ensures DayIs(DayNumber(April9), 2021, 4, 9)
    ensures DayIs(DayNumber(April10), 2021, 4, 10)
    ensures DayIs(DayNumber(August30), 2021, 8, 30)
  {
    UnixTimeDate(Date(2021, 4, 9), 8, 5, 0);
    UnixTimeDate(Date(2021, 4, 10), 8, 5, 0);
    UnixTimeDate(Date(2021, 8, 30), 8, 5, 0);
  }

  lemma April10Key(z: int)
    requires DayIs(z, 2021, 4, 10)
    ensures FormatDate(CivilFromDays(z)) == "2021-04-10"
  {
    FormatDateIs(CivilFromDays(z), "2021-04-10");
  }

  lemma April11Key(z: int)
    requires DayIs(z, 2021, 4, 10)
    ensures FormatDate(CivilFromDays(z + 1)) == "2021-04-11"
  {
    CivilFromDaysSameMonth(z, 1);
    FormatDateIs(CivilFromDays(z + 1), "2021-04-11");
  }

  lemma April12Key(z: int)
    requires DayIs(z, 2021, 4, 10)
    ensures FormatDate(CivilFromDays(z + 2)) == "2021-04-12"
  {
    CivilFromDaysSameMonth(z, 2);
    FormatDateIs(CivilFromDays(z + 2), "2021-04-12");
  }

  lemma April13Key(z: int)
    requires DayIs(z, 2021, 4, 10)
    ensures FormatDate(CivilFromDays(z + 3)) == "2021-04-13"
  {
    CivilFromDaysSameMonth(z, 3);
    FormatDateIs(CivilFromDays(z + 3), "2021-04-13");
  }

  lemma April14Key(z: int)
    requires DayIs(z, 2021, 4, 10)
    ensures FormatDate(CivilFromDays(z + 4)) == "2021-04-14"
  {
    CivilFromDaysSameMonth(z, 4);
    FormatDateIs(CivilFromDays(z + 4), "2021-04-14");
  }

  lemma August30Key(z: int)
    requires DayIs(z, 2021, 8, 30)
    ensures FormatDate(CivilFromDays(z)) == "2021-08-30"
  {
    FormatDateIs(CivilFromDays(z), "2021-08-30");
  }

  lemma August31Key(z: int)
    requires DayIs(z, 2021, 8, 30)
    ensures FormatDate(CivilFromDays(z + 1)) == "2021-08-31"
  {
    CivilFromDaysSameMonth(z, 1);
    FormatDateIs(CivilFromDays(z + 1), "2021-08-31");
  }

  lemma September1Key(z: int)
    requires DayIs(z, 2021, 8, 30)
    ensures FormatDate(CivilFromDays(z + 2)) == "2021-09-01"
  {
    CivilFromDaysSameMonth(z, 1);
    CivilFromDaysNext(z + 1);
    FormatDateIs(CivilFromDays(z + 2), "2021-09-01");
  }

  /** A sequence of three elements is the display of them. */
  lemma ThreeElements<T>(s: seq<T>)
    requires |s| == 3
    ensures s == [s[0], s[1], s[2]]
  {
  }

  /** A sequence of five elements is the display of them. */
  lemma FiveElements<T>(s: seq<T>)
    requires |s| == 5
    ensures s == [s[0], s[1], s[2], s[3], s[4]]
  {
  }

  /**
   * Four days inside April 2021 from any instant of 2021-04-10 (the test
   * starts at 08:05 UTC, `April10`): five keys, one per day.
   */
  lemma DateRangeWithinMonth(start: int)
    requires DayIs(DayNumber(start), 2021, 4, 10)
    ensures DaysBetween(start, start + 24 * 4 * Hour) ==
      ["2021-04-10", "2021-04-11", "2021-04-12", "2021-04-13", "2021-04-14"]
  {
    var z := DayNumber(start);
    DayNumberShift(start, 4);
    April10Key(z);
    April11Key(z);
    April12Key(z);
    April13Key(z);
    April14Key(z);
    DaysBetweenSpec(start, start + 24 * 4 * Hour);
    FiveElements(DaysBetween(start, start + 24 * 4 * Hour));
  }

  /**
   * Two days from any instant of 2021-08-30 (the test starts at 08:05 UTC,
   * `August30`), crossing into September: three keys.
   */
  lemma DateRangeAcrossMonths(start: int)
    requires DayIs(DayNumber(start), 2021, 8, 30)
    ensures DaysBetween(start, start + 24 * 2 * Hour) == ["2021-08-30", "2021-08-31", "2021-09-01"]
  {
    var z := DayNumber(start);
    DayNumberShift(start, 2);
    August30Key(z);
    August31Key(z);
    September1Key(z);
    DaysBetweenSpec(start, start + 24 * 2 * Hour);
    ThreeElements(DaysBetween(start, start + 24 * 2 * Hour));
  }

  // ----- TestRFD24Migration -----

  /** A record of shape `preRFD24event`: no partition key, payload the JSON string "{}". */
  function PreRFD24Event(sessionID: string, index: int, createdAt: int): Event {
    Event(sessionID, index, TestEventType, createdAt, None, Some("{}"), DefaultNamespace, None, None)
  }

  /**
   * Ten legacy records one day apart from `start`, then the backfill, then
   * an ascending search from a day before `start` for 11 days: ten writes,
   * ten results, each with the UTC date of its creation time. The test
   * starts at `April10` and searches from `April9`; any start behaves alike.
   */
  method RFD24Migration(sessionID: string, start: int, fetchCap: Pos) returns (writes: nat, found: seq<Event>)
    ensures writes == 10
    ensures |found| == 10
    ensures forall i :: 0 <= i < |found| ==> DateConsistent(found[i]) && found[i].EventIndex == i
  {
    var items: seq<Event> := [];
    var i := 0;
    while i < 10
      invariant 0 <= i <= 10 && |items| == i
      invariant forall j :: 0 <= j < i ==> items[j] == PreRFD24Event(sessionID, j, start + SecondsPerDay * j)
    {
      items := items + [PreRFD24Event(sessionID, i, start + SecondsPerDay * i)];
      i := i + 1;
    }
    var table := new EventTable(items);
    CountMissingDateAll(items);
    writes := table.MigrateDateAttribute();
    MigrateDatesSpec(items);
    var migrated := table.items;
    var from := start - SecondsPerDay;
    var q := Query(from, from + 24 * 11 * Hour, DefaultNamespace, [TestEventType], Ascending);
    assert forall j :: 0 <= j < |migrated| ==>
      && migrated[j].CreatedAt == start + SecondsPerDay * j
      && migrated[j].EventIndex == j && migrated[j].EventType == TestEventType
      && migrated[j].EventNamespace == DefaultNamespace;
    assert IndexOrdered(migrated);
    SearchWholeStore(migrated, q, 1000);
    var r := Search(migrated, q, 1000, "", fetchCap);
    found := r.value.events;
  }

  // ----- TestFieldsMapMigration -----

  /**
   * A record of shape `eventWithJSONFields` created at `t`: on days of the
   * month divisible by 3 a session end carrying `sessionEndJSON`, otherwise
   * a test event carrying "{}".
   */
  function JSONFieldsEvent(sessionID: string, index: int, t: int, sessionEndJSON: string): Event {
    var sessionEnd := DateOf(t).day % 3 == 0;
    Event(sessionID, index, if sessionEnd then SessionEndEvent else TestEventType, t, None,
          Some(if sessionEnd then sessionEndJSON else "{}"), DefaultNamespace, Some(DateString(t)), None)
  }

  /** The j-th record is the `eventWithJSONFields` record of index j, created j days after `first`. */
  predicate JSONFieldsRun(items: seq<Event>, sessionID: string, first: int, sessionEndJSON: string) {
    forall j :: 0 <= j < |items| ==>
      items[j] == JSONFieldsEvent(sessionID, j, first + SecondsPerDay * j, sessionEndJSON)
  }

  /** A day-spaced run of such records: each converts to the payload of its type. */
  lemma JSONFieldsTable(items: seq<Event>, sessionID: string, first: int, parse: Parser,
                        sessionEndJSON: string, sessionEndFields: EventFields)
    requires parse("{}") == Some(map[])
    requires parse(sessionEndJSON) == Some(sessionEndFields)
    requires JSONFieldsRun(items, sessionID, first, sessionEndJSON)
    ensures ConvertibleRun(items, first, parse, sessionEndFields)
  {
  }

  /**
   * Records a day apart from `first`, in index order, each convertible to
   * the payload of its type.
   */
  predicate ConvertibleRun(items: seq<Event>, first: int, parse: Parser, sessionEndFields: EventFields) {
    forall j :: 0 <= j < |items| ==>
      && Convertible(items[j], parse)
      && parse(items[j].Fields.value) == Some(if items[j].EventType == SessionEndEvent then sessionEndFields else map[])
      && items[j].CreatedAt == first + SecondsPerDay * j
      && items[j].EventIndex == j && items[j].EventNamespace == DefaultNamespace
  }

  /**
   * Twenty records a day apart from a minute after `from`, then the
   * conversion, then an ascending search of the twenty days: every result
   * carries the decoded payload of its type. `parse` decodes JSON. The test
   * starts from `April9`; any start behaves alike.
   */
  method FieldsMapMigration(sessionID: string, from: int, parse: Parser, sessionEndJSON: string,
                            sessionEndFields: EventFields, fetchCap: Pos) returns (failed: seq<nat>, found: seq<Event>)
    requires parse("{}") == Some(map[])
    requires parse(sessionEndJSON) == Some(sessionEndFields)
    ensures failed == []
    ensures |found| == 20
    ensures forall i :: 0 <= i < |found| ==>
      found[i].FieldsMap == Some(if found[i].EventType == SessionEndEvent then sessionEndFields else map[])
  {
    var items := EmitJSONFieldsEvents(sessionID, from, sessionEndJSON);
    JSONFieldsTable(items, sessionID, from + 60, parse, sessionEndJSON, sessionEndFields);
    failed, found := ConvertAndSearch(items, from, parse, sessionEndFields, fetchCap);
  }

  /** The emitting loop of the test: one record per day, from a minute after `from`, for twenty days. */
  method EmitJSONFieldsEvents(sessionID: string, from: int, sessionEndJSON: string) returns (items: seq<Event>)
    ensures |items| == 20
    ensures JSONFieldsRun(items, sessionID, from + 60, sessionEndJSON)
  {
    var end := from + 20 * SecondsPerDay;
    items := [];
    var t := from + 60;
    while t < end
      invariant |items| <= 20 && t == from + 60 + SecondsPerDay * |items|
      invariant forall j :: 0 <= j < |items| ==>
        items[j] == JSONFieldsEvent(sessionID, j, from + 60 + SecondsPerDay * j, sessionEndJSON)
      decreases end - t
    {
      items := items + [JSONFieldsEvent(sessionID, |items|, t, sessionEndJSON)];
      t := t + SecondsPerDay;
    }
  }

  /** The conversion and the search of `FieldsMapMigration`, on any table of such a run. */
  method ConvertAndSearch(items: seq<Event>, from: int, parse: Parser, sessionEndFields: EventFields, fetchCap: Pos)
    returns (failed: seq<nat>, found: seq<Event>)
    requires |items| == 20
    requires ConvertibleRun(items, from + 60, parse, sessionEndFields)
    ensures failed == []
    ensures |found| == 20
    ensures forall i :: 0 <= i < |found| ==>
      found[i].FieldsMap == Some(if found[i].EventType == SessionEndEvent then sessionEndFields else map[])
  {
    var table := new EventTable(items);
    var writes;
    writes, failed := table.ConvertFieldsToDynamoMapFormat(parse);
    MalformedPositionsNone(items, parse);
    ConvertFieldsSpec(items, parse);
    var converted := table.items;
    var q := Query(from, from + 20 * SecondsPerDay, DefaultNamespace, [], Ascending);
    assert forall j :: 0 <= j < |converted| ==>
      && converted[j].CreatedAt == from + 60 + SecondsPerDay * j
      && converted[j].EventIndex == j && converted[j].EventNamespace == DefaultNamespace;
    assert IndexOrdered(converted);
    SearchWholeStore(converted, q, 1000);
    var r := Search(converted, q, 1000, "", fetchCap);
    found := r.value.events;
  }

  // ----- TestSizeBreak -----

  /** A login as the backend writes it: `SessionID` `sessionID`, event index 0, created at `t`. */
  function Login(sessionID: string, t: int, payload: EventFields): Event {
    NewEvent(sessionID, 0, UserLoginEvent, t, DefaultNamespace, payload)
  }

  /**
   * The emitting loop of the test: ten logins one second apart from `now`,
   * each carrying `payload`. A login belongs to no session, so the backend
   * files it under a random session identifier: the i-th of `sessionIDs`.
   */
  method EmitLogins(now: int, sessionIDs: seq<string>, payload: EventFields) returns (store: seq<Event>)
    requires |sessionIDs| == 10
    ensures |store| == 10
    ensures forall j :: 0 <= j < |store| ==> store[j] == Login(sessionIDs[j], now + j, payload)
  {
    store := [];
    for i := 0 to 10
      invariant |store| == i
      invariant forall j :: 0 <= j < i ==> store[j] == Login(sessionIDs[j], now + j, payload)
    {
      LoginsAppend(store, now, sessionIDs, payload);
      store := store + [Login(sessionIDs[i], now + i, payload)];
    }
  }

  /** One step of the emitting loop: the next login goes after those already written. */
  lemma LoginsAppend(store: seq<Event>, now: int, sessionIDs: seq<string>, payload: EventFields)
    requires |store| < |sessionIDs|
    requires forall j :: 0 <= j < |store| ==> store[j] == Login(sessionIDs[j], now + j, payload)
    ensures forall j :: 0 <= j < |store| + 1 ==>
      (store + [Login(sessionIDs[|store|], now + |store|, payload)])[j] == Login(sessionIDs[j], now + j, payload)
  {
  }

  /** The search of `now` +/- one hour, newest first, finds the ten logins latest first. */
  lemma LoginsNewestFirst(store: seq<Event>, now: int, sessionIDs: seq<string>, payload: EventFields)
    requires |store| == 10 && |sessionIDs| == 10
    requires forall j :: 0 <= j < |store| ==> store[j] == Login(sessionIDs[j], now + j, payload)
    ensures IndexOrdered(store)
    ensures var results := Results(store, Query(now - Hour, now + Hour, DefaultNamespace, [], Descending));
      |results| == 10 && forall k :: 0 <= k < 10 ==> results[k].CreatedAt == now + 9 - k
  {
    var q := Query(now - Hour, now + Hour, DefaultNamespace, [], Descending);
    assert forall j :: 0 <= j < |store| ==> store[j].CreatedAt == now + j && store[j].EventIndex == 0;
    SelectAll(store, q);
  }

  /**
   * Ten logins one second apart from `now`, each carrying `payload`, then
   * descending searches of `now` +/- one hour with limit 10, chained on the
   * checkpoint until it comes back empty: all ten arrive, every time before
   * the range end and strictly earlier than the one before it.
   */
  method SizeBreak(now: int, sessionIDs: seq<string>, payload: EventFields, fetchCap: Pos)
    returns (events: seq<Event>)
    requires |sessionIDs| == 10
    ensures |events| == 10
    ensures forall i :: 0 <= i < |events| ==> events[i].CreatedAt < now + Hour
    ensures forall i :: 0 < i < |events| ==> events[i].CreatedAt < events[i - 1].CreatedAt
  {
    var store := EmitLogins(now, sessionIDs, payload);
    LoginsNewestFirst(store, now, sessionIDs, payload);
    var q := Query(now - Hour, now + Hour, DefaultNamespace, [], Descending);
    events := FetchAll(store, q, 10, fetchCap);
  }

  // ----- TestLargeTableRetrieve, its store shape -----

  /**
   * Logins written at one reading of the clock, each under its own random
   * session identifier, held by the index in session order: although every
   * creation time ties, the index order is strict, and one ascending search
   * of `now` +/- one hour with no limit returns every one of them.
   */
  lemma SameSecondLogins(sessionIDs: seq<string>, now: int, payload: EventFields)
    requires forall i, j :: 0 <= i < j < |sessionIDs| ==> StringLess(sessionIDs[i], sessionIDs[j])
    ensures var store := seq(|sessionIDs|, i requires 0 <= i < |sessionIDs| =>
                               Login(sessionIDs[i], now, payload));
      && IndexOrdered(store)
      && Results(store, Query(now - Hour, now + Hour, DefaultNamespace, [], Ascending)) == store
      && SearchEvents(store, Query(now - Hour, now + Hour, DefaultNamespace, [], Ascending), 0, "")
         == Success(Page(store, ""))
  {
    var store := seq(|sessionIDs|, i requires 0 <= i < |sessionIDs| =>
                       Login(sessionIDs[i], now, payload));
    var q := Query(now - Hour, now + Hour, DefaultNamespace, [], Ascending);
    assert forall i :: 0 <= i < |store| ==> KeyOf(store[i]) == Key(now, 0, sessionIDs[i]);
    assert forall i :: 0 <= i < |store| ==> Matches(store[i], q);
    SelectAll(store, q);
    SearchWholeStore(store, q, 0);
  }

  /**
   * The same logins fetched one per page, chaining checkpoints: although
   * all of them share one creation time, every one arrives exactly once,
   * in session order.
   */
  method SameSecondPaged(sessionIDs: seq<string>, now: int, payload: EventFields, fetchCap: Pos)
    returns (events: seq<Event>)
    requires forall i, j :: 0 <= i < j < |sessionIDs| ==> StringLess(sessionIDs[i], sessionIDs[j])
    ensures |events| == |sessionIDs|
    ensures forall i :: 0 <= i < |events| ==> events[i].SessionID == sessionIDs[i] && events[i].CreatedAt == now
  {
    SameSecondLogins(sessionIDs, now, payload);
    var store := seq(|sessionIDs|, i requires 0 <= i < |sessionIDs| =>
                       Login(sessionIDs[i], now, payload));
    var q := Query(now - Hour, now + Hour, DefaultNamespace, [], Ascending);
    events := FetchAll(store, q, 1, fetchCap);
  }

  // ----- The date check of TestRFD24Migration -----

  /**
   * The check as written formats `time.Unix(CreatedAt, 0)`, which Go renders
   * in the process's local zone: here `offset` seconds east of UTC.
   */
  function LocalDateString(t: int, offset: int): string {
    DateString(t + offset)
  }

  /**
   * Ten hours west of UTC the check rejects every correctly backfilled
   * record created before 10:00 UTC: there it is still the day before.
   */
  lemma MorningDateCheckRejects(e: Event)
    requires DateConsistent(e) && e.CreatedAt - DayNumber(e.CreatedAt) * SecondsPerDay < 10 * Hour
    ensures Some(LocalDateString(e.CreatedAt, -10 * Hour)) != e.CreatedAtDate
  {
    var t, z := e.CreatedAt, DayNumber(e.CreatedAt);
    DayNumberBounds(t);
    DayNumberShift(t - 10 * Hour - (z - 1) * SecondsPerDay, z - 1);
    assert DayNumber(t - 10 * Hour) == z - 1 by {
      DayNumberBounds(t - 10 * Hour);
    }
    CivilFromDaysLess(z - 1, z);
    FormatDateInjective(CivilFromDays(z - 1), CivilFromDays(z));
  }

  /** The time of day of an instant built from a date and a clock time. */
  lemma TimeOfDay(d: Date, hh: int, mm: int, ss: int)
    requires ValidDate(d) && 0 <= hh < 24 && 0 <= mm < 60 && 0 <= ss < 60
    ensures UnixTime(d, hh, mm, ss) - DayNumber(UnixTime(d, hh, mm, ss)) * SecondsPerDay == hh * 3600 + mm * 60 + ss
  {
    UnixTimeDate(d, hh, mm, ss);
  }

  /**
   * In a zone ten hours west of UTC (Pacific/Honolulu) the check rejects a
   * correctly backfilled record of the test: 2021-04-10T08:05Z is still
   * April 9th there.
   */
  lemma LocalDateCheckRejects(e: Event)
    requires e.CreatedAt == April10 && DateConsistent(e)
    ensures Some(LocalDateString(e.CreatedAt, -10 * Hour)) != e.CreatedAtDate
  {
    TimeOfDay(Date(2021, 4, 10), 8, 5, 0);
    MorningDateCheckRejects(e);
  }
}
