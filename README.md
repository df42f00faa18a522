# DynamoDB audit-event log: the units its tests pin down

This project models the behaviour that `lib/events/dynamoevents/dynamoevents_test.go`
fixes for Teleport's DynamoDB audit-event backend, and proves it. The production code
of the backend is not part of this model. Its units are rebuilt from the assertions of
the tests and from the backend's documented contracts:

- **`fromWhereExpr`, the predicate compiler** (`filter_expr.dfy`). A `WhereExpr` tree
  becomes a DynamoDB filter-expression string. Each field name gets a `#condNameN`
  alias, and a field already bound reuses its alias. Each literal gets a fresh
  `:condValueN` placeholder. The two kinds are numbered independently, from zero, left
  operand before right. `CondFilterParams` is the bindings struct the Go code fills in
  place (`&params`). `Compile` is the same computation with the bindings threaded
  explicitly.
- **`daysBetween`, the day-range planner** (`calendar.dfy`, `day_range.dfy`). It returns
  the UTC calendar dates, written `YYYY-MM-DD` (the complete calendar date in extended
  format of ISO 8601), of every day from the start instant's day to the end instant's
  day. The list is inclusive, ascending and gap-free. Time is integer Unix seconds, and
  dates come from an integer days-from-civil count.
- **The two migrations** (`migrations.dfy`), as scans over the event table
  (`EventTable`):
  - `migrateDateAttribute` backfills the `CreatedAtDate` partition key.
  - `convertFieldsToDynamoMapFormat` replaces the JSON string `Fields` by the structured
    `FieldsMap`. JSON decoding is a parameter.
- **Checkpoint pagination of `SearchEvents`** (`pagination.dfy`).
  - The store is a sequence in time-index order. The sort key is the creation time, then
    the event index, then the session identifier. Events created in the same second are
    therefore strictly ordered whenever their primary keys (`SessionID`, `EventIndex`)
    differ. One search returns a page of at most
    `limit` matching events in the requested order, plus a checkpoint. The checkpoint
    is empty once nothing is left. A checkpoint that does not decode, or whose key lies
    outside the requested range, is refused with `CheckpointInvalid`.
  - `FetchPage` is the query loop behind one page, with the store's per-query size cap
    as a parameter.
  - `FetchAll` is a caller's loop that chains checkpoints until one comes back empty.
- **The test scenarios themselves** (`dynamoevents_test.dfy`): `TestFromWhereExpr`,
  `TestDateRangeGenerator`, `TestRFD24Migration`, `TestFieldsMapMigration` and
  `TestSizeBreak`, each with what the test asserts as its contract.

Shared pieces:

- `decimal.dfy`: decimal rendering, for alias numbers and checkpoint tokens.
- `events.dfy`: the event record, covering the legacy shapes `preRFD24event` and
  `eventWithJSONFields` and today's records.
- `seqs.dfy` and `wrappers.dfy`: small sequence and `Option`/`Result` helpers.

Four inputs of the tests are parameters here:
- the JSON decoder;
- the clock's reading `now`;
- the random login payload;
- the random session identifiers the backend gives logins that belong to no session.

## Model

All source paths below are in `lib/events/dynamoevents/dynamoevents_test.go`.

| member | source | states |
|---|---|---|
| Decimal.NatToStringInjective | lib/events/dynamoevents/dynamoevents_test.go:356 | different alias numbers render as different decimal strings |
| Decimal.DigitsValueOfNatToString | lib/events/dynamoevents/dynamoevents_test.go:356 | the decimal rendering of n reads back as n |
| Decimal.IntToStringRoundTrip | lib/events/dynamoevents/dynamoevents_test.go:136-148 | a signed integer's rendering parses back to the same integer |
| FilterExpr.Compile | lib/events/dynamoevents/dynamoevents_test.go:343-356 | `fromWhereExpr` on values, the bindings threaded explicitly, left operand first. Its contracts are `CompileSucceedsIff`, `CompileNames`, `CompileValues` and `CompileExtends` below |
| FilterExpr.CompileComparison | lib/events/dynamoevents/dynamoevents_test.go:344-350 | an `=` or `contains` node. `ComparisonBindings` and `ComparisonExtends` state what it binds |
| FilterExpr.CompileConnective | lib/events/dynamoevents/dynamoevents_test.go:344-346 | an AND/OR node, parenthesising both sides. `ConnectiveBindings`, `ConnectiveNames`, `ConnectiveValues` and `ConnectiveExtends` state what it binds |
| FilterExpr.Operand | lib/events/dynamoevents/dynamoevents_test.go:356-359 | the reference for one operand: an alias or placeholder, and the bindings after it. `OperandExtends` and `ComparisonBindings` state its effect |
| FilterExpr.NameBindings | lib/events/dynamoevents/dynamoevents_test.go:357-358 | `attrNames` built from the bound names. `NameBindingsBound`, `NameBindingsOnly` and `NameBindingsInjective` state its contents |
| FilterExpr.ValueBindings | lib/events/dynamoevents/dynamoevents_test.go:357-359 | `attrValues` built from the bound literals. `ValueBindingsBound` and `ValueBindingsOnly` state its contents |
| FilterExpr.AliasesDistinct | lib/events/dynamoevents/dynamoevents_test.go:356-360 | alias `#condName<i>` equals `#condName<j>` only when i = j; likewise for `:condValue<i>` |
| FilterExpr.AliasesFresh | lib/events/dynamoevents/dynamoevents_test.go:356-360 | the next alias and placeholder differ from every one allocated before |
| FilterExpr.NameBindingsBound | lib/events/dynamoevents/dynamoevents_test.go:357-358 | `attrNames` maps alias `#condName<i>` to the i-th bound field, for every i |
| FilterExpr.NameBindingsOnly | lib/events/dynamoevents/dynamoevents_test.go:357-358 | every key of `attrNames` is one of the allocated aliases |
| FilterExpr.ValueBindingsBound | lib/events/dynamoevents/dynamoevents_test.go:357-359 | `attrValues` maps `:condValue<i>` to the i-th literal, for every i |
| FilterExpr.ValueBindingsOnly | lib/events/dynamoevents/dynamoevents_test.go:357-359 | every key of `attrValues` is one of the allocated placeholders |
| FilterExpr.NameBindingsInjective | lib/events/dynamoevents/dynamoevents_test.go:357-358 | with no field bound twice, different aliases name different fields |
| FilterExpr.CompileSucceedsIff | lib/events/dynamoevents/dynamoevents_test.go:352-354 | compiling succeeds exactly for trees of comparisons between one field and one literal under AND, OR and NOT, with any starting bindings |
| FilterExpr.ComparisonBindings | lib/events/dynamoevents/dynamoevents_test.go:344-350 | a comparison binds its literal after the existing ones, and its field only if new |
| FilterExpr.ConnectiveBindings | lib/events/dynamoevents/dynamoevents_test.go:344-350 | a supported AND/OR compiles its right operand in the bindings its left operand left |
| FilterExpr.CompileValues | lib/events/dynamoevents/dynamoevents_test.go:357-359 | the placeholders end as the old ones followed by every literal of the tree, left to right; literals are never shared |
| FilterExpr.ConnectiveValues | lib/events/dynamoevents/dynamoevents_test.go:357-359 | the same for an AND/OR node: the left literals, then the right ones |
| FilterExpr.CompileNames | lib/events/dynamoevents/dynamoevents_test.go:356-358 | the aliases end as the old ones followed by each field of the tree not seen before, in first-occurrence order; repeated fields share one alias |
| FilterExpr.ConnectiveNames | lib/events/dynamoevents/dynamoevents_test.go:356-358 | the same for an AND/OR node |
| FilterExpr.AddNewAppend | lib/events/dynamoevents/dynamoevents_test.go:356-358 | adding new names from the concatenation of two lists equals adding from the first list, then the second |
| FilterExpr.ExtendsTransitive | lib/events/dynamoevents/dynamoevents_test.go:352-353 | keeping every earlier binding is transitive |
| FilterExpr.OperandExtends | lib/events/dynamoevents/dynamoevents_test.go:352-353 | one operand keeps every binding at its number and never binds a field twice |
| FilterExpr.CompileExtends | lib/events/dynamoevents/dynamoevents_test.go:352-353 | whatever the outcome, compiling keeps every earlier binding at its number and never binds a field under two aliases |
| FilterExpr.ComparisonExtends | lib/events/dynamoevents/dynamoevents_test.go:352-353 | the same for one comparison |
| FilterExpr.ConnectiveExtends | lib/events/dynamoevents/dynamoevents_test.go:352-353 | the same for one AND/OR node |
| FilterExpr.CondFilterParams.constructor | lib/events/dynamoevents/dynamoevents_test.go:352 | fresh params hold no bindings |
| FilterExpr.CondFilterParams.FindAlias | lib/events/dynamoevents/dynamoevents_test.go:356-358 | the scan of the bound names finds the first position of a field, or none |
| FilterExpr.CondFilterParams.AddOperand | lib/events/dynamoevents/dynamoevents_test.go:356-359 | an operand's reference and the new bindings are those of `Operand`: a known field reuses its alias, a new field or a literal takes the next number of its kind |
| FilterExpr.CondFilterParams.FromWhereExpr | lib/events/dynamoevents/dynamoevents_test.go:352-353 | compiling in place returns the outcome of `Compile` from the old bindings and leaves its bindings |
| Seqs.StringLessAsymmetric | lib/events/dynamoevents/dynamoevents_test.go:311-331 | no two session identifiers each precede the other |
| Seqs.StringLessTransitive | lib/events/dynamoevents/dynamoevents_test.go:311-331 | the order of session identifiers is transitive |
| Seqs.StringLessTotal | lib/events/dynamoevents/dynamoevents_test.go:311-331 | two different session identifiers are ordered one way or the other |
| Seqs.IndexOfFirst | lib/events/dynamoevents/dynamoevents_test.go:356-358 | a position holding the value, with none before it, is the one `IndexOf` finds |
| Calendar.DaysFromCivil | lib/events/dynamoevents/dynamoevents_test.go:169-170 | the day count of a date since 1970-01-01. `CivilRoundTrip`, `CivilFromDaysSpec` and `DaysFromCivilOrder` make it the inverse of `CivilFromDays`, and order-preserving |
| Calendar.DayNumber | lib/events/dynamoevents/dynamoevents_test.go:169-170 | the UTC day of a Unix second, floored. See `DayNumberBounds` and `DayNumberShift` |
| Calendar.DateOf | lib/events/dynamoevents/dynamoevents_test.go:169-170 | the UTC date of a Unix second. See `UnixTimeDate` |
| Calendar.FormatDate | lib/events/dynamoevents/dynamoevents_test.go:169-182 | the `YYYY-MM-DD` layout. `FormatDateIs`, `FormatDateRoundTrip` and `FormatDateInjective` state it |
| Calendar.DateString | lib/events/dynamoevents/dynamoevents_test.go:215-218 | the UTC date key of a Unix second: the key `CreatedAtDate` must hold |
| Calendar.ParseDate | lib/events/dynamoevents/dynamoevents_test.go:169-170 | reads a `YYYY-MM-DD` key; whatever it returns is a valid date, and `FormatDateRoundTrip` makes it the inverse of `FormatDate` |
| Calendar.DaysInMonth | lib/events/dynamoevents/dynamoevents_test.go:179-182 | every month has between 28 and 31 days |
| Calendar.NextDate | lib/events/dynamoevents/dynamoevents_test.go:179-182 | the successor of a valid date is a valid date |
| Calendar.CivilFromDays | lib/events/dynamoevents/dynamoevents_test.go:169-170 | every day number has a valid calendar date |
| Calendar.YearStartStep | lib/events/dynamoevents/dynamoevents_test.go:169-170 | a year starts where the previous year ends |
| Calendar.YearStartMonotone | lib/events/dynamoevents/dynamoevents_test.go:169-170 | later years start later |
| Calendar.MonthStartStep | lib/events/dynamoevents/dynamoevents_test.go:179-182 | a month starts where the previous month ends |
| Calendar.MonthStartMonotone | lib/events/dynamoevents/dynamoevents_test.go:179-182 | later months start later |
| Calendar.LocateSpec | lib/events/dynamoevents/dynamoevents_test.go:169-170 | the date found for an offset into a year has exactly that day count |
| Calendar.CivilFromDaysSpec | lib/events/dynamoevents/dynamoevents_test.go:169-170 | the date of a day number counts back to that day number |
| Calendar.CivilRoundTrip | lib/events/dynamoevents/dynamoevents_test.go:169-170 | a valid date's day number gives back the date |
| Calendar.DaysFromCivilOrder | lib/events/dynamoevents/dynamoevents_test.go:169-170 | dates compare as their day numbers do, and equal exactly when their day numbers do |
| Calendar.CivilFromDaysLess | lib/events/dynamoevents/dynamoevents_test.go:169-170 | a larger day number is a later date |
| Calendar.NextDateDays | lib/events/dynamoevents/dynamoevents_test.go:179-182 | the successor date is one day number later |
| Calendar.CivilFromDaysNext | lib/events/dynamoevents/dynamoevents_test.go:179-182 | the day after a day number has the successor date, rolling over months and years |
| Calendar.CivilFromDaysSameMonth | lib/events/dynamoevents/dynamoevents_test.go:173-176 | walking k days forward inside one month only adds k to the day |
| Calendar.DayNumberBounds | lib/events/dynamoevents/dynamoevents_test.go:169-170 | an instant lies inside the 86400 seconds of its UTC day |
| Calendar.DayNumberShift | lib/events/dynamoevents/dynamoevents_test.go:174 | adding k times 24 hours moves the day number by k |
| Calendar.UnixTime | lib/events/dynamoevents/dynamoevents_test.go:173-244 | the Unix second of `time.Date(y, m, d, hh, mm, ss, 0, time.UTC)`. `UnixTimeDate` and `TimeOfDay` state that it falls on its date, that many seconds into the day |
| Calendar.UnixTimeDate | lib/events/dynamoevents/dynamoevents_test.go:173 | `time.Date(y, m, d, hh, mm, ss, 0, UTC)` falls on day y-m-d |
| Calendar.YearStringParses | lib/events/dynamoevents/dynamoevents_test.go:169-170 | the year field has at least four digits and reads back as the year |
| Calendar.TwoDigitsSpec | lib/events/dynamoevents/dynamoevents_test.go:169-170 | a month or day field is two digits reading back as the number |
| Calendar.FormatDateIs | lib/events/dynamoevents/dynamoevents_test.go:175-182 | a date within years 0-9999 renders as exactly its ten characters `YYYY-MM-DD` |
| Calendar.FormatDateRoundTrip | lib/events/dynamoevents/dynamoevents_test.go:169-170 | a `YYYY-MM-DD` key parses back to its date |
| Calendar.FormatDateInjective | lib/events/dynamoevents/dynamoevents_test.go:169-170 | two dates have the same key exactly when they are equal |
| DayRange.DaysBetween | lib/events/dynamoevents/dynamoevents_test.go:169-183 | `daysBetween`. Its contracts are `DaysBetweenSpec`, `DaysBetweenEnds`, `DaysBetweenDistinct`, `DaysBetweenCovers` and `DaysBetweenSound` below |
| DayRange.DatesBetween | lib/events/dynamoevents/dynamoevents_test.go:169-183 | the dates behind those keys. `DatesBetweenGapFree` and `DatesBetweenAscending` state their shape |
| DayRange.DatesFrom | lib/events/dynamoevents/dynamoevents_test.go:169-170 | one valid date per day number of the range |
| DayRange.DaysBetweenSpec | lib/events/dynamoevents/dynamoevents_test.go:169-183 | one key per UTC day from the start's day to the end's day; the i-th key is the date i days after the start day |
| DayRange.DaysBetweenEnds | lib/events/dynamoevents/dynamoevents_test.go:173-182 | for start <= end the list begins with the start's date and ends with the end's date |
| DayRange.DatesBetweenGapFree | lib/events/dynamoevents/dynamoevents_test.go:179-182 | each date is the calendar successor of the one before it |
| DayRange.DatesBetweenAscending | lib/events/dynamoevents/dynamoevents_test.go:173-182 | the dates strictly increase |
| DayRange.DaysBetweenDistinct | lib/events/dynamoevents/dynamoevents_test.go:173-182 | every key parses back to its date, and no key repeats |
| DayRange.DaysBetweenCovers | lib/events/dynamoevents/dynamoevents_test.go:169-170 | the date of every instant between start and end is among the keys |
| DayRange.DaysBetweenSound | lib/events/dynamoevents/dynamoevents_test.go:169-170 | every key is the date of some instant between start and end |
| AuditEvents.NewEvent | lib/events/dynamoevents/dynamoevents_test.go:124-134 | a record written today has a consistent date key and a structured payload, and no JSON string |
| Migrations.WithDate | lib/events/dynamoevents/dynamoevents_test.go:202 | one record after `migrateDateAttribute` |
| Migrations.MigrateDates | lib/events/dynamoevents/dynamoevents_test.go:202 | the whole table after `migrateDateAttribute`. `MigrateDatesSpec`, `MigrateDatesRestores` and `MigrateDatesIdempotent` state it, and `EventTable.MigrateDateAttribute` computes it in place |
| Migrations.WithFieldsMap | lib/events/dynamoevents/dynamoevents_test.go:260 | one record after `convertFieldsToDynamoMapFormat` |
| Migrations.ConvertFields | lib/events/dynamoevents/dynamoevents_test.go:260 | the whole table after `convertFieldsToDynamoMapFormat`. `ConvertFieldsSpec`, `ConvertFieldsComplete` and `ConvertFieldsIdempotent` state it, and `EventTable.ConvertFieldsToDynamoMapFormat` computes it in place |
| Migrations.MigrateDatesSpec | lib/events/dynamoevents/dynamoevents_test.go:202-218 | after the backfill every record that lacked the key holds the UTC date of its creation time; no other attribute of any record changes, and records with a key are untouched |
| Migrations.MigrateDatesRestores | lib/events/dynamoevents/dynamoevents_test.go:215-218 | a table whose keys are missing or right is fully consistent after the backfill |
| Migrations.MigrateDatesResume | lib/events/dynamoevents/dynamoevents_test.go:202-218 | a backfill interrupted after any prefix and run again gives the same table as one full run, and the second run writes only the records the first did not reach |
| Migrations.CountMissingDateAll | lib/events/dynamoevents/dynamoevents_test.go:194-202 | on legacy records only, the backfill writes every record |
| Migrations.CountMissingDateNone | lib/events/dynamoevents/dynamoevents_test.go:202 | with no key missing, the backfill writes nothing |
| Migrations.MigrateDatesIdempotent | lib/events/dynamoevents/dynamoevents_test.go:202 | running the backfill again changes nothing and writes nothing |
| Migrations.ConvertFieldsSpec | lib/events/dynamoevents/dynamoevents_test.go:260-272 | a convertible record gets the decoded payload and loses the JSON string, with nothing else changed; every other record is untouched |
| Migrations.MalformedPositionsSpec | lib/events/dynamoevents/dynamoevents_test.go:260-261 | a position is in the failure list exactly when it holds a record that needs converting and whose payload cannot be decoded |
| Migrations.MalformedPositionsAscending | lib/events/dynamoevents/dynamoevents_test.go:260-261 | the failure list is strictly ascending, so each malformed record is reported once, in scan order |
| Migrations.MalformedPositionsNone | lib/events/dynamoevents/dynamoevents_test.go:260-261 | with no malformed payload the failure list is empty: the conversion returns no error |
| Migrations.ConvertFieldsComplete | lib/events/dynamoevents/dynamoevents_test.go:265-272 | with no malformed payload, every record ends with a structured payload |
| Migrations.CountConvertibleNone | lib/events/dynamoevents/dynamoevents_test.go:260 | with nothing convertible, the conversion writes nothing |
| Migrations.ConvertFieldsResume | lib/events/dynamoevents/dynamoevents_test.go:260-261 | a conversion interrupted after any prefix and run again gives the same table as one full run, and the second run writes only the records the first did not reach |
| Migrations.ConvertFieldsIdempotent | lib/events/dynamoevents/dynamoevents_test.go:260 | running the conversion again changes nothing and writes nothing |
| Migrations.NewEventNeedsNoMigration | lib/events/dynamoevents/dynamoevents_test.go:221-229 | a record written today is left alone by both migrations |
| Migrations.EventTable.constructor | lib/events/dynamoevents/dynamoevents_test.go:194-200 | the table holds the emitted records |
| Migrations.EventTable.MigrateDateAttribute | lib/events/dynamoevents/dynamoevents_test.go:202 | the scan leaves the table as `MigrateDates` of the old one and reports one write per record lacking the key |
| Migrations.EventTable.ConvertFieldsToDynamoMapFormat | lib/events/dynamoevents/dynamoevents_test.go:260 | the scan leaves the table as `ConvertFields` of the old one, reports one write per convertible record, and reports a failure for every malformed record without stopping. `MalformedPositionsSpec`, `MalformedPositionsAscending` and `MalformedPositionsNone` state what that list holds |
| Pagination.Reverse | lib/events/dynamoevents/dynamoevents_test.go:140 | the descending results are the ascending ones back to front |
| Pagination.KeyLessAsymmetric | lib/events/dynamoevents/dynamoevents_test.go:150-155 | no two keys each precede the other |
| Pagination.KeyLessTransitive | lib/events/dynamoevents/dynamoevents_test.go:150-155 | the key order is transitive |
| Pagination.KeyLessTotal | lib/events/dynamoevents/dynamoevents_test.go:311-331 | two different keys are always ordered one way or the other, including ties on the creation time |
| Pagination.PrecedesAsymmetric | lib/events/dynamoevents/dynamoevents_test.go:150-155 | the same asymmetry for either search direction |
| Pagination.UniqueIdsOrdered | lib/events/dynamoevents/dynamoevents_test.go:311-331 | an index with unique primary keys, held in key order, has strictly ascending keys whatever the creation times |
| Pagination.Select | lib/events/dynamoevents/dynamoevents_test.go:139-141 | the matching stored events in index order. `SelectMembers`, `SelectSorted` and `SelectAll` state it |
| Pagination.Results | lib/events/dynamoevents/dynamoevents_test.go:139-141 | everything a search can return, in the requested order. `ResultsSpec` and `DescendingTimes` state it |
| Pagination.EncodeCheckpoint | lib/events/dynamoevents/dynamoevents_test.go:136-148 | the checkpoint token `<createdAt>:<eventIndex>:<sessionID>` |
| Pagination.DecodeCheckpoint | lib/events/dynamoevents/dynamoevents_test.go:136-148 | reads the token back. `CheckpointRoundTrip` makes it the inverse of `EncodeCheckpoint` |
| Pagination.SplitColonSkips | lib/events/dynamoevents/dynamoevents_test.go:136-148 | the checkpoint scan passes over characters up to the first ':' |
| Pagination.SplitAfterInt | lib/events/dynamoevents/dynamoevents_test.go:136-148 | a rendered integer splits off at the ':' that follows it |
| Pagination.After | lib/events/dynamoevents/dynamoevents_test.go:136-148 | the results strictly beyond a key. `AfterKey` and `AfterAll` state it |
| Pagination.Resume | lib/events/dynamoevents/dynamoevents_test.go:139-142 | what is left after a checkpoint, with the `CheckpointInvalid` error. `ResumeEncoded`, `ResumeOutOfRange` and `ResumeAfterCheckpoint` state it |
| Pagination.PageOf | lib/events/dynamoevents/dynamoevents_test.go:139-148 | one page and its checkpoint. `PageOfSpec` and `PageCheckpoint` state it |
| Pagination.SearchEvents | lib/events/dynamoevents/dynamoevents_test.go:139 | `SearchEvents`: `Resume`, then `PageOf`. `Search` computes it, and `NextPage`, `FetchAll` and `SearchWholeStore` state what it delivers |
| Pagination.CheckpointRoundTrip | lib/events/dynamoevents/dynamoevents_test.go:136-148 | a checkpoint is never the empty "done" token, and it decodes to the key it was made from |
| Pagination.SelectMembers | lib/events/dynamoevents/dynamoevents_test.go:139-141 | the selected events are exactly the stored ones matching range, namespace and types |
| Pagination.SelectSorted | lib/events/dynamoevents/dynamoevents_test.go:139-141 | selection keeps the time-index order |
| Pagination.SelectAll | lib/events/dynamoevents/dynamoevents_test.go:205-213 | when every stored event matches, everything is selected |
| Pagination.SearchWholeStore | lib/events/dynamoevents/dynamoevents_test.go:205-213 | when every event matches and fits in the limit, an ascending search returns the whole store and no checkpoint |
| Pagination.ResultsSpec | lib/events/dynamoevents/dynamoevents_test.go:139-155 | the results are exactly the matching events, strictly in the requested order |
| Pagination.AfterKey | lib/events/dynamoevents/dynamoevents_test.go:136-148 | in sorted results, what comes after the key of the j-th event is the tail after j |
| Pagination.AfterAll | lib/events/dynamoevents/dynamoevents_test.go:136-148 | events all beyond a key are all kept |
| Pagination.PageOfSpec | lib/events/dynamoevents/dynamoevents_test.go:139-148 | a page is a prefix of what remains, at most `limit` long (all for 0), and the checkpoint is empty exactly when the page is everything that remains |
| Pagination.ResumeEncoded | lib/events/dynamoevents/dynamoevents_test.go:139-142 | a checkpoint made from a key in the requested range resumes with the results beyond that key |
| Pagination.ResumeOutOfRange | lib/events/dynamoevents/dynamoevents_test.go:139-142 | a checkpoint whose key lies outside the requested time range is refused with `CheckpointInvalid` rather than resumed |
| Pagination.ResultsInRange | lib/events/dynamoevents/dynamoevents_test.go:139-142 | every result lies in the requested time range, so its checkpoint is accepted |
| Pagination.ResumeAfterCheckpoint | lib/events/dynamoevents/dynamoevents_test.go:139-142 | the checkpoint of the j-th result resumes exactly at position j |
| Pagination.PageCheckpoint | lib/events/dynamoevents/dynamoevents_test.go:139-147 | the page at position m continues what came before; an empty checkpoint means it reached the end, and any other is the checkpoint of its last event |
| Pagination.FetchPage | lib/events/dynamoevents/dynamoevents_test.go:120-148 | the capped query loop assembles exactly the page `PageOf` describes, whatever the cap |
| Pagination.Search | lib/events/dynamoevents/dynamoevents_test.go:139 | one call answers exactly as `SearchEvents` specifies, the invalid-checkpoint error included |
| Pagination.NextPage | lib/events/dynamoevents/dynamoevents_test.go:139-142 | resumed with the previous page's checkpoint, the search returns the page at the next position |
| Pagination.FetchAll | lib/events/dynamoevents/dynamoevents_test.go:136-148 | chaining checkpoints until one is empty terminates, and collects every result exactly once, in the requested order |
| Pagination.DescendingTimes | lib/events/dynamoevents/dynamoevents_test.go:150-155 | in descending results times never increase, and none is beyond the range end |
| DynamoeventsTests.ConditionCompiles | lib/events/dynamoevents/dynamoevents_test.go:343-359 | the test's condition over any two distinct field names and any three literals compiles to the expected shape; the repeated field is bound once, the literals three times |
| DynamoeventsTests.EitherCompiles | lib/events/dynamoevents/dynamoevents_test.go:345-348 | the negated disjunction over one field uses one alias and two placeholders |
| DynamoeventsTests.ConditionTextIs | lib/events/dynamoevents/dynamoevents_test.go:356 | that shape, with numbers 0, 1 and 2, is the test's expected string |
| DynamoeventsTests.FromWhereExprExample | lib/events/dynamoevents/dynamoevents_test.go:343-359 | the example tree compiles with no error to the expected string and bindings |
| DynamoeventsTests.ExampleNames | lib/events/dynamoevents/dynamoevents_test.go:357-358 | `attrNames` is `{#condName0: login, #condName1: participants}` |
| DynamoeventsTests.ExampleValues | lib/events/dynamoevents/dynamoevents_test.go:357-359 | `attrValues` is `{:condValue0: root, :condValue1: admin, :condValue2: test-user}` |
| DynamoeventsTests.TestFromWhereExpr | lib/events/dynamoevents/dynamoevents_test.go:340-361 | fresh params, one in-place call: the expected string and both expected maps |
| DynamoeventsTests.StartDays | lib/events/dynamoevents/dynamoevents_test.go:173-244 | the test's 08:05 UTC instants fall on 2021-04-09, 2021-04-10 and 2021-08-30 |
| DynamoeventsTests.DateRangeWithinMonth | lib/events/dynamoevents/dynamoevents_test.go:172-176 | from any instant of 2021-04-10, four days give exactly the five keys 2021-04-10 .. 2021-04-14 |
| DynamoeventsTests.DateRangeAcrossMonths | lib/events/dynamoevents/dynamoevents_test.go:178-182 | from any instant of 2021-08-30, two days give exactly 2021-08-30, 2021-08-31, 2021-09-01 |
| DynamoeventsTests.PreRFD24Event | lib/events/dynamoevents/dynamoevents_test.go:221-229 | a `preRFD24event` record: no `CreatedAtDate`, payload the JSON string "{}" |
| DynamoeventsTests.RFD24Migration | lib/events/dynamoevents/dynamoevents_test.go:185-219 | ten legacy records, the backfill and the search: ten writes, ten results, each with the UTC date of its creation time and its own index |
| DynamoeventsTests.JSONFieldsEvent | lib/events/dynamoevents/dynamoevents_test.go:247-258 | an `eventWithJSONFields` record of the loop (lines 275-284 give its shape): a session end with the session-end JSON on days divisible by 3, otherwise a test event with "{}" |
| DynamoeventsTests.JSONFieldsTable | lib/events/dynamoevents/dynamoevents_test.go:247-258 | every record of the emitted run decodes to the payload of its type |
| DynamoeventsTests.EmitJSONFieldsEvents | lib/events/dynamoevents/dynamoevents_test.go:244-258 | the emitting loop writes twenty records, one per day, from a minute after the start |
| DynamoeventsTests.ConvertAndSearch | lib/events/dynamoevents/dynamoevents_test.go:260-272 | the conversion reports no failure, and the search afterwards returns the twenty records, each with the decoded payload of its type |
| DynamoeventsTests.FieldsMapMigration | lib/events/dynamoevents/dynamoevents_test.go:231-273 | the whole test: the conversion reports no failure, and every result's `FieldsMap` is the session-end payload for session ends and the empty map otherwise |
| DynamoeventsTests.Login | lib/events/dynamoevents/dynamoevents_test.go:126-132 | the `user.login` record the backend writes for one login: its session identifier, event index 0, creation time `t`, the default namespace and the payload. `NewEvent`'s contract states its fields, and `EmitLogins` and `LoginsNewestFirst` use them |
| DynamoeventsTests.EmitLogins | lib/events/dynamoevents/dynamoevents_test.go:124-134 | ten logins, one second apart, the i-th under the i-th session identifier |
| DynamoeventsTests.LoginsNewestFirst | lib/events/dynamoevents/dynamoevents_test.go:136-141 | the descending search of now +/- one hour finds all ten, latest first |
| DynamoeventsTests.SizeBreak | lib/events/dynamoevents/dynamoevents_test.go:120-156 | all ten arrive through chained checkpoints, every time before the range end and strictly earlier than the one before it |
| DynamoeventsTests.SameSecondLogins | lib/events/dynamoevents/dynamoevents_test.go:311-331 | logins of one clock reading, under distinct session identifiers in index order, form a strictly ordered index; one ascending search with no limit returns all of them |
| DynamoeventsTests.SameSecondPaged | lib/events/dynamoevents/dynamoevents_test.go:311-331 | the same logins fetched one per page by chaining checkpoints: each arrives exactly once, although every creation time ties |
| DynamoeventsTests.LocalDateString | lib/events/dynamoevents/dynamoevents_test.go:216 | the date the check as written computes: `DateString` of the instant shifted by a zone offset |
| DynamoeventsTests.MorningDateCheckRejects | lib/events/dynamoevents/dynamoevents_test.go:215-218 | ten hours west of UTC, the check as written rejects every correct record created before 10:00 UTC |
| DynamoeventsTests.TimeOfDay | lib/events/dynamoevents/dynamoevents_test.go:173 | an instant built from a clock time lies that many seconds into its UTC day |
| DynamoeventsTests.LocalDateCheckRejects | lib/events/dynamoevents/dynamoevents_test.go:215-218 | ten hours west of UTC, the check as written rejects a correctly backfilled record of the test |

## Left out

- DynamoDB I/O is left out: `emitTestAuditEvent` with its marshalling (lines 287-298), `deleteAllItems`, `deleteTable`, `indexExists` and `New` (lines 64-98, 163-167). The table is a sequence of records, and a search runs on that sequence.
- Suite set-up is left out: the environment switch, the memory backend, the logger and the fake clock (lines 52-85). The clock's reading is the parameter `now`.
- `randStringAlpha` (lines 112-118) is random data. The login payload is the parameter `payload`.
- The retry and sleep loops (`utils.RetryStaticFor` at line 208, `time.Sleep` at line 326) are timing policy. Each search is one call.
- DynamoDB's real response-size limit is left out, as is the 4000-event count of the scale test (lines 309-338). The limit appears only as the per-query cap `fetchCap` of `Pagination.FetchPage`. The scale test's store shape, many events in one second, is covered by `SameSecondLogins` and `SameSecondPaged`.
- The backend gives each event without a session a random session identifier. Randomness is left out: the identifiers are parameters. The same-second scenarios take them distinct and in index order.
- JSON is not parsed: `json.Marshal` (line 241) and decoding are outside the model. `Migrations.Parser` is a parameter, and the scenarios require only that it decodes "{}" to the empty map and the session-end JSON to its fields.
- Not part of this model: the production sources of `fromWhereExpr`, `daysBetween`, the migrations and `SearchEvents`. They are rebuilt from these tests and the backend's documented contracts. These choices follow from that:
  - The checkpoint text, `<CreatedAt>:<EventIndex>:<SessionID>`, is the model's own choice.
  - Session identifiers compare character by character. Go compares strings byte by byte, which agrees for the ASCII identifiers the backend generates.
  - `CheckpointInvalid` is raised for a token that does not decode, and for one whose key lies outside the requested time range. The requested range stands in for the partitions the token would refer to.
- Per-day partitions and their index are simplified to one sequence in time-index order.
- The store filters the range, namespace and type list itself.
- Concurrency, throttling and failures of a scan are left out. Each migration is one sequential pass. An interrupted pass is modelled by `MigrateDatesResume` and `ConvertFieldsResume`: a run that stopped after a prefix, followed by a full run.
- `WhereExpr.Literal` holds a string only. Go's literal, and the values of `attrValues`, are `interface{}` values (lines 346 and 352-359).
- Evaluating a compiled filter expression against stored records is left out. `fromWhereExpr` is modelled as the compiler only, and searches filter by range, namespace and type list.
- DynamoeventsTests.RFD24Migration and DynamoeventsTests.FieldsMapMigration cover any start instant, not only the test's fixed dates.
- DynamoeventsTests.DateRangeWithinMonth and DynamoeventsTests.DateRangeAcrossMonths cover any instant of the start day. `StartDays` shows that the test's 08:05 UTC instants qualify.
- FieldsMapMigration also states that twenty results come back. The test checks only the payloads.

## Findings

| source | as written | input that shows it | evidently intended | confidence | as-written member | corrected member |
|---|---|---|---|---|---|---|
| lib/events/dynamoevents/dynamoevents_test.go:216 | formats `time.Unix(event.CreatedAt, 0)`, which renders in the process's local time zone, and compares it with the UTC `CreatedAtDate` | a record created at 2021-04-10T08:05Z (the first one the test emits), checked in a zone ten hours west of UTC (Pacific/Honolulu): local date 2021-04-09, key 2021-04-10 | compare with the UTC date of `CreatedAt` (`time.Unix(...).UTC()`) | not executed | DynamoeventsTests.LocalDateCheckRejects | DynamoeventsTests.RFD24Migration |
