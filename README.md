# database-table-sync: a verified model of the table copy engine

database-table-sync copies every row of one database table into another
table over JDBC. `syncDataSource` streams the
source table through a forward-only cursor and issues one positional
`insert into <target> (<columns>) values (?,...)` per row. After every
`batch.size` rows it drops both connections, opens them again, re-runs the select
and repositions the new cursor with `absolute(rowCount)`, so that streaming
resumes at the next unprocessed row. The batch size comes from the
`batch.size` property, parsed as a Java `int`, with 1000 as the fallback.

This project models that engine over an abstract database and proves what it
does:

- `wrappers.dfy` (`Wrappers`): the `Option` type.
- `sql_text.dfy` (`SqlText`): the comma join of the column list and of the
  `?` placeholder list, and the insert statement text.
- `batch_size.dfy` (`BatchSize`): `Integer.parseInt` on decimal text, as
  the JDK's digit loop with its overflow guards, proved against a
  declarative definition (`IntValue`); and the parse-with-default that
  yields the batch size.
- `rows.dfy` (`Rows`): column values, column metadata, the source table,
  reading the metadata in order, and positional binding of a row.
- `copy_engine.dfy` (`CopyEngine`): the class `Engine`, which holds the
  source table, the growing target, the cursor of the current generation,
  `rowCount`, the progress reports and the cycle points. `SyncDataSource`
  runs the streaming `while` loop with reconnect and resumption. Beside the
  loop, a specification states how a run may end (`Streamed`, `Ended`)
  together with a closed-form reference outcome (`ExpectedOutcome`).

The database is abstracted as follows:

- The source table is an immutable `Table`: a sequence of columns and a
  sequence of rows.
- The target is a sequence of bound rows that only grows by appending.
- A cursor is a position: 0 is before the first row, 1..n are the rows and
  n + 1 is after the last row.
- A reconnect opens a fresh cursor over the same source. `generation`
  counts how many cursors were opened.
- The affected-row count that the target reports for the k-th insert is an
  oracle `affected: nat -> int`. The target gains the bound row exactly when
  that count is positive.
- The result of the count query (`selectCount`) is an opaque integer
  parameter `count`.

The model follows the code where the code's behaviour is easy to misread:

- The column metadata, the type codes and the insert statement are built
  once, from the first cursor. They are not re-read after a reconnect.
- `rowCount` is incremented, and the progress line reported, before the
  row's insert executes. `rowCount` is therefore the 1-based number of the
  row being inserted, whether or not the insert succeeds.
- A batch size of 0 passes the parse. It is taken as the fetch size. The
  first accepted insert then evaluates `rowCount % 0`, which ends the run
  with an `ArithmeticException`. This is outcome `DivisionByZero`.
- A negative batch size also passes the parse. The JDBC contract of
  `Statement.setFetchSize` refuses a negative fetch size with an
  `SQLException`, so the run ends before the select is executed. This is
  outcome `FetchSizeRejected`.
- An insert with a non-positive affected count ends the run with a
  `RuntimeException`. This is outcome `ZeroAffected(row)`. The source cursor
  is left open, as it is in the code.

## Model

| member | source | states |
|---|---|---|
| SqlText.SplitJoin | src/main/Main.java:124 | the comma-joined column list splits back into exactly the metadata names, in order, when no name contains a comma |
| SqlText.MarkerCount | src/main/Main.java:125 | the placeholder list holds exactly one `?` per column |
| SqlText.MarkerPieces | src/main/Main.java:125 | the placeholder list is `columnCount` single `?` entries separated by commas, `2 * columnCount - 1` characters long |
| SqlText.ParameterCount | src/main/Main.java:124-126 | with no `?` in the table or column names, the insert statement carries exactly one parameter marker per column |
| SqlText.TwoColumnStatement | src/main/Main.java:126 | the statement for target `T` and columns `id`, `name` is `insert into T (id,name) values (?,?)` |
| BatchSize.ParseInt | src/main/Main.java:50 | the JDK's one-pass digit loop, accumulating the negated value under the `multmin` and `limit` overflow guards, succeeds exactly when the text is an optional sign followed by decimal digits whose value fits a Java `int` (down to -2147483648, up to 2147483647), and then yields that value |
| BatchSize.ParseFormat | src/main/Main.java:50 | every Java `int` written in decimal parses back to itself (stated on `IntValue`, which `ParseInt` is proved to compute) |
| BatchSize.ResolveBatchSize | src/main/Main.java:49-55 | the resolved batch size is always within the Java `int` range |
| BatchSize.ResolveParsed | src/main/Main.java:50 | a property holding an in-range numeral resolves to the numeral's value |
| BatchSize.ResolveFallback | src/main/Main.java:52-53 | a missing key, a non-numeral or an out-of-range numeral resolves to 1000 |
| BatchSize.ResolveFormatted | src/main/Main.java:49-51 | any `int` written out as the property is the batch size used |
| BatchSize.ParseRejectsNonDigit | src/main/Main.java:50 | a non-digit anywhere after the optional sign makes the parse fail |
| BatchSize.ResolveMalformed | src/main/Main.java:49-55 | `abc`, the empty text, a bare `-` and a missing key all resolve to 1000 |
| BatchSize.ResolveOutOfRange | src/main/Main.java:52-53 | every value outside the `int` range, written in decimal, overflows the parse and resolves to 1000 |
| BatchSize.ResolveSignedLeadingZeros | src/main/Main.java:50 | `+0250` resolves to 250: a leading plus sign and leading zeros are accepted |
| Rows.ReadColumns | src/main/Main.java:118-123 | the loop over the metadata yields exactly the column names and the type codes, in metadata order |
| Rows.BindAllAt | src/main/Main.java:130-134 | binding the rows in order gives one insert per row, and insert k binds source row k |
| Rows.BindReordered | src/main/Main.java:132-134 | binding is purely positional: reordering the columns reorders the bound parameters in the same way |
| Rows.SwappedColumns | src/main/Main.java:132-134 | with the columns swapped from (id, name) to (name, id), the two bound parameters swap |
| CopyEngine.ForwardOnlyResumeRefused | src/main/Main.java:159-162 | as written, under a driver that keeps the JDBC contract, every run that copies at least `batchSize` rows cycles at row `batchSize`, and repositioning the new forward-only cursor there is refused |
| CopyEngine.ScrollableResumes | src/main/Main.java:162 | on a scrollable cursor, repositioning at any cycle point k succeeds and the next `next()` delivers row k + 1 |
| CopyEngine.ResumeAfter | src/main/Main.java:162 | `absolute(k)` on a fresh cursor puts it on row k, and the following `next()` delivers row k + 1, or reports the end when k is the last row |
| CopyEngine.MultiplesMember | src/main/Main.java:142 | a row count is a cycle point exactly when it is a positive multiple of the batch size, not above the rows copied |
| CopyEngine.MultiplesIncreasing | src/main/Main.java:142 | cycle points are strictly increasing, so no row count cycles twice |
| CopyEngine.CyclesOfTwoOverFive | src/main/Main.java:142 | with batch size 2 over 5 rows the cycle points are rows 2 and 4 |
| CopyEngine.AcceptedMeans | src/main/Main.java:136-140 | the first k inserts were accepted exactly when each of them reported a positive affected count |
| CopyEngine.StreamedStart | src/main/Main.java:128-130 | before the first row nothing is copied, cycled or reported |
| CopyEngine.StreamedStep | src/main/Main.java:130-163 | one more accepted insert appends exactly that row's binding, appends a cycle point exactly at a multiple of the batch size, and adds one progress line |
| CopyEngine.EndCompleted | src/main/Main.java:130-167 | a cursor that runs off the last row ends a run in which every row was accepted and copied once and in order |
| CopyEngine.EndZeroAffected | src/main/Main.java:136-140 | a non-positive affected count ends the run at that row, with the target as it was before that insert |
| CopyEngine.EndDivisionByZero | src/main/Main.java:142 | with batch size 0 the run ends after the first accepted insert |
| CopyEngine.EndFetchSizeRejected | src/main/Main.java:112 | a negative batch size ends the run before the select, with nothing fetched, copied or cycled |
| CopyEngine.FirstRejectedSpec | src/main/Main.java:136-140 | every insert before the first rejected one was accepted, and the first rejected one was not |
| CopyEngine.FirstRejectedUnique | src/main/Main.java:136-140 | the first rejected insert is the only position with that property |
| CopyEngine.EndedDetermined | src/main/Main.java:106-169 | how a run ends is fully determined by the source, the batch size and the insert outcomes: the outcome equals the reference outcome, the fetched and copied row counts follow from it, the target gains exactly the first `inserted` source rows in order, and the cycle points are the multiples of the batch size up to that number |
| CopyEngine.CompletedExactly | src/main/Main.java:130-164 | a run completes exactly when every insert is accepted and the batch size is positive, or is 0 over an empty source |
| CopyEngine.ZeroAffectedStops | src/main/Main.java:136-140 | a run that stops at row r stops at the first rejected insert, all earlier inserts having been accepted, and appends exactly r - 1 rows |
| CopyEngine.CopiedRows | src/main/Main.java:132-134 | the inserts for the first k rows are one per row, in source order, and parameter i of insert j is value i of row j with the type code of column i |
| CopyEngine.ProgressLinesAt | src/main/Main.java:135 | the i-th progress line reports `rowCount` i + 1 and the count-query total, once per fetched row |
| CopyEngine.UptoAt | src/main/Main.java:130 | the positions the cursors delivered are 1, 2, ..., k: no row is skipped and none is repeated, across any number of reconnects |
| CopyEngine.CountIsAdvisory | src/main/Main.java:108 | replacing the count-query result changes the progress lines and nothing else about how a run ends |
| CopyEngine.ZeroCountStillCopiesAll | src/main/Main.java:130 | with 3 source rows, all accepted, and a positive batch size, a run completes and copies all 3 rows; the count query's result does not enter this |
| CopyEngine.TwoOverFive | src/main/Main.java:142 | with batch size 2 over 5 accepted rows, a run completes and cycles after rows 2 and 4 |
| CopyEngine.Engine.ExecuteQuery | src/main/Main.java:114 | running the select opens a fresh cursor before the first row and starts a new generation |
| CopyEngine.Engine.Next | src/main/Main.java:130 | `next()` advances one position, reports whether it is on a row, and records the delivered row |
| CopyEngine.Engine.Absolute | src/main/Main.java:162 | `absolute(row)` places the cursor at the position JDBC specifies for a scrollable result set, counted from the end for a negative row, without delivering a row |
| CopyEngine.Engine.Close | src/main/Main.java:146-147 | closing the statement leaves no open cursor |
| CopyEngine.Engine.BindCurrent | src/main/Main.java:132-134 | the loop binds value i of the current row with type code i, for every column |
| CopyEngine.Engine.ExecuteInsert | src/main/Main.java:136 | the target gains the bound row exactly when the affected count is positive, and is unchanged otherwise |
| CopyEngine.Engine.Reconnect | src/main/Main.java:146-162 | a cycle opens a new generation whose cursor sits on row `rowCount`, and records `rowCount` as a cycle point |
| CopyEngine.Engine.CycleIfDue | src/main/Main.java:142-163 | connections are cycled exactly when `rowCount` is a multiple of the batch size, and the cursor ends on row `rowCount` either way |
| CopyEngine.Engine.InsertCurrent | src/main/Main.java:131-136 | the insert runs the statement built from the metadata (required as `Prepared`, which by `ParameterCount` has one marker per bound parameter when no name holds a `?`); `rowCount` goes up by one and its progress line is reported before the insert executes; the target gains the current row exactly when the insert is accepted |
| CopyEngine.Engine.Prepare | src/main/Main.java:109-126 | the select opens the first generation's cursor, and the type codes and the insert statement come from the column metadata in order |
| CopyEngine.Engine.ProcessRow | src/main/Main.java:131-163 | one pass of the loop body either ends the run as `Ended` describes, or keeps the streamed state, with the next `next()` delivering row `rowCount + 1` |
| CopyEngine.Engine.StreamRows | src/main/Main.java:130-167 | the `while (resultSet.next())` loop ends in a state `Ended` describes, having delivered rows 1..rowCount once each, with one generation per cycle point |
| CopyEngine.Engine.SyncDataSource | src/main/Main.java:106-169 | a whole run: the insert statement is built from the metadata, and the final target, cycle points, progress lines and fetched rows are those `Ended` describes (which `EndedDetermined` pins down); the cursor is left open on every abort after the select; on `FetchSizeRejected` nothing is opened |

## Findings

| source | as written | input that shows it | evidently intended | confidence | as-written member | corrected member |
|---|---|---|---|---|---|---|
| src/main/Main.java:159-162 | the cursor opened at each cycle is `TYPE_FORWARD_ONLY` and is then repositioned with `absolute(rowCount)`, which the JDBC `ResultSet` contract refuses with an `SQLException` on a forward-only result set | batch size 2, a source of 2 or more rows, every insert accepted, a driver that keeps the JDBC contract: the call at line 162 fails right after row 2 is copied | resumption at row `rowCount + 1` on the new cursor, for example on a scrollable result set | not executed; depends on the driver, since drivers that tolerate `absolute` on a forward-only result set behave as the rest of the model does | CopyEngine.ForwardOnlyResumeRefused | CopyEngine.ScrollableResumes |

The engine (`CopyEngine.Engine.Absolute`) uses the scrollable semantics, so
the rest of the model describes the run the author evidently intended.

## Left out

- Reading the `sync.properties` file, printing the settings, `Class.forName` driver registration and `DriverManager.getConnection` (`src/main/Main.java:37-94`, `149-155`) are I/O and foreign calls. A reconnect is a fresh cursor over the same source, and the property value reaches `BatchSize.ResolveBatchSize` as an `Option<string>`.
- `selectCount` (`src/main/Main.java:96-104`) is a query against the database. It is modelled only by its result, the `count` parameter.
- Console output and `System.gc()` (`src/main/Main.java:135`, `144`, `150`, `155`, `157`) are observability only. Progress lines are kept as `Progress` records.
- Positive fetch-size hints and the auto-commit settings (`src/main/Main.java:87`, `112`, `154`, `160`) change performance and transaction handling, not what is copied. Only the refusal of a negative fetch size is modelled.
- `SQLException`s that the driver may raise from any call (connection loss, a rejected insert, a type the driver cannot convert) are not modelled. The oracle only reports an affected-row count.
- Concurrent changes to the source between reconnects are not modelled. The source is immutable during a run, as the code assumes.
- Row order across executions of the select is assumed stable. `select * from <source>` has no `order by` (`src/main/Main.java:109`, `161`), so even an unchanged table may come back in another order after a reconnect. The model's single `source.rows` sequence assumes every execution returns the same order. The no-skip and no-repeat results rest on that assumption.
- SQL identifier quoting and injection through table or column names are not modelled. Names are spliced in verbatim, which the model mirrors.
- The exact order in which JDBC resources are closed is reduced to one open flag for the current cursor.
- Floating-point column values are not among the `Rows.Value` kinds. Values pass through unchanged, so their kind does not affect the model.
- CopyEngine.Engine.SyncDataSource: `rowCount` is unbounded. The wrap-around of the 32-bit `AtomicInteger` past 2147483647 rows is not modelled.
- CopyEngine.Engine.SyncDataSource: drivers that depart from the JDBC `setFetchSize` contract for negative sizes (such as a streaming hint of `Integer.MIN_VALUE`) are not modelled. Every negative batch size gives `FetchSizeRejected`.
- BatchSize.ParseInt: accepts only the ASCII digits `0`-`9`. Java's `Character.digit` also accepts other Unicode decimal digits.
- CopyEngine.Engine.Absolute: models `absolute` on a scrollable result set, the behaviour the code relies on. The refusal on the forward-only result set the code actually creates appears only in the finding above (`CopyEngine.ForwardOnlyResumeRefused`). The model does not carry a run through that `SQLException`.
