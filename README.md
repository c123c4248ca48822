# TestAppender, modelled in Dafny

`TestAppender` is a logback appender for unit tests. It captures the log records a test
produces and lets the test assert on the captured transcript. This project models its
parts as follows:

- **The capture state** (`appender.dfy`). `TestAppender` is a class with an ordered
  buffer of records, an optional capture level, a stack depth and the inherited
  `started` flag. Its methods are the constructors, `setLevel`, `setStackDepth`,
  `append`, `reset`, `stop`, `start()` and `start(level)`.
- **The root logger** (`appender.dfy`). It is a class that holds a level, the attached
  capture appenders and the other appenders. `start()` reconfigures it. `Emit` hands a
  record to every started capture appender when the record's level is at or above the
  root level.
- **Rendering** (`rendering.dfy`). `extractFormattedMessage` becomes `Render`. The
  result is the formatted message. When there is a throwable and the depth is non-zero,
  the message is followed by a `ClassName: message` line and at most `stackDepth` frame
  lines, each indented by four spaces.
- **Read-time filtering** (`filtering.dfy`). `atLogLevel` and the `filter` stage keep
  the records whose severity rank is at or above a threshold.
- **Assertions** (`assertions.dfy`). These are the four `assertLogs` overloads,
  `assertAnyLog` and `assertNoLog`. Each one is a function of the buffer, the stack
  depth and the platform line separator. It returns an `Outcome`:
  - `Pass`;
  - `Failure(expected, actual, message)`, which is JUnit's assertion error;
  - `IllegalArgument`, which is the exception `Stream.limit` throws on a negative depth.
- **Scenarios** (`scenarios.dfy`). These are the behaviours the repository's tests
  exercise, restated over the model. The test-side regular expressions and date
  formatting become caller-supplied functions.

Some of the string helpers are generic and live in `text.dfy`:

- `String.join`;
- `String.replace`, with left-to-right, non-overlapping replacement;
- splitting a string into lines;
- decimal printing of counts.

Levels are logback's integer ranks, from ALL (-2^31) to OFF (2^31-1). They are compared
the way `Level.isGreaterOrEqual` compares them.

## Model

| member | source | states |
|---|---|---|
| Levels.SeverityIsTotalOrder | src/main/java/io/github/nalbion/TestAppender.java:51 | the severity comparison `isGreaterOrEqual` is reflexive, antisymmetric, transitive and total over the seven levels |
| Filtering.LevelViewsNest | src/main/java/io/github/nalbion/TestAppender.java:50-52 | the views nest: for a higher threshold, the records `atLogLevel` selects are a subsequence of those selected at a lower threshold (the ERROR view sits inside the WARN view, which sits inside the INFO view) |
| Filtering.Filter | src/main/java/io/github/nalbion/TestAppender.java:197-202 | the `filter` stage keeps only records that satisfy the predicate, each taken from the input, and never lengthens the sequence |
| Filtering.FilterCounts | src/main/java/io/github/nalbion/TestAppender.java:197-202 | every record that satisfies the predicate is kept as often as it occurs; every other record is dropped |
| Filtering.FilterIsSubsequence | src/main/java/io/github/nalbion/TestAppender.java:197-202 | the filtered records appear in buffer order, as a subsequence of the buffer |
| Filtering.FilterEmpty | src/main/java/io/github/nalbion/TestAppender.java:156-157 | the filtered sequence is empty if and only if no record satisfies the predicate |
| Filtering.FilterAppend | src/main/java/io/github/nalbion/TestAppender.java:197-202 | filtering distributes over concatenation, so records appended later are selected after earlier ones |
| Filtering.AnyMatch | src/main/java/io/github/nalbion/TestAppender.java:148 | `anyMatch` is true exactly when some record satisfies the predicate |
| Filtering.RenderSubsequence | src/main/java/io/github/nalbion/TestAppender.java:197-206 | the rendered lines of a subsequence of the buffer are a subsequence of the rendered buffer |
| Rendering.FrameLines | src/main/java/io/github/nalbion/TestAppender.java:180-182 | `limit(depth)` then indent: exactly min(depth, #frames) lines, where line i is four spaces followed by frame i |
| Rendering.Render | src/main/java/io/github/nalbion/TestAppender.java:173-187 | rendering fails exactly when the depth is negative and a throwable is present; with depth 0 or no throwable it is the plain message; otherwise it starts with the message |
| Rendering.RenderIsJoinOfBlockLines | src/main/java/io/github/nalbion/TestAppender.java:178-183 | a rendered throwable record is the message, the header and the kept frames (or one empty line when none is kept), joined by "\n" |
| Rendering.RenderedLines | src/main/java/io/github/nalbion/TestAppender.java:173-187 | for a record with a throwable, at a positive depth, whose message, header and frames contain no line break: read line by line, the rendering is the message, `ClassName: message` (a null message printed as "null"), then exactly min(depth, #frames) indented frames, or one empty last line when no frame is kept; frames past the depth leave no trace |
| Rendering.RenderAll | src/main/java/io/github/nalbion/TestAppender.java:204-206 | the mapped buffer exists exactly when every record renders; it then has one line per record, in order |
| Rendering.RenderAllAppend | src/main/java/io/github/nalbion/TestAppender.java:169-171 | appending a record extends the rendered buffer by exactly that record's text, so arrival order is kept |
| Text.ReplaceSelf | src/main/java/io/github/nalbion/TestAppender.java:190-192 | replacing "\n" by "\n" changes nothing, so skipping the replacement on a "\n" platform is sound |
| Text.ReplaceJoin | src/main/java/io/github/nalbion/TestAppender.java:191 | lines joined by the platform separator become the same lines joined by "\n" after `replace` |
| Text.SplitJoin | src/main/java/io/github/nalbion/TestAppender.java:194 | lines without line breaks are recovered from their "\n"-join, so comparing joined texts compares the lines |
| Text.Decimal | src/main/java/io/github/nalbion/TestAppender.java:151 | a count is printed as a non-empty string of decimal digits, with no leading zero unless the count is 0 |
| Text.DecimalRoundTrip | src/main/java/io/github/nalbion/TestAppender.java:151 | the decimal text a count is printed as reads back as that count |
| Assertions.Normalize | src/main/java/io/github/nalbion/TestAppender.java:190-192 | the expectation after the separator check is every occurrence of the platform separator replaced by "\n", whichever branch is taken |
| Assertions.AssertLogsInternal | src/main/java/io/github/nalbion/TestAppender.java:189-195 | passes exactly when the normalised expectation equals the lines joined by "\n"; otherwise it fails with "Log assertion failed" |
| Assertions.AssertLogs | src/main/java/io/github/nalbion/TestAppender.java:116-118 | fails with IllegalArgument exactly when the depth is negative and some record has a throwable; passes exactly when the normalised expectation equals the whole rendered buffer joined by "\n"; otherwise it fails with those two texts and "Log assertion failed" |
| Assertions.LoggedLinesAt | src/main/java/io/github/nalbion/TestAppender.java:197-202 | `getLoggedLines(level)` has one line per record at or above the level; line i is the rendering of the i-th such record in buffer order; and its lines are a subsequence of `getLoggedLines()` |
| Assertions.SelectedRenderable | src/main/java/io/github/nalbion/TestAppender.java:156 | the selected records all render exactly when every record that satisfies the predicate renders |
| Assertions.AssertLogsAt | src/main/java/io/github/nalbion/TestAppender.java:126-128 | the same as AssertLogs, for the records at or above the level only; only their throwables can raise IllegalArgument, and a failure carries the normalised expectation, their joined lines and "Log assertion failed" |
| Assertions.AssertLogsAtIsFilteredAssertLogs | src/main/java/io/github/nalbion/TestAppender.java:126-128 | the level overload equals the plain overload applied to `filter(atLogLevel(level))` of the buffer |
| Assertions.MapLinesAppend | src/main/java/io/github/nalbion/TestAppender.java:134 | the `map(mapper)` stage distributes over concatenation: each line is mapped on its own, whatever comes before or after it |
| Assertions.MapLinesCompose | src/main/java/io/github/nalbion/TestAppender.java:133-134 | mapping by one function and then another is mapping by their composition |
| Assertions.AssertLogsMapped | src/main/java/io/github/nalbion/TestAppender.java:139-145 | passes exactly when the normalised expectation (every platform separator replaced by "\n") equals the mapped rendered buffer joined by "\n"; otherwise it fails with both texts and "Log assertion failed"; the buffer is an input and is not changed |
| Assertions.AssertLogsAtMapped | src/main/java/io/github/nalbion/TestAppender.java:130-137 | the same as AssertLogsMapped, after level filtering: the mapper sees only the records at or above the level, only their throwables can raise IllegalArgument, and the comparison is with the normalised expectation |
| Assertions.IdentityMapperChangesNothing | src/main/java/io/github/nalbion/TestAppender.java:130-145 | with the identity mapper, both mapped overloads give the same outcome as the unmapped ones |
| Assertions.AssertAnyLog | src/main/java/io/github/nalbion/TestAppender.java:147-153 | passes if and only if some record satisfies the predicate; otherwise it fails with "<Predicate>", the whole buffer joined by the platform separator and "None of the N log lines matched" with N the buffer size |
| Assertions.AssertAnyLogAsWritten | src/main/java/io/github/nalbion/TestAppender.java:147-153 | the code as written passes if and only if some record matches, or the whole rendered buffer joined by the platform separator is exactly "<Predicate>"; otherwise it agrees with AssertAnyLog |
| Assertions.AssertAnyLogAsWrittenPassesWithoutMatch | src/main/java/io/github/nalbion/TestAppender.java:148-151 | a single unmatched record whose text is "<Predicate>" passes the as-written check but fails the intended one |
| Assertions.AssertNoLog | src/main/java/io/github/nalbion/TestAppender.java:155-162 | passes if and only if no record satisfies the predicate; otherwise it fails with "<No match for Predicate>", the rendered text of exactly the matching records and "Found K matching log line(s)" with K their count |
| Assertions.AssertNoLogAsWritten | src/main/java/io/github/nalbion/TestAppender.java:155-162 | the code as written passes if and only if no record matches, or the matching records rendered and joined by the platform separator are exactly "<No match for Predicate>"; otherwise it agrees with AssertNoLog |
| Assertions.AssertNoLogAsWrittenPassesWithMatch | src/main/java/io/github/nalbion/TestAppender.java:157-160 | a matching WARN record whose text is "<No match for Predicate>" passes the as-written check but fails the intended one |
| Assertions.AssertLogsComparesLines | src/main/java/io/github/nalbion/TestAppender.java:111-118 | for a buffer whose records carry no throwable and have single-line messages, and expected lines that contain neither "\n" nor the first character of the platform separator: the expectation, written as those lines joined by the platform separator, passes if and only if the buffer's messages are exactly those lines (an empty buffer matches one empty line) |
| Appender.RootLogger.DetachAndStopAllAppenders | src/main/java/io/github/nalbion/TestAppender.java:99-101 | every capture appender previously attached is stopped, and no appender stays attached |
| Appender.RootLogger.AddAppender | src/main/java/io/github/nalbion/TestAppender.java:102 | the appender is attached, and the others stay attached |
| Appender.RootLogger.SetLevel | src/main/java/io/github/nalbion/TestAppender.java:103-105 | the root level becomes the given level |
| Appender.RootLogger.Emit | src/main/java/io/github/nalbion/TestAppender.java:168-171 | every started capture appender receives the record at the end of its buffer exactly when the record is at or above the root level; no other buffer changes |
| Appender.TestAppender.constructor | src/main/java/io/github/nalbion/TestAppender.java:60-62 | a new appender is empty, not started, with no level and stack depth 4 |
| Appender.TestAppender.WithLevel | src/main/java/io/github/nalbion/TestAppender.java:64-67 | the same, with the given capture level |
| Appender.TestAppender.SetLevel | src/main/java/io/github/nalbion/TestAppender.java:74-76 | only the configured level changes |
| Appender.TestAppender.SetStackDepth | src/main/java/io/github/nalbion/TestAppender.java:81-83 | only the stack depth changes, to any integer |
| Appender.TestAppender.Append | src/main/java/io/github/nalbion/TestAppender.java:169-171 | the buffer becomes the old buffer plus the record at its end |
| Appender.TestAppender.Reset | src/main/java/io/github/nalbion/TestAppender.java:164-166 | the buffer becomes empty |
| Appender.TestAppender.Stop | src/test/java/io/github/nalbion/TestAppenderTest.java:111 | the appender is no longer started; the buffer is untouched |
| Appender.TestAppender.Start | src/main/java/io/github/nalbion/TestAppender.java:96-109 | the buffer is always emptied and the appender started. Only if it was not started: others are detached and stopped when `detachOthers` is set, this appender is attached, and the root level is set when a level is configured |
| Appender.TestAppender.StartAt | src/main/java/io/github/nalbion/TestAppender.java:90-93 | the new state is that of `setLevel(level)` followed by `start()` |
| Scenarios.NormalizeKeepsUnixText | src/main/java/io/github/nalbion/TestAppender.java:189-192 | an expectation without carriage returns is unchanged by the normalisation on both a "\n" and a "\r\n" platform |
| Scenarios.WholeTranscript | src/test/java/io/github/nalbion/TestAppenderTest.java:22-30 | an INFO record followed by a WARN record reads as both messages in arrival order |
| Scenarios.LevelTranscripts | src/test/java/io/github/nalbion/TestAppenderTest.java:31 | seen at WARN, the same buffer is the warning alone; seen at ERROR, it is empty |
| Scenarios.AnyLogMatches | src/test/java/io/github/nalbion/TestAppenderTest.java:45-50 | assertAnyLog passes when the INFO record matches, alone or combined with `atLogLevel(INFO)` |
| Scenarios.AnyLogReportsBuffer | src/test/java/io/github/nalbion/TestAppenderTest.java:52-62 | when nothing matches, the failure is "<Predicate>" against both messages, with "None of the 2 log lines matched" |
| Scenarios.NoLogWithoutMatch | src/test/java/io/github/nalbion/TestAppenderTest.java:72-77 | assertNoLog passes when nothing matches |
| Scenarios.NoLogReportsMatch | src/test/java/io/github/nalbion/TestAppenderTest.java:79-87 | when the INFO record matches, the failure reports that record's text alone, with "Found 1 matching log line(s)" |
| Scenarios.MappedTranscript | src/test/java/io/github/nalbion/TestAppenderTest.java:96-103 | a mapper that redacts the clock and the user name makes the whole buffer match the redacted text |
| Scenarios.MappedWarnTranscript | src/test/java/io/github/nalbion/TestAppenderTest.java:105-106 | after the WARN filter, the mapper sees and redacts only the user-name line |
| Scenarios.UnmappedTranscript | src/test/java/io/github/nalbion/TestAppenderTest.java:91-107 | the mapped assertions leave the buffer alone: an unmapped assertion still sees the original texts |
| Scenarios.ShouldStartWithSpecifiedLevel | src/test/java/io/github/nalbion/TestAppenderTest.java:110-121 | after stop and `start(WARN)`, the INFO record never reaches the buffer; the buffer reads as the warning, and its ERROR view is empty |
| Scenarios.ShouldCreateWithSpecifiedLevel | src/test/java/io/github/nalbion/TestAppenderTest.java:124-135 | an appender created with WARN applies that level on `start()`; the appender started earlier is detached and captures nothing |
| Scenarios.ShouldClearLogsBetweenTests | src/test/java/io/github/nalbion/TestAppenderTest.java:137-148 | starting an appender that is already started still empties its buffer, so only the later record is seen |

## Left out

- Logging back end: `LoggerFactory.getLogger`, `addAppender`, `detachAndStopAllAppenders` and `setLevel` are library calls. They are modelled only as their effect on an abstract root logger, which holds a level and sets of attached appenders.
- Appenders the capture detaches: "other" appenders are opaque objects. Their stopping is not modelled. They are not restored after a test, and neither is the root level; the source does not restore them either.
- Appender.RootLogger.Emit: assumes logback's dispatch through a logger that inherits the root level, that is, no logger between the emitting one and the root sets its own level. A record below that effective level is dropped. Otherwise it reaches every attached appender whose `started` flag is set, as the base appender's `doAppend` does. That library code is not part of this model.
- Appender.TestAppender.Stop: `stop()` is inherited from the base appender, and its code is not part of this model. Its contract only clears `started`.
- SLF4J `{}` substitution: a record's formatted message is an opaque string.
- JUnit's failure-message layout (`... ==> expected: <...> but was: <...>`): a failure carries the expected text, the actual text and the message as separate fields.
- Test-side regular expressions, `SimpleDateFormat` and `Date` become caller-supplied functions. The test at src/test/java/com/github/nalbion/TestAppenderTest.java targets a different class, which has an `assertLogs(Predicate)` overload, and is not part of this model.
- Platform line separator: it is a parameter. The scenarios admit "\n" and "\r\n".
- Thread safety: the synchronisation of `doAppend` is concurrency and is not modelled.
- Throwable cause chains: the source never renders them.
- Negative stack depth: it is accepted by `setStackDepth`. Rendering then fails as `IllegalArgument` for records with a throwable, because `Stream.limit` rejects a negative size. Records without a throwable, or a depth of 0, render as the plain message.
- Mapped assertions: the mapper receives the whole output of `extractFormattedMessage`, throwable block included, because the code maps after rendering.
- Assertions.AssertEquals: JUnit's `assertEquals` is reduced to its outcome. It is a definition that the assertions build on, not a proved property.
- Filtering.AtLogLevel and Assertions.MapLines: these are definitions. The properties stated about them are in Filtering.LevelViewsNest, Assertions.MapLinesAppend and Assertions.MapLinesCompose.
- Java `int` width: counts and the stack depth are unbounded integers. A buffer of more than 2^31-1 records is not modelled.

## Findings

| source | as written | input that shows it | evidently intended | confidence | as-written member | corrected member |
|---|---|---|---|---|---|---|
| src/main/java/io/github/nalbion/TestAppender.java:147-153 | when no record matches, `assertAnyLog` calls `assertEquals("<Predicate>", transcript, ...)`, which passes if the transcript is that text | one INFO record "<Predicate>" and a predicate that rejects every record: no record matches, yet the assertion passes | fail whenever no record matches | high (not executed) | Assertions.AssertAnyLogAsWritten, Assertions.AssertAnyLogAsWrittenPassesWithoutMatch | Assertions.AssertAnyLog |
| src/main/java/io/github/nalbion/TestAppender.java:155-162 | when records match, `assertNoLog` calls `assertEquals("<No match for Predicate>", matches, ...)`, which passes if the matching records render to that text | one WARN record "<No match for Predicate>" and `atLogLevel(WARN)`: the record matches, yet the assertion passes | fail whenever some record matches | high (not executed) | Assertions.AssertNoLogAsWritten, Assertions.AssertNoLogAsWrittenPassesWithMatch | Assertions.AssertNoLog |
