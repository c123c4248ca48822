/**
 * The behaviours the repository's own tests exercise, stated over the model: the
 * records and expectations are those of the tests, the test-side regular expressions
 * and date formatting become caller-supplied functions.
 */
module Scenarios {
  import opened Options
  import opened Levels
  import opened Text
  import opened Rendering
  import opened Filtering
  import opened Assertions
  import opened Appender

  const HelloText := "Hello World!"
  const TwiceText := "My application calls log.info() twice."

  /** The two separators a JVM reports as `System.lineSeparator()`. */
  predicate PlatformSeparator(lineSep: string) {
    lineSep == "\n" || lineSep == "\r\n"
  }

  /** Text without carriage returns is unchanged by the normalisation on either platform. */
  lemma NormalizeKeepsUnixText(s: string, lineSep: string)
    requires PlatformSeparator(lineSep) && '\r' !in s
    ensures Replace(s, lineSep, "\n") == s
  {
    if lineSep == "\n" {
      ReplaceSelf(s, lineSep);
    } else {
      ReplaceSkip(s, "", lineSep, "\n");
      assert s + "" == s;
    }
  }

  /** `String.join` of two lines. */
  lemma JoinTwo(first: string, second: string, sep: string)
    ensures Join([first, second], sep) == first + sep + second
  {
    JoinCons(first, [second], sep);
  }

  /** Filtering a two-record buffer. */
  lemma FilterTwo(first: Event, second: Event, p: Event -> bool)
    ensures Filter([first, second], p) == (if p(first) then [first] else []) + (if p(second) then [second] else [])
  {
    assert [first, second][1..] == [second];
    assert [second][1..] == [];
  }

  /** Filtering a two-record buffer that keeps only the second record. */
  lemma FilterKeepsSecond(first: Event, second: Event, p: Event -> bool)
    requires !p(first) && p(second)
    ensures Filter([first, second], p) == [second]
  {
    FilterTwo(first, second, p);
  }

  /** Filtering a two-record buffer that keeps only the first record. */
  lemma FilterKeepsFirst(first: Event, second: Event, p: Event -> bool)
    requires p(first) && !p(second)
    ensures Filter([first, second], p) == [first]
  {
    FilterTwo(first, second, p);
  }

  /** Filtering a two-record buffer that keeps nothing. */
  lemma FilterKeepsNone(first: Event, second: Event, p: Event -> bool)
    requires !p(first) && !p(second)
    ensures Filter([first, second], p) == []
  {
    FilterTwo(first, second, p);
  }

  /** Two records without a throwable render as their two messages. */
  lemma TwoPlainRecords(first: Event, second: Event, stackDepth: int)
    requires first.throwable.None? && second.throwable.None?
    ensures RenderAll([first, second], stackDepth) == Some([first.formattedMessage, second.formattedMessage])
  {
    var events := [first, second];
    assert events[0] == first && events[1] == second;
    assert Render(events[0], stackDepth) == Some(first.formattedMessage);
    assert Render(events[1], stackDepth) == Some(second.formattedMessage);
    var r := RenderAll(events, stackDepth);
    assert r.Some?;
    assert r.value == [first.formattedMessage, second.formattedMessage];
  }

  /** One record without a throwable renders as its message. */
  lemma OnePlainRecord(e: Event, stackDepth: int)
    requires e.throwable.None?
    ensures RenderAll([e], stackDepth) == Some([e.formattedMessage])
  {
    var events := [e];
    assert events[0] == e;
    assert Render(events[0], stackDepth) == Some(e.formattedMessage);
    var r := RenderAll(events, stackDepth);
    assert r.Some?;
    assert r.value == [e.formattedMessage];
  }

  /** An expectation without carriage returns that spells out the rendered lines passes on either platform. */
  lemma PassesOnLines(events: seq<Event>, lines: seq<string>, lineSep: string, expected: string)
    requires PlatformSeparator(lineSep) && '\r' !in expected
    requires RenderAll(events, DefaultStackDepth) == Some(lines) && Join(lines, "\n") == expected
    ensures AssertLogs(events, DefaultStackDepth, lineSep, expected) == Pass
  {
    NormalizeKeepsUnixText(expected, lineSep);
  }

  /** The messages of the first tests contain no carriage return. */
  lemma LoggedTextsArePlain()
    ensures '\r' !in HelloText && '\r' !in TwiceText && '\r' !in NextText
  {
  }

  /** Nor do the texts of the mapper test. */
  lemma MapperTextsArePlain()
    ensures '\r' !in RedactedTime && '\r' !in RedactedUser && '\r' !in TimePrefix && '\r' !in UserLine
  {
  }

  /** The buffer of the first test: an INFO record then a WARN record (the tests log "Hello World!" and a warning). */
  function FirstBuffer(info: string, warning: string): seq<Event> {
    [Event(Info, info, None), Event(Warn, warning, None)]
  }

  /** The whole buffer reads as both messages, in arrival order. */
  lemma WholeTranscript(lineSep: string, info: string, warning: string)
    requires PlatformSeparator(lineSep) && '\r' !in info && '\r' !in warning
    ensures AssertLogs(FirstBuffer(info, warning), DefaultStackDepth, lineSep, info + "\n" + warning) == Pass
  {
    var events := FirstBuffer(info, warning);
    TwoPlainRecords(events[0], events[1], DefaultStackDepth);
    JoinTwo(info, warning, "\n");
    PassesOnLines(events, [info, warning], lineSep, info + "\n" + warning);
  }

  /** A buffer holding one plain record reads as its message. */
  lemma OneRecordTranscript(lineSep: string, level: Level, text: string)
    requires PlatformSeparator(lineSep) && '\r' !in text
    ensures AssertLogs([Event(level, text, None)], DefaultStackDepth, lineSep, text) == Pass
  {
    OnePlainRecord(Event(level, text, None), DefaultStackDepth);
    PassesOnLines([Event(level, text, None)], [text], lineSep, text);
  }

  /** An empty buffer reads as the empty text. */
  lemma EmptyTranscript(lineSep: string)
    requires PlatformSeparator(lineSep)
    ensures AssertLogs([], DefaultStackDepth, lineSep, "") == Pass
  {
    PassesOnLines([], [], lineSep, "");
  }

  /** The level overload on a buffer whose selection is known. */
  lemma LevelView(events: seq<Event>, selected: seq<Event>, lineSep: string, level: Level, expected: string)
    requires |lineSep| > 0
    requires Filter(events, AtLogLevel(level)) == selected
    requires AssertLogs(selected, DefaultStackDepth, lineSep, expected) == Pass
    ensures AssertLogsAt(events, DefaultStackDepth, lineSep, level, expected) == Pass
  {
    AssertLogsAtIsFilteredAssertLogs(events, DefaultStackDepth, lineSep, level, expected);
  }

  /** Seen at WARN, a buffer holding only a warning is that warning; seen at ERROR it is empty. */
  lemma WarningOnlyLevelViews(lineSep: string, warning: string)
    requires PlatformSeparator(lineSep) && '\r' !in warning
    ensures AssertLogsAt([Event(Warn, warning, None)], DefaultStackDepth, lineSep, Warn, warning) == Pass
    ensures AssertLogsAt([Event(Warn, warning, None)], DefaultStackDepth, lineSep, Error, "") == Pass
  {
    var events := [Event(Warn, warning, None)];
    assert events[1..] == [];
    OneRecordTranscript(lineSep, Warn, warning);
    EmptyTranscript(lineSep);
    LevelView(events, events, lineSep, Warn, warning);
    LevelView(events, [], lineSep, Error, "");
  }

  /** The WARN view of the first buffer is the warning alone (INFO is below WARN), its ERROR view is empty. */
  lemma LevelTranscripts(lineSep: string, info: string, warning: string)
    requires PlatformSeparator(lineSep) && '\r' !in warning
    ensures AssertLogsAt(FirstBuffer(info, warning), DefaultStackDepth, lineSep, Warn, warning) == Pass
    ensures AssertLogsAt(FirstBuffer(info, warning), DefaultStackDepth, lineSep, Error, "") == Pass
  {
    var events := FirstBuffer(info, warning);
    assert !AtLogLevel(Warn)(events[0]) && AtLogLevel(Warn)(events[1]);
    FilterKeepsSecond(events[0], events[1], AtLogLevel(Warn));
    assert !AtLogLevel(Error)(events[0]) && !AtLogLevel(Error)(events[1]);
    FilterKeepsNone(events[0], events[1], AtLogLevel(Error));
    OneRecordTranscript(lineSep, Warn, warning);
    EmptyTranscript(lineSep);
    LevelView(events, [events[1]], lineSep, Warn, warning);
    LevelView(events, [], lineSep, Error, "");
  }

  /** The message of `assertAnyLog` for a two-record buffer. */
  lemma TwoRecordsMessage()
    ensures NoneMatchedMessage(2) == "None of the 2 log lines matched"
  {
    assert Decimal(2) == "2";
    assert NoneMatchedMessage(2) == "None of the " + "2" + " log lines matched";
  }

  /** The message of `assertNoLog` for one matching record. */
  lemma OneMatchMessage()
    ensures FoundMatchingMessage(1) == "Found 1 matching log line(s)"
  {
    assert Decimal(1) == "1";
    assert FoundMatchingMessage(1) == "Found " + "1" + " matching log line(s)";
  }

  /** `assertAnyLog` passes when the INFO record matches, alone or combined with `atLogLevel(INFO)`. */
  lemma AnyLogMatches(lineSep: string, info: string, warning: string, hello: Event -> bool)
    requires hello(Event(Info, info, None))
    ensures AssertAnyLog(FirstBuffer(info, warning), DefaultStackDepth, lineSep, hello) == Pass
    ensures AssertAnyLog(FirstBuffer(info, warning), DefaultStackDepth, lineSep, e => AtLogLevel(Info)(e) && hello(e)) == Pass
  {
    assert FirstBuffer(info, warning)[0] == Event(Info, info, None);
  }

  /** `assertAnyLog` on a buffer where nothing matches and whose rendering is known. */
  lemma AnyLogFailure(events: seq<Event>, lines: seq<string>, lineSep: string, p: Event -> bool)
    requires forall i :: 0 <= i < |events| ==> !p(events[i])
    requires RenderAll(events, DefaultStackDepth) == Some(lines)
    ensures AssertAnyLog(events, DefaultStackDepth, lineSep, p)
            == Failure(PredicateSentinel, Join(lines, lineSep), NoneMatchedMessage(|events|))
  {
  }

  /** When nothing matches, `assertAnyLog` reports the number of records and the whole buffer. */
  lemma AnyLogReportsBuffer(lineSep: string, info: string, warning: string, notLogged: Event -> bool)
    requires !notLogged(Event(Info, info, None)) && !notLogged(Event(Warn, warning, None))
    ensures AssertAnyLog(FirstBuffer(info, warning), DefaultStackDepth, lineSep, e => AtLogLevel(Info)(e) && notLogged(e))
            == Failure("<Predicate>", info + lineSep + warning, "None of the 2 log lines matched")
  {
    var events := FirstBuffer(info, warning);
    TwoPlainRecords(events[0], events[1], DefaultStackDepth);
    AnyLogFailure(events, [info, warning], lineSep, e => AtLogLevel(Info)(e) && notLogged(e));
    JoinTwo(info, warning, lineSep);
    TwoRecordsMessage();
  }

  /** `assertNoLog` passes when nothing matches. */
  lemma NoLogWithoutMatch(lineSep: string, info: string, warning: string, hi: Event -> bool)
    requires !hi(Event(Info, info, None)) && !hi(Event(Warn, warning, None))
    ensures AssertNoLog(FirstBuffer(info, warning), DefaultStackDepth, lineSep, hi) == Pass
    ensures AssertNoLog(FirstBuffer(info, warning), DefaultStackDepth, lineSep, e => AtLogLevel(Info)(e) && hi(e)) == Pass
  {
    var events := FirstBuffer(info, warning);
    assert events[0] == Event(Info, info, None) && events[1] == Event(Warn, warning, None);
  }

  /** `assertNoLog` on a buffer whose matching records and their rendering are known. */
  lemma NoLogFailure(events: seq<Event>, matches: seq<Event>, lines: seq<string>, lineSep: string, p: Event -> bool)
    requires Filter(events, p) == matches && |matches| > 0
    requires RenderAll(matches, DefaultStackDepth) == Some(lines)
    ensures AssertNoLog(events, DefaultStackDepth, lineSep, p)
            == Failure(NoMatchSentinel, Join(lines, lineSep), FoundMatchingMessage(|matches|))
  {
    FilterEmpty(events, p);
  }

  /** When the INFO record matches, `assertNoLog` reports exactly that record. */
  lemma NoLogReportsMatch(lineSep: string, info: string, warning: string, hello: Event -> bool)
    requires hello(Event(Info, info, None)) && !hello(Event(Warn, warning, None))
    ensures AssertNoLog(FirstBuffer(info, warning), DefaultStackDepth, lineSep, e => AtLogLevel(Info)(e) && hello(e))
            == Failure("<No match for Predicate>", info, "Found 1 matching log line(s)")
  {
    var events := FirstBuffer(info, warning);
    var p := (e: Event) => AtLogLevel(Info)(e) && hello(e);
    assert p(events[0]) && !p(events[1]);
    FilterKeepsFirst(events[0], events[1], p);
    OnePlainRecord(events[0], DefaultStackDepth);
    NoLogFailure(events, [events[0]], [info], lineSep, p);
    OneMatchMessage();
  }

  const TimePrefix := "The time is "
  const UserLine := "User name: John Smith"
  const RedactedTime := "The time is hh:mm"
  const RedactedUser := "User name: <USER NAME>"

  /** A mapper redacts the clock and the user name of the whole buffer before comparison. */
  lemma MappedTranscript(lineSep: string, time: string, mapper: string -> string)
    requires PlatformSeparator(lineSep)
    requires mapper(TimePrefix + time) == RedactedTime && mapper(UserLine) == RedactedUser
    ensures AssertLogsMapped([Event(Info, TimePrefix + time, None), Event(Warn, UserLine, None)], DefaultStackDepth,
                             lineSep, mapper, RedactedTime + "\n" + RedactedUser) == Pass
  {
    MapperTextsArePlain();
    var events := [Event(Info, TimePrefix + time, None), Event(Warn, UserLine, None)];
    TwoPlainRecords(events[0], events[1], DefaultStackDepth);
    var lines := [TimePrefix + time, UserLine];
    assert MapLines(lines, mapper) == [RedactedTime, RedactedUser];
    JoinTwo(RedactedTime, RedactedUser, "\n");
    NormalizeKeepsUnixText(RedactedTime + "\n" + RedactedUser, lineSep);
  }

  /** The same mapper after the WARN filter. */
  lemma MappedWarnTranscript(lineSep: string, time: string, mapper: string -> string)
    requires PlatformSeparator(lineSep)
    requires mapper(UserLine) == RedactedUser
    ensures AssertLogsAtMapped([Event(Info, TimePrefix + time, None), Event(Warn, UserLine, None)], DefaultStackDepth,
                               lineSep, Warn, mapper, RedactedUser) == Pass
  {
    MapperTextsArePlain();
    var user := Event(Warn, UserLine, None);
    var events := [Event(Info, TimePrefix + time, None), user];
    FilterTwo(events[0], user, AtLogLevel(Warn));
    OnePlainRecord(user, DefaultStackDepth);
    assert LoggedLinesAt(events, Warn, DefaultStackDepth) == Some([UserLine]);
    assert MapLines([UserLine], mapper) == [RedactedUser];
    NormalizeKeepsUnixText(RedactedUser, lineSep);
  }

  /** Mapping left the buffer alone: the unmapped assertion still sees the original text. */
  lemma UnmappedTranscript(lineSep: string, time: string)
    requires PlatformSeparator(lineSep) && '\r' !in time
    ensures AssertLogs([Event(Info, TimePrefix + time, None), Event(Warn, UserLine, None)], DefaultStackDepth,
                       lineSep, TimePrefix + time + "\n" + UserLine) == Pass
  {
    MapperTextsArePlain();
    var events := [Event(Info, TimePrefix + time, None), Event(Warn, UserLine, None)];
    TwoPlainRecords(events[0], events[1], DefaultStackDepth);
    JoinTwo(TimePrefix + time, UserLine, "\n");
    PassesOnLines(events, [TimePrefix + time, UserLine], lineSep, TimePrefix + time + "\n" + UserLine);
  }

  /**
   * Restarting at WARN: the INFO record never reaches the buffer, and the ERROR view
   * of the buffer is empty.
   */
  method ShouldStartWithSpecifiedLevel(lineSep: string) returns (all: Outcome, errorsOnly: Outcome)
    requires PlatformSeparator(lineSep)
    ensures all == Pass && errorsOnly == Pass
  {
    var root := new RootLogger({});
    var appender := new TestAppender(true);
    appender.StartAt(root, Some(Info));
    appender.Stop();
    appender.StartAt(root, Some(Warn));
    assert root.captures == {appender} && root.level == Warn && appender.started && appender.events == [];
    var records := FirstBuffer(HelloText, TwiceText);
    root.Emit(records[0]);
    assert appender.events == [];
    root.Emit(records[1]);
    assert appender.events == [records[1]];
    LoggedTextsArePlain();
    OneRecordTranscript(lineSep, Warn, TwiceText);
    WarningOnlyLevelViews(lineSep, TwiceText);
    all := AssertLogs(appender.events, appender.stackDepth, lineSep, TwiceText);
    errorsOnly := AssertLogsAt(appender.events, appender.stackDepth, lineSep, Error, "");
  }

  /**
   * An appender created with WARN applies it on start; starting it detaches and stops
   * the appender the test class had started, which then captures nothing.
   */
  method ShouldCreateWithSpecifiedLevel(lineSep: string) returns (all: Outcome, warnings: Outcome, earlier: seq<Event>)
    requires PlatformSeparator(lineSep)
    ensures all == Pass && warnings == Pass && earlier == []
  {
    var root := new RootLogger({});
    var appender := new TestAppender(true);
    appender.StartAt(root, Some(Info));
    assert appender.events == [];
    var appender1 := new TestAppender.WithLevel(true, Warn);
    appender1.Start(root);
    assert root.captures == {appender1} && root.level == Warn && appender1.started;
    assert appender.events == [] && appender1.events == [];
    var records := FirstBuffer(HelloText, TwiceText);
    root.Emit(records[0]);
    assert appender1.events == [];
    root.Emit(records[1]);
    assert appender1.events == [records[1]];
    LoggedTextsArePlain();
    OneRecordTranscript(lineSep, Warn, TwiceText);
    WarningOnlyLevelViews(lineSep, TwiceText);
    all := AssertLogs(appender1.events, appender1.stackDepth, lineSep, TwiceText);
    warnings := AssertLogsAt(appender1.events, appender1.stackDepth, lineSep, Warn, TwiceText);
    earlier := appender.events;
  }

  const PreviousText := "Has logged previously"
  const NextText := "Logs from another test"

  /** Starting an appender that is already started still empties its buffer. */
  method ShouldClearLogsBetweenTests(lineSep: string) returns (o: Outcome)
    requires PlatformSeparator(lineSep)
    ensures o == Pass
  {
    var root := new RootLogger({});
    var appender := new TestAppender(true);
    appender.StartAt(root, Some(Info));
    root.Emit(Event(Info, PreviousText, None));
    appender.Start(root);
    root.Emit(Event(Info, NextText, None));
    assert appender.events == [Event(Info, NextText, None)];
    LoggedTextsArePlain();
    OneRecordTranscript(lineSep, Info, NextText);
    o := AssertLogs(appender.events, appender.stackDepth, lineSep, NextText);
  }
}
