/**
 * The assertion operations of the appender, as functions of the buffer, the stack
 * depth and the platform line separator. Instead of throwing, each returns an Outcome.
 */
module Assertions {
  import opened Options
  import opened Levels
  import opened Text
  import opened Rendering
  import opened Filtering

  /**
   * `Failure` is JUnit's AssertionFailedError with its expected text, actual text and
   * message; `IllegalArgument` is the exception rendering throws on a negative depth.
   */
  datatype Outcome = Pass | Failure(expected: string, actual: string, message: string) | IllegalArgument

  const LogAssertionFailed := "Log assertion failed"
  const PredicateSentinel := "<Predicate>"
  const NoMatchSentinel := "<No match for Predicate>"

  function NoneMatchedMessage(count: nat): string {
    "None of the " + Decimal(count) + " log lines matched"
  }

  function FoundMatchingMessage(count: nat): string {
    "Found " + Decimal(count) + " matching log line(s)"
  }

  /** JUnit's `assertEquals(expected, actual, message)`: passes exactly when the texts are equal. */
  function AssertEquals(expected: string, actual: string, message: string): (o: Outcome)
    ensures o.Pass? <==> expected == actual
    ensures !o.Pass? ==> o == Failure(expected, actual, message)
  {
    if expected == actual then Pass else Failure(expected, actual, message)
  }

  /**
   * The normalisation of `expected` in `assertLogsInternal`: the replacement is skipped
   * when the separator is already "\n", which changes nothing, since replacing a text by
   * itself is the identity.
   */
  function Normalize(expected: string, lineSep: string): (r: string)
    requires |lineSep| > 0
    ensures r == Replace(expected, lineSep, "\n")
  {
    if lineSep == "\n" then ReplaceSelf(expected, lineSep); expected
    else Replace(expected, lineSep, "\n")
  }

  /** `assertLogsInternal`: the normalised expectation against the lines joined by "\n". */
  function AssertLogsInternal(expected: string, actual: seq<string>, lineSep: string): (o: Outcome)
    requires |lineSep| > 0
    ensures o.Pass? <==> Replace(expected, lineSep, "\n") == Join(actual, "\n")
    ensures !o.Pass? ==> o == Failure(Replace(expected, lineSep, "\n"), Join(actual, "\n"), LogAssertionFailed)
  {
    AssertEquals(Normalize(expected, lineSep), Join(actual, "\n"), LogAssertionFailed)
  }

  /** `assertLogs(expected)`: the whole buffer, whatever the level of each record. */
  function AssertLogs(events: seq<Event>, stackDepth: int, lineSep: string, expected: string): (o: Outcome)
    requires |lineSep| > 0
    ensures o.IllegalArgument? <==> stackDepth < 0 && exists i :: 0 <= i < |events| && events[i].throwable.Some?
    ensures o.Pass? <==> RenderAll(events, stackDepth).Some?
                         && Replace(expected, lineSep, "\n") == Join(RenderAll(events, stackDepth).value, "\n")
    ensures o.Failure? ==> (RenderAll(events, stackDepth).Some?
                            && o == Failure(Replace(expected, lineSep, "\n"), Join(RenderAll(events, stackDepth).value, "\n"),
                                            LogAssertionFailed))
  {
    match RenderAll(events, stackDepth)
    case None => IllegalArgument
    case Some(lines) => AssertLogsInternal(expected, lines, lineSep)
  }

  /**
   * `getLoggedLines(level)`: the rendered records at or above `level`; they are a
   * subsequence of the rendered buffer, and one per selected record.
   */
  function LoggedLinesAt(events: seq<Event>, level: Level, stackDepth: int): (r: Option<seq<string>>)
    ensures r.Some? <==> forall i :: 0 <= i < |events| && events[i].level.IsGreaterOrEqual(level)
                                     ==> Render(events[i], stackDepth).Some?
    ensures r.Some? ==> |r.value| == |Filter(events, AtLogLevel(level))|
    ensures r.Some? ==> forall i :: 0 <= i < |r.value| ==>
              r.value[i] == Render(Filter(events, AtLogLevel(level))[i], stackDepth).value
    ensures RenderAll(events, stackDepth).Some? ==>
              r.Some? && IsSubsequence(r.value, RenderAll(events, stackDepth).value)
  {
    var selected := Filter(events, AtLogLevel(level));
    FilterIsSubsequence(events, AtLogLevel(level));
    if RenderAll(events, stackDepth).Some? then
      RenderSubsequence(selected, events, stackDepth);
      RenderAll(selected, stackDepth)
    else
      SelectedRenderable(events, AtLogLevel(level), stackDepth);
      RenderAll(selected, stackDepth)
  }

  /** The selected records all render exactly when every record satisfying `p` renders. */
  lemma SelectedRenderable(events: seq<Event>, p: Event -> bool, stackDepth: int)
    ensures RenderAll(Filter(events, p), stackDepth).Some?
            <==> forall i :: 0 <= i < |events| && p(events[i]) ==> Render(events[i], stackDepth).Some?
  {
    var selected := Filter(events, p);
    forall i | 0 <= i < |events| && p(events[i])
      ensures events[i] in selected
    {
      FilterCounts(events, p, events[i]);
    }
  }

  /** `assertLogs(level, expected)`: only the records at or above `level` (WARN also admits ERROR). */
  function AssertLogsAt(events: seq<Event>, stackDepth: int, lineSep: string, level: Level, expected: string): (o: Outcome)
    requires |lineSep| > 0
    ensures o.IllegalArgument? <==>
              stackDepth < 0 && exists i :: 0 <= i < |events| && events[i].level.IsGreaterOrEqual(level) && events[i].throwable.Some?
    ensures o.Pass? <==> LoggedLinesAt(events, level, stackDepth).Some?
                         && Replace(expected, lineSep, "\n") == Join(LoggedLinesAt(events, level, stackDepth).value, "\n")
    ensures o.Failure? ==> (LoggedLinesAt(events, level, stackDepth).Some?
                            && o == Failure(Replace(expected, lineSep, "\n"), Join(LoggedLinesAt(events, level, stackDepth).value, "\n"),
                                            LogAssertionFailed))
  {
    match LoggedLinesAt(events, level, stackDepth)
    case None => IllegalArgument
    case Some(lines) => AssertLogsInternal(expected, lines, lineSep)
  }

  /** The level overload is the plain one applied to the records at or above the level. */
  lemma AssertLogsAtIsFilteredAssertLogs(events: seq<Event>, stackDepth: int, lineSep: string, level: Level, expected: string)
    requires |lineSep| > 0
    ensures AssertLogsAt(events, stackDepth, lineSep, level, expected)
            == AssertLogs(Filter(events, AtLogLevel(level)), stackDepth, lineSep, expected)
  {
  }

  /** Applies the caller's mapper to every rendered line. */
  function MapLines(lines: seq<string>, mapper: string -> string): (r: seq<string>)
    ensures |r| == |lines|
    ensures forall i :: 0 <= i < |r| ==> r[i] == mapper(lines[i])
  {
    seq(|lines|, i requires 0 <= i < |lines| => mapper(lines[i]))
  }

  /** Mapping line by line distributes over concatenation: each line is mapped on its own. */
  lemma MapLinesAppend(a: seq<string>, b: seq<string>, mapper: string -> string)
    ensures MapLines(a + b, mapper) == MapLines(a, mapper) + MapLines(b, mapper)
  {
  }

  /** Two mappers applied one after the other act as their composition. */
  lemma MapLinesCompose(lines: seq<string>, first: string -> string, second: string -> string)
    ensures MapLines(MapLines(lines, first), second) == MapLines(lines, s => second(first(s)))
  {
  }

  /** `assertLogs(mapper, expected)`: every rendered record (throwable block included) goes through `mapper`. */
  function AssertLogsMapped(events: seq<Event>, stackDepth: int, lineSep: string,
                            mapper: string -> string, expected: string): (o: Outcome)
    requires |lineSep| > 0
    ensures o.IllegalArgument? <==> stackDepth < 0 && exists i :: 0 <= i < |events| && events[i].throwable.Some?
    ensures o.Pass? <==> RenderAll(events, stackDepth).Some?
                         && Replace(expected, lineSep, "\n") == Join(MapLines(RenderAll(events, stackDepth).value, mapper), "\n")
    ensures o.Failure? ==> (RenderAll(events, stackDepth).Some?
                            && o == Failure(Replace(expected, lineSep, "\n"),
                                            Join(MapLines(RenderAll(events, stackDepth).value, mapper), "\n"), LogAssertionFailed))
  {
    match RenderAll(events, stackDepth)
    case None => IllegalArgument
    case Some(lines) => AssertLogsInternal(expected, MapLines(lines, mapper), lineSep)
  }

  /** `assertLogs(level, mapper, expected)`: filtered by level first, then mapped. */
  function AssertLogsAtMapped(events: seq<Event>, stackDepth: int, lineSep: string, level: Level,
                              mapper: string -> string, expected: string): (o: Outcome)
    requires |lineSep| > 0
    ensures o.IllegalArgument? <==>
              stackDepth < 0 && exists i :: 0 <= i < |events| && events[i].level.IsGreaterOrEqual(level) && events[i].throwable.Some?
    ensures o.Pass? <==> LoggedLinesAt(events, level, stackDepth).Some?
                         && Replace(expected, lineSep, "\n")
                            == Join(MapLines(LoggedLinesAt(events, level, stackDepth).value, mapper), "\n")
    ensures o.Failure? ==> (LoggedLinesAt(events, level, stackDepth).Some?
                            && o == Failure(Replace(expected, lineSep, "\n"),
                                            Join(MapLines(LoggedLinesAt(events, level, stackDepth).value, mapper), "\n"), LogAssertionFailed))
  {
    match LoggedLinesAt(events, level, stackDepth)
    case None => IllegalArgument
    case Some(lines) => AssertLogsInternal(expected, MapLines(lines, mapper), lineSep)
  }

  /** With the identity mapper the mapped assertions agree with the plain ones. */
  lemma IdentityMapperChangesNothing(events: seq<Event>, stackDepth: int, lineSep: string, level: Level, expected: string)
    requires |lineSep| > 0
    ensures AssertLogsMapped(events, stackDepth, lineSep, s => s, expected) == AssertLogs(events, stackDepth, lineSep, expected)
    ensures AssertLogsAtMapped(events, stackDepth, lineSep, level, s => s, expected)
            == AssertLogsAt(events, stackDepth, lineSep, level, expected)
  {
    var id := (s: string) => s;
    if RenderAll(events, stackDepth).Some? {
      var lines := RenderAll(events, stackDepth).value;
      assert MapLines(lines, id) == lines;
    }
    if LoggedLinesAt(events, level, stackDepth).Some? {
      var lines := LoggedLinesAt(events, level, stackDepth).value;
      assert MapLines(lines, id) == lines;
    }
  }

  /**
   * `assertAnyLog(p)`, as intended: fails whenever no record satisfies `p`, reporting
   * the number of records and the whole buffer joined by the platform separator.
   */
  function AssertAnyLog(events: seq<Event>, stackDepth: int, lineSep: string, p: Event -> bool): (o: Outcome)
    ensures o.Pass? <==> exists i :: 0 <= i < |events| && p(events[i])
    ensures o.IllegalArgument? <==> !o.Pass? && stackDepth < 0 && exists i :: 0 <= i < |events| && events[i].throwable.Some?
    ensures o.Failure? ==> (RenderAll(events, stackDepth).Some? &&
              o == Failure(PredicateSentinel, Join(RenderAll(events, stackDepth).value, lineSep), NoneMatchedMessage(|events|)))
  {
    if AnyMatch(events, p) then Pass
    else
      match RenderAll(events, stackDepth)
      case None => IllegalArgument
      case Some(lines) => Failure(PredicateSentinel, Join(lines, lineSep), NoneMatchedMessage(|events|))
  }

  /**
   * `assertAnyLog(p)` as written: when nothing matches it calls `assertEquals` on the
   * sentinel and the transcript, which passes if the transcript happens to be the sentinel.
   */
  function AssertAnyLogAsWritten(events: seq<Event>, stackDepth: int, lineSep: string, p: Event -> bool): (o: Outcome)
    ensures (exists i :: 0 <= i < |events| && p(events[i])) ==> o.Pass?
    ensures o.Pass? <==> (exists i :: 0 <= i < |events| && p(events[i]))
                         || (RenderAll(events, stackDepth).Some?
                             && Join(RenderAll(events, stackDepth).value, lineSep) == PredicateSentinel)
    ensures o == AssertAnyLog(events, stackDepth, lineSep, p) || (o.Pass? && AssertAnyLog(events, stackDepth, lineSep, p).Failure?)
  {
    if AnyMatch(events, p) then Pass
    else
      match RenderAll(events, stackDepth)
      case None => IllegalArgument
      case Some(lines) => AssertEquals(PredicateSentinel, Join(lines, lineSep), NoneMatchedMessage(|events|))
  }

  /** A single unmatched record whose text is the sentinel slips through `assertAnyLog` as written. */
  lemma AssertAnyLogAsWrittenPassesWithoutMatch()
    ensures var events := [Event(Info, "<Predicate>", None)];
            var p := (e: Event) => false;
            && !(exists i :: 0 <= i < |events| && p(events[i]))
            && AssertAnyLogAsWritten(events, 4, "\n", p) == Pass
            && AssertAnyLog(events, 4, "\n", p).Failure?
  {
    var events := [Event(Info, "<Predicate>", None)];
    var rendered := RenderAll(events, 4);
    assert rendered.Some?;
    assert rendered.value == ["<Predicate>"];
  }

  /**
   * `assertNoLog(p)`, as intended: fails whenever some record satisfies `p`, reporting
   * how many do and the rendered text of exactly those records.
   */
  function AssertNoLog(events: seq<Event>, stackDepth: int, lineSep: string, p: Event -> bool): (o: Outcome)
    ensures o.Pass? <==> forall i :: 0 <= i < |events| ==> !p(events[i])
    ensures o.IllegalArgument? <==> stackDepth < 0 && exists i :: 0 <= i < |events| && p(events[i]) && events[i].throwable.Some?
    ensures o.Failure? ==> (RenderAll(Filter(events, p), stackDepth).Some? &&
              o == Failure(NoMatchSentinel, Join(RenderAll(Filter(events, p), stackDepth).value, lineSep),
                           FoundMatchingMessage(|Filter(events, p)|)))
  {
    FilterEmpty(events, p);
    SelectedRenderable(events, p, stackDepth);
    match RenderAll(Filter(events, p), stackDepth)
    case None => IllegalArgument
    case Some(matches) =>
      if |matches| != 0 then Failure(NoMatchSentinel, Join(matches, lineSep), FoundMatchingMessage(|matches|))
      else Pass
  }

  /**
   * `assertNoLog(p)` as written: it passes when the matching records render to exactly
   * the sentinel text.
   */
  function AssertNoLogAsWritten(events: seq<Event>, stackDepth: int, lineSep: string, p: Event -> bool): (o: Outcome)
    ensures (forall i :: 0 <= i < |events| ==> !p(events[i])) ==> o.Pass?
    ensures o.Pass? <==> (forall i :: 0 <= i < |events| ==> !p(events[i]))
                         || (RenderAll(Filter(events, p), stackDepth).Some?
                             && Join(RenderAll(Filter(events, p), stackDepth).value, lineSep) == NoMatchSentinel)
    ensures o == AssertNoLog(events, stackDepth, lineSep, p) || (o.Pass? && AssertNoLog(events, stackDepth, lineSep, p).Failure?)
  {
    FilterEmpty(events, p);
    match RenderAll(Filter(events, p), stackDepth)
    case None => IllegalArgument
    case Some(matches) =>
      if |matches| != 0 then AssertEquals(NoMatchSentinel, Join(matches, lineSep), FoundMatchingMessage(|matches|))
      else Pass
  }

  /** A matching record whose text is the sentinel is not reported by `assertNoLog` as written. */
  lemma AssertNoLogAsWrittenPassesWithMatch()
    ensures var events := [Event(Warn, "<No match for Predicate>", None)];
            var p := AtLogLevel(Warn);
            && p(events[0])
            && AssertNoLogAsWritten(events, 4, "\n", p) == Pass
            && AssertNoLog(events, 4, "\n", p).Failure?
  {
    var events := [Event(Warn, "<No match for Predicate>", None)];
    var p := AtLogLevel(Warn);
    assert Filter(events, p) == events;
    var rendered := RenderAll(events, 4);
    assert rendered.Some?;
    assert rendered.value == ["<No match for Predicate>"];
  }

  /**
   * The portability promise of `assertLogs`: an expectation written line by line with
   * the platform separator passes exactly when the buffer holds those lines (an empty
   * buffer reads as one empty line), provided no line contains a line break.
   */
  lemma AssertLogsComparesLines(events: seq<Event>, stackDepth: int, lineSep: string, expectedLines: seq<string>)
    requires |lineSep| > 0 && |expectedLines| >= 1
    requires forall i :: 0 <= i < |expectedLines| ==> lineSep[0] !in expectedLines[i] && '\n' !in expectedLines[i]
    requires forall i :: 0 <= i < |events| ==> events[i].throwable.None? && '\n' !in events[i].formattedMessage
    ensures AssertLogs(events, stackDepth, lineSep, Join(expectedLines, lineSep)).Pass?
            <==> (|events| == |expectedLines| && forall i :: 0 <= i < |events| ==> events[i].formattedMessage == expectedLines[i])
                 || (|events| == 0 && expectedLines == [""])
  {
    var lines := RenderAll(events, stackDepth).value;
    ReplaceJoin(expectedLines, lineSep, "\n");
    SplitJoin(expectedLines, '\n');
    if |lines| > 0 {
      SplitJoin(lines, '\n');
      if Join(expectedLines, "\n") == Join(lines, "\n") {
        assert expectedLines == lines;
      }
      if |events| == |expectedLines| && forall i :: 0 <= i < |events| ==> events[i].formattedMessage == expectedLines[i] {
        assert expectedLines == lines;
      }
    } else {
      assert Split("", '\n') == [""];
    }
  }
}
