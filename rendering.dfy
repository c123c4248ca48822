/**
 * Captured log records and how the appender turns one into text
 * (`extractFormattedMessage`, and the stream that maps it over the buffer).
 */
module Rendering {
  import opened Options
  import opened Levels
  import opened Text

  /** The throwable attached to a record: class name, message (Java may give null) and frames. */
  datatype Throwable = Throwable(className: string, message: Option<string>, frames: seq<string>)

  /** A captured record: severity, the message with its `{}` arguments already substituted, an optional throwable. */
  datatype Event = Event(level: Level, formattedMessage: string, throwable: Option<Throwable>)

  /** Each rendered stack frame starts with four spaces. */
  const FrameIndent := "    "

  /** Java string concatenation prints a null message as "null". */
  function MessageText(message: Option<string>): string {
    match message
    case Some(m) => m
    case None => "null"
  }

  /** The `ClassName: message` line of a throwable block. */
  function Header(t: Throwable): string {
    t.className + ": " + MessageText(t.message)
  }

  function Min(a: nat, b: nat): nat {
    if a <= b then a else b
  }

  /** `limit(depth)` followed by `map(el -> "    " + el)`: the first frames, indented. */
  function FrameLines(frames: seq<string>, depth: nat): (r: seq<string>)
    ensures |r| == Min(depth, |frames|)
    ensures forall i :: 0 <= i < |r| ==> r[i] == FrameIndent + frames[i]
  {
    if depth == 0 || |frames| == 0 then []
    else [FrameIndent + frames[0]] + FrameLines(frames[1..], depth - 1)
  }

  /**
   * `extractFormattedMessage`: the formatted message, followed, when the depth is
   * non-zero and there is a throwable, by a newline, the header line, a newline and
   * the frame lines joined by newlines. `None` stands for the IllegalArgumentException
   * `Stream.limit` throws on a negative depth.
   */
  function Render(e: Event, stackDepth: int): (r: Option<string>)
    ensures r.None? <==> stackDepth < 0 && e.throwable.Some?
    ensures stackDepth == 0 || e.throwable.None? ==> r == Some(e.formattedMessage)
    ensures r.Some? ==> e.formattedMessage <= r.value
  {
    match e.throwable
    case None => Some(e.formattedMessage)
    case Some(t) =>
      if stackDepth == 0 then Some(e.formattedMessage)
      else if stackDepth < 0 then None
      else Some(e.formattedMessage + "\n" + Header(t) + "\n" + Join(FrameLines(t.frames, stackDepth), "\n"))
  }

  predicate NoNewline(s: string) {
    '\n' !in s
  }

  /** The lines a rendered throwable block consists of, before they are joined. */
  function BlockLines(e: Event, stackDepth: nat): seq<string>
    requires e.throwable.Some?
  {
    var frames := FrameLines(e.throwable.value.frames, stackDepth);
    [e.formattedMessage, Header(e.throwable.value)] + (if |frames| == 0 then [""] else frames)
  }

  lemma RenderIsJoinOfBlockLines(e: Event, stackDepth: int)
    requires stackDepth > 0 && e.throwable.Some?
    ensures Render(e, stackDepth) == Some(Join(BlockLines(e, stackDepth), "\n"))
  {
    var t := e.throwable.value;
    var frames := FrameLines(t.frames, stackDepth);
    var tail := if |frames| == 0 then [""] else frames;
    assert Join(tail, "\n") == Join(frames, "\n");
    assert [e.formattedMessage, Header(t)] + tail == [e.formattedMessage] + ([Header(t)] + tail);
    assert BlockLines(e, stackDepth) == [e.formattedMessage, Header(t)] + tail;
    JoinCons(Header(t), tail, "\n");
    JoinCons(e.formattedMessage, [Header(t)] + tail, "\n");
    calc {
      Join(BlockLines(e, stackDepth), "\n");
      e.formattedMessage + "\n" + Join([Header(t)] + tail, "\n");
      e.formattedMessage + "\n" + (Header(t) + "\n" + Join(frames, "\n"));
      e.formattedMessage + "\n" + Header(t) + "\n" + Join(frames, "\n");
    }
  }

  /**
   * Read line by line, a rendered throwable block is the message, the header and
   * exactly min(depth, #frames) indented frames (an empty last line when no frame is kept);
   * frames past the depth leave no trace.
   */
  lemma RenderedLines(e: Event, stackDepth: int)
    requires stackDepth > 0 && e.throwable.Some?
    requires NoNewline(e.formattedMessage) && NoNewline(Header(e.throwable.value))
    requires forall i :: 0 <= i < |e.throwable.value.frames| ==> NoNewline(e.throwable.value.frames[i])
    ensures Render(e, stackDepth).Some?
    ensures var lines := Split(Render(e, stackDepth).value, '\n');
            var t := e.throwable.value;
            var k := Min(stackDepth, |t.frames|);
            && |lines| == 2 + (if k == 0 then 1 else k)
            && lines[0] == e.formattedMessage
            && lines[1] == Header(t)
            && (k == 0 ==> lines[2] == "")
            && forall i :: 0 <= i < k ==> lines[2 + i] == FrameIndent + t.frames[i]
  {
    var t := e.throwable.value;
    var lines := BlockLines(e, stackDepth);
    RenderIsJoinOfBlockLines(e, stackDepth);
    var frames := FrameLines(t.frames, stackDepth);
    forall i | 0 <= i < |lines| ensures '\n' !in lines[i] {
      if i >= 2 && |frames| > 0 {
        assert lines[i] == FrameIndent + t.frames[i - 2];
        assert NoNewline(t.frames[i - 2]);
      }
    }
    SplitJoin(lines, '\n');
  }

  /**
   * The stream `map(this::extractFormattedMessage)` over a buffer: every record
   * rendered, in order; it fails as soon as one record fails.
   */
  function RenderAll(events: seq<Event>, stackDepth: int): (r: Option<seq<string>>)
    ensures r.Some? <==> forall i :: 0 <= i < |events| ==> Render(events[i], stackDepth).Some?
    ensures r.Some? ==> |r.value| == |events|
    ensures r.Some? ==> forall i :: 0 <= i < |events| ==> r.value[i] == Render(events[i], stackDepth).value
  {
    if |events| == 0 then Some([])
    else
      match Render(events[0], stackDepth)
      case None => None
      case Some(line) =>
        match RenderAll(events[1..], stackDepth)
        case None => None
        case Some(lines) => Some([line] + lines)
  }

  /** Appending a record extends the rendered buffer by that record's text: arrival order is kept. */
  lemma RenderAllAppend(events: seq<Event>, e: Event, stackDepth: int)
    requires RenderAll(events + [e], stackDepth).Some?
    ensures RenderAll(events, stackDepth).Some? && Render(e, stackDepth).Some?
    ensures RenderAll(events + [e], stackDepth).value
            == RenderAll(events, stackDepth).value + [Render(e, stackDepth).value]
  {
    var all := events + [e];
    assert forall i :: 0 <= i < |events| ==> events[i] == all[i];
    assert e == all[|events|];
  }
}
