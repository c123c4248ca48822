/**
 * The capture state: the appender object the tests hold, and the root logger it
 * attaches to, reduced to its level and the set of attached appenders.
 */
module Appender {
  import opened Options
  import opened Levels
  import opened Rendering

  /** Frames rendered per throwable unless `setStackDepth` says otherwise. */
  const DefaultStackDepth: int := 4

  /**
   * The root logger of the logging back end: its level, the capture appenders attached
   * to it and the other appenders (console, file, ...) whose behaviour is not modelled.
   */
  class RootLogger {
    var level: Level
    var captures: set<TestAppender>
    var others: set<object>

    /** A fresh back end: level DEBUG, as logback's root logger starts, and no capture attached. */
    constructor (others: set<object>)
      ensures level == Debug && captures == {} && this.others == others
    {
      level := Debug;
      captures := {};
      this.others := others;
    }

    /** `detachAndStopAllAppenders`: every appender is stopped and detached. */
    method DetachAndStopAllAppenders()
      modifies this`captures, this`others, captures`started
      ensures captures == {} && others == {}
      ensures forall a :: a in old(captures) ==> !a.started
    {
      forall a | a in captures {
        a.started := false;
      }
      captures := {};
      others := {};
    }

    /** `addAppender`: attaching an appender already attached changes nothing. */
    method AddAppender(a: TestAppender)
      modifies this`captures
      ensures captures == old(captures) + {a}
    {
      captures := captures + {a};
    }

    method SetLevel(level: Level)
      modifies this`level
      ensures this.level == level
    {
      this.level := level;
    }

    /**
     * A record logged through the back end: dropped unless its level is at or above the
     * root level, otherwise handed to every attached appender that is started.
     */
    method Emit(e: Event)
      modifies captures`events
      ensures forall a :: a in captures ==>
                a.events == if a.started && e.level.IsGreaterOrEqual(level) then old(a.events) + [e] else old(a.events)
    {
      if e.level.IsGreaterOrEqual(level) {
        var pending := captures;
        while pending != {}
          invariant pending <= captures
          invariant forall a :: a in captures - pending ==>
                      a.events == if a.started then old(a.events) + [e] else old(a.events)
          invariant forall a :: a in pending ==> a.events == old(a.events)
          decreases pending
        {
          var a :| a in pending;
          if a.started {
            a.Append(e);
          }
          pending := pending - {a};
        }
      }
    }
  }

  /** The capture appender: an ordered buffer of records plus its configuration. */
  class TestAppender {
    var events: seq<Event>
    const detachOthers: bool
    var level: Option<Level>
    var stackDepth: int
    var started: bool

    /** `TestAppender(detachOthers)`: empty, no level, depth 4, not started. */
    constructor (detachOthers: bool)
      ensures this.detachOthers == detachOthers && level == None
      ensures events == [] && stackDepth == DefaultStackDepth && !started
    {
      this.detachOthers := detachOthers;
      level := None;
      events := [];
      stackDepth := DefaultStackDepth;
      started := false;
    }

    /** `TestAppender(detachOthers, level)`. */
    constructor WithLevel(detachOthers: bool, level: Level)
      ensures this.detachOthers == detachOthers && this.level == Some(level)
      ensures events == [] && stackDepth == DefaultStackDepth && !started
    {
      this.detachOthers := detachOthers;
      this.level := Some(level);
      events := [];
      stackDepth := DefaultStackDepth;
      started := false;
    }

    /** `setLevel`: only the level applied at the next start changes; `None` is Java's null. */
    method SetLevel(level: Option<Level>)
      modifies this`level
      ensures this.level == level
    {
      this.level := level;
    }

    /** `setStackDepth`: any integer is accepted; a negative one fails at rendering time. */
    method SetStackDepth(stackDepth: int)
      modifies this`stackDepth
      ensures this.stackDepth == stackDepth
    {
      this.stackDepth := stackDepth;
    }

    /** `append`: the record goes at the end; earlier records are untouched. */
    method Append(e: Event)
      modifies this`events
      ensures events == old(events) + [e]
    {
      events := events + [e];
    }

    /** `reset`: empties the buffer. */
    method Reset()
      modifies this`events
      ensures events == []
    {
      events := [];
    }

    /** `stop`, inherited from the base appender: no more records arrive; the buffer stays readable. */
    method Stop()
      modifies this`started
      ensures !started
    {
      started := false;
    }

    /**
     * `start()`: when not yet started, optionally detaches (and stops) every appender of
     * the root logger, attaches this one and applies the configured level; in every case
     * it then empties the buffer and marks the appender started.
     */
    method Start(root: RootLogger)
      modifies this`events, this`started, root, root.captures`started
      ensures events == [] && started
      ensures old(started) ==> root.level == old(root.level) && root.captures == old(root.captures) && root.others == old(root.others)
      ensures !old(started) ==> root.captures == (if detachOthers then {} else old(root.captures)) + {this}
      ensures !old(started) ==> root.others == (if detachOthers then {} else old(root.others))
      ensures !old(started) ==> root.level == (if level.Some? then level.value else old(root.level))
      ensures forall a :: a in old(root.captures) && a != this ==>
                a.started == (old(a.started) && (old(started) || !detachOthers))
    {
      if !started {
        if detachOthers {
          root.DetachAndStopAllAppenders();
        }
        root.AddAppender(this);
        if level.Some? {
          root.SetLevel(level.value);
        }
      }
      Reset();
      started := true;
    }

    /** `start(level)`: `setLevel(level)` followed by `start()`. */
    method StartAt(root: RootLogger, level: Option<Level>)
      modifies this`events, this`started, this`level, root, root.captures`started
      ensures this.level == level && events == [] && started
      ensures old(started) ==> root.level == old(root.level) && root.captures == old(root.captures) && root.others == old(root.others)
      ensures !old(started) ==> root.captures == (if detachOthers then {} else old(root.captures)) + {this}
      ensures !old(started) ==> root.others == (if detachOthers then {} else old(root.others))
      ensures !old(started) ==> root.level == (if level.Some? then level.value else old(root.level))
      ensures forall a :: a in old(root.captures) && a != this ==>
                a.started == (old(a.started) && (old(started) || !detachOthers))
    {
      SetLevel(level);
      Start(root);
    }
  }
}
