/** The Logger class of logger.py: a per-class logger with a stack of levels whose top
    decides which messages reach the log window. */
module Logging {
  import opened Wrappers

  /** The levels, lowest (most verbose) first. */
  const DebugLevel := 0
  const InfoLevel := 1
  const WarningLevel := 2
  const ErrorLevel := 3
  const MessageLevel := 4

  /** What a Logger is made for: a name, or an object whose class name is used. */
  datatype Owner = Text(s: string) | Instance(className: string)

  /** The kinds of message, one per writing method, named as the comparison attributes. */
  datatype Severity = Dbg | Inf | Warn | Err | Mess

  /** One formatted message, as written to the log window or shown in an error dialog; the
      timestamp is left out. */
  datatype Entry = Entry(kind: Severity, name: string, text: string)

  /** The message of kind `k` is written while the top of the stack is `top`: each kind
      is shown up to its own level, and errors always. */
  predicate Writes(top: int, k: Severity) {
    match k
    case Dbg => top <= DebugLevel
    case Inf => top <= InfoLevel
    case Warn => top <= WarningLevel
    case Mess => top <= MessageLevel
    case Err => true
  }

  /** Lowering the level never hides a message that was shown. */
  lemma WritesMonotone(a: int, b: int, k: Severity)
    requires a <= b && Writes(b, k)
    ensures Writes(a, k)
  {
  }

  /** The kinds nest: a level that shows debug shows info, one that shows info shows
      warnings, then normal messages, then errors; and no level hides errors. */
  lemma WritesNest(top: int)
    ensures Writes(top, Dbg) ==> Writes(top, Inf)
    ensures Writes(top, Inf) ==> Writes(top, Warn)
    ensures Writes(top, Warn) ==> Writes(top, Mess)
    ensures Writes(top, Err)
    ensures Writes(top, Mess) <==> top <= MessageLevel
  {
  }

  /** push_level: the new level goes on top. */
  function Pushed(stack: seq<int>, l: int): (r: seq<int>)
    ensures |r| == |stack| + 1 && r[0] == l && r[1..] == stack
  {
    [l] + stack
  }

  /** pop_level as written: with more than one level, `remove(0)` takes out the first level
      equal to 0 wherever it is, and raises when there is none. */
  function PoppedAsWritten(stack: seq<int>): Result<seq<int>, string> {
    if |stack| <= 1 then Success(stack)
    else match IndexOf(stack, 0)
      case None => Failure("list.remove(x): x not in list")
      case Some(k) => Success(stack[..k] + stack[k + 1..])
  }

  /** pop_level as its documentation intends: drop the level pushed last, keeping the bottom. */
  function Popped(stack: seq<int>): (r: seq<int>)
    ensures |stack| <= 1 ==> r == stack
    ensures |stack| > 1 ==> |r| == |stack| - 1 && r[0] == stack[1]
  {
    if |stack| <= 1 then stack else stack[1..]
  }

  /** Popping undoes a push, so the level in force before the push is restored. */
  lemma PopUndoesPush(stack: seq<int>, l: int)
    requires |stack| >= 1
    ensures Popped(Pushed(stack, l)) == stack
  {
  }

  /** As written, a push of a level other than 0 is never undone: the stack either loses a 0
      from below the top, or the call raises, and the pushed level stays in force. */
  lemma PopAsWrittenKeepsPush(stack: seq<int>, l: int)
    requires |stack| >= 1 && l != 0
    ensures match PoppedAsWritten(Pushed(stack, l))
      case Failure(_) => 0 !in stack
      case Success(r) => r[0] == l && |r| == |stack|
  {
    var p := Pushed(stack, l);
    match IndexOf(p, 0)
    case None =>
    case Some(k) =>
      assert k > 0;
  }

  /** Two concrete stacks: after set_level(4) and push_level(1) the pop raises; after
      set_level(0) and push_level(2) it leaves level 2 in force instead of 0. */
  lemma PopAsWrittenCounterexamples()
    ensures PoppedAsWritten(Pushed([MessageLevel], InfoLevel)).Failure?
    ensures PoppedAsWritten(Pushed([DebugLevel], WarningLevel)) == Success([WarningLevel])
    ensures Popped(Pushed([DebugLevel], WarningLevel)) == [DebugLevel]
  {
    assert Pushed([MessageLevel], InfoLevel) == [1, 4];
    assert IndexOf([4], 0) == None;
    var p := Pushed([DebugLevel], WarningLevel);
    assert p == [2, 0];
    assert IndexOf(p[1..], 0) == Some(0);
    assert IndexOf(p, 0) == Some(1);
    assert p[..1] + p[2..] == [2];
  }

  class Logger {
    var name: string
    /** The level stack; its first element is the level in force. */
    var level: seq<int>
    /** What was written to the log window, in order. */
    var written: seq<Entry>
    /** The error dialogs shown, in order; each shows the same formatted message as the line
        written with it. */
    var dialogs: seq<Entry>

    /** The stack is never empty, so `level[0]` never raises. */
    predicate Valid()
      reads this
    {
      |level| >= 1
    }

    /** A logger for `owner`, starting at `initial` (MESSAGE when the caller gives none). */
    constructor (owner: Owner, initial: int)
      ensures Valid() && level == [initial]
      ensures name == match owner case Text(s) => s case Instance(c) => c
      ensures written == [] && dialogs == []
    {
      name := match owner case Text(s) => s case Instance(c) => c;
      level := [initial];
      written := [];
      dialogs := [];
    }

    method PushLevel(l: int)
      modifies this
      ensures level == Pushed(old(level), l) && Valid()
      ensures name == old(name) && written == old(written) && dialogs == old(dialogs)
    {
      level := [l] + level;
    }

    /** pop_level as written; `ok` is false where `remove` raises, leaving the stack alone. */
    method PopLevelAsWritten() returns (ok: bool)
      requires Valid()
      modifies this
      ensures ok <==> PoppedAsWritten(old(level)).Success?
      ensures ok ==> level == PoppedAsWritten(old(level)).value
      ensures !ok ==> level == old(level)
      ensures Valid()
      ensures name == old(name) && written == old(written) && dialogs == old(dialogs)
    {
      if |level| > 1 {
        var k := IndexOf(level, 0);
        if k.None? {
          return false;
        }
        level := level[..k.value] + level[k.value + 1..];
      }
      return true;
    }

    /** pop_level as intended: restores the level in force before the last push. */
    method PopLevel()
      requires Valid()
      modifies this
      ensures level == Popped(old(level)) && Valid()
      ensures name == old(name) && written == old(written) && dialogs == old(dialogs)
    {
      if |level| > 1 {
        level := level[1..];
      }
    }

    /** set_level: replaces the level in force and nothing below it. */
    method SetLevel(l: int)
      requires Valid()
      modifies this
      ensures level == [l] + old(level)[1..] && Valid()
      ensures name == old(name) && written == old(written) && dialogs == old(dialogs)
    {
      level := level[0 := l];
    }

    /** The line a message of kind `k` adds to the window at the current level, if any. */
    function Line(k: Severity, text: string): (r: seq<Entry>)
      requires Valid()
      reads this
      ensures r == [] || r == [Entry(k, name, text)]
      ensures r != [] <==> Writes(level[0], k)
    {
      if Writes(level[0], k) then [Entry(k, name, text)] else []
    }

    /** debug: the caller's function name goes before the text. */
    method Debug(caller: string, args: string)
      requires Valid()
      modifies this
      ensures level == old(level) && name == old(name) && dialogs == old(dialogs)
      ensures written == old(written) + Line(Dbg, caller + "(): " + args)
    {
      if level[0] <= DebugLevel {
        written := written + [Entry(Dbg, name, caller + "(): " + args)];
      }
    }

    method Info(args: string)
      requires Valid()
      modifies this
      ensures level == old(level) && name == old(name) && dialogs == old(dialogs)
      ensures written == old(written) + Line(Inf, args)
    {
      if level[0] <= InfoLevel {
        written := written + [Entry(Inf, name, args)];
      }
    }

    method Warning(args: string)
      requires Valid()
      modifies this
      ensures level == old(level) && name == old(name) && dialogs == old(dialogs)
      ensures written == old(written) + Line(Warn, args)
    {
      if level[0] <= WarningLevel {
        written := written + [Entry(Warn, name, args)];
      }
    }

    method Msg(args: string)
      requires Valid()
      modifies this
      ensures level == old(level) && name == old(name) && dialogs == old(dialogs)
      ensures written == old(written) + Line(Mess, args)
    {
      if level[0] <= MessageLevel {
        written := written + [Entry(Mess, name, args)];
      }
    }

    /** error: always written, whatever the level, and shown in a dialog. */
    method Error(args: string)
      modifies this
      ensures written == old(written) + [Entry(Err, name, args)]
      ensures dialogs == old(dialogs) + [Entry(Err, name, args)]
      ensures level == old(level) && name == old(name)
    {
      written := written + [Entry(Err, name, args)];
      dialogs := dialogs + [Entry(Err, name, args)];
    }
  }
}
