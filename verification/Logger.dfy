/**
 The class `Logger` of inc/Log.h. `processEntries` gives up the mutex in the
 middle of its loop, so each call of `ConsumerAction` runs it up to the next point
 where another thread may come in.
 */
module Logger {
  import opened Common
  import opened LoggerModel
  import LogFormat

  class Logger {
    var queue: seq<Entry>
    var running: bool
    var logLevel: Level
    var phase: Phase
    var inHand: Option<Entry>
    ghost var accepted: seq<Entry>
    ghost var printed: seq<Entry>
    ghost var emptySeen: nat

    ghost function View(): State
      reads this
    {
      State(queue, running, logLevel, phase, inHand, accepted, printed, emptySeen)
    }

    ghost predicate Valid()
      reads this
    {
      Inv(View())
    }

    constructor ()
      ensures View() == FRESH && Valid()
    {
      queue, running, logLevel, phase, inHand := [], true, DEBUG, OuterCheck, None;
      accepted, printed, emptySeen := [], [], 0;
    }

    method SetLogLevel(name: string)
      requires Valid()
      modifies this`logLevel
      ensures View() == Step(old(View()), SetLevel(ParseLevel(name)))
      ensures logLevel == INFO <==> SameIgnoringCase(name, "info")
      ensures logLevel == WARNING <==> SameIgnoringCase(name, "warning")
      ensures logLevel == ERROR <==> SameIgnoringCase(name, "error")
      ensures Valid()
    {
      ParseLevelExact(name);
      logLevel := ParseLevel(name);
    }

    /** `log`. The entry waits for the mutex unless its level is ignored. */
    method LogLine(level: Level, file: string, line: string, func: string, format: string, args: seq<string>)
      requires Valid() && Enabled(View(), Log(Entry(level, LogFormat.LineOf(file, line, func, format, args))))
      modifies this`queue, this`accepted
      ensures View() == Step(old(View()), Log(Entry(level, LogFormat.LineOf(file, line, func, format, args))))
      ensures if LowerLevel(level, logLevel) then queue == old(queue) && accepted == old(accepted)
              else var text := "[" + file + ":" + line + " - " + func + "] "
                               + LogFormat.Interleave(LogFormat.Split(format),
                                                      LogFormat.Fillers(|LogFormat.Split(format)| - 1, args));
                   queue == old(queue) + [Entry(level, text)] && accepted == old(accepted) + [Entry(level, text)]
      ensures Valid()
    {
      LogFormat.LineExact(file, line, func, format, args);
      ghost var entry := Entry(level, LogFormat.LineOf(file, line, func, format, args));
      StepKeepsInv(View(), Log(entry));
      if Rank(level) < Rank(logLevel) {
        return;
      }
      var message := LogFormat.FormatImpl(format, args);
      var text := "[" + file + ":" + line + " - " + func + "] " + message;
      queue := queue + [Entry(level, text)];
      accepted := accepted + [Entry(level, text)];
    }

    /** `stop`, up to waiting for the consumer thread. */
    method StopLogging()
      requires Valid()
      modifies this`running
      ensures View() == Step(old(View()), StopAsked)
      ensures !running
      ensures Valid()
    {
      running := false;
    }

    /** The consumer thread up to its next scheduling point. */
    method ConsumerAction()
      requires Valid() && ConsumerReady(View())
      modifies this`queue, this`phase, this`inHand, this`printed, this`emptySeen
      ensures View() == Step(old(View()), Consume)
      ensures Valid()
    {
      StepKeepsInv(View(), Consume);
      match phase {
        case OuterCheck =>
          phase := if running then Waiting else Exited;
        case Waiting =>
          phase := Holding;
        case Holding =>
          if queue != [] {
            inHand := Some(queue[0]);
            queue := queue[1..];
            phase := Printing;
          } else {
            emptySeen := |accepted|;
            phase := OuterCheck;
          }
        case Printing =>
          printed := printed + [inHand.value];
          inHand := None;
          phase := Relocking;
        case Relocking =>
          phase := Holding;
      }
    }
  }
}
