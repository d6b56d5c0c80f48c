/** The diagnostics the core writes: a logger that records every call, in order. */
module Logging {

  /** The three levels the core logs at (`info`, `warn`, `error`). */
  datatype Level = Info | Warn | Error

  datatype LogEntry = LogEntry(level: Level, message: string)

  /** The number of entries of `log` at `level`. */
  function Count(log: seq<LogEntry>, level: Level): (n: nat)
    ensures n <= |log|
  {
    if log == [] then 0
    else Count(log[..|log| - 1], level) + (if log[|log| - 1].level == level then 1 else 0)
  }

  lemma {:induction false} CountAppend(a: seq<LogEntry>, b: seq<LogEntry>, level: Level)
    ensures Count(a + b, level) == Count(a, level) + Count(b, level)
    decreases |b|
  {
    if b == [] {
      assert a + b == a;
    } else {
      assert (a + b)[..|a + b| - 1] == a + b[..|b| - 1];
      CountAppend(a, b[..|b| - 1], level);
    }
  }

  /** A Ruby `Logger` shared by the components; each call appends one entry. Which
      entries reach the console or a file, and at which threshold, is the sink's
      business and is not modelled. */
  class Logger {
    var entries: seq<LogEntry>

    constructor ()
      ensures entries == []
    {
      entries := [];
    }

    method Info(message: string)
      modifies this
      ensures entries == old(entries) + [LogEntry(Level.Info, message)]
    {
      entries := entries + [LogEntry(Level.Info, message)];
    }

    method Warn(message: string)
      modifies this
      ensures entries == old(entries) + [LogEntry(Level.Warn, message)]
    {
      entries := entries + [LogEntry(Level.Warn, message)];
    }

    method Error(message: string)
      modifies this
      ensures entries == old(entries) + [LogEntry(Level.Error, message)]
    {
      entries := entries + [LogEntry(Level.Error, message)];
    }
  }
}
