/** The crate's entry points around the installed logger: the set-once static
    `LOGGER` with `init`, `kill`, and the free function `new_input_bufs`. The
    statics `INTERNAL_WRITER` and `KILLED` are the `Lib.Shared` object of the
    context. */
module Lifecycle {
  import opened Wrappers
  import opened Strings
  import opened Utils
  import Lib
  import opened LogFile
  import opened Logger

  const ALREADY_SET := "Logger cannot be set more than once"
  const KILL_UNINITIALIZED := "No logger initialized. Can't kill an uninitialized logger"
  const NO_LOGGER := "No logger initialized"

  /** The line `kill` logs under the calling thread's name: one piece, and a
      line break that is its only one when the name has none. */
  function KillLine(thread: Option<string>, clock: nat -> Clock): (r: string)
    ensures r == LogTime(clock(0)) + Prefix(Info, thread) + " " + "Sent kill to logger thread" + "\n"
    ensures '\n' !in ThreadName(thread) ==> NewlineIndex(r) == |r| - 1
  {
    ConvertLogTerminated(Info, thread, clock, "Sent kill to logger thread");
    ConvertLog(Info, thread, clock, "Sent kill to logger thread") + "\n"
  }

  /** The sink content after `kill` has let the supervisor run to its end:
      the old content, the pending text with the kill message merged into
      it, and the closing line. */
  function ContentAfterKill(curr: Option<Text>, pending: Lib.NewInternalLog, killLine: string, clock: nat -> Clock): Option<Text>
  {
    ContentAfter(curr, Merge(pending, killLine), true, clock)
  }

  /** When the supervisor's last pass comes after the kill message is merged,
      everything pending before `kill` reaches the opened sink, then the kill
      message, then the closing line, in that order. */
  lemma KillFlushesPending(content: Text, pending: Lib.NewInternalLog, killLine: string, clock: nat -> Clock)
    ensures ContentAfterKill(Some(content), pending, killLine, clock)
         == Some(content + pending.Pending() + killLine + ClosingLine(clock))
    ensures StepOutcome(Some(content), Merge(pending, killLine), true) == Exit
  {
    var merged, closing := Merge(pending, killLine), ClosingLine(clock);
    assert merged.Pending() == pending.Pending() + killLine;
    Regroup(content, pending.Pending(), killLine, closing);
  }

  lemma Regroup(a: string, b: string, c: string, d: string)
    ensures a + (b + c) + d == a + b + c + d
  {
  }

  /** When the supervisor's last pass comes between the setting of the flag
      and the kill message, the sink gets the earlier pending text and the
      closing line but not the kill message, which stays in the slot with no
      pass left to drain it. */
  lemma KillMessageCanBeLost(content: Text, pending: Lib.NewInternalLog, killLine: string, clock: nat -> Clock)
    requires killLine != []
    ensures StepOutcome(Some(content), pending, true) == Exit
    ensures ContentAfter(Some(content), pending, true, clock) == Some(content + pending.Pending() + ClosingLine(clock))
    ensures Merge(Lib.None, killLine) == Lib.New(killLine)
    ensures ContentAfter(Some(content), pending, true, clock) != ContentAfterKill(Some(content), pending, killLine, clock)
  {
    KillFlushesPending(content, pending, killLine, clock);
    var early := content + pending.Pending() + ClosingLine(clock);
    var late := content + pending.Pending() + killLine + ClosingLine(clock);
    assert |late| == |early| + |killLine|;
  }

  /** On a sink that holds no file, the supervisor's last pass panics in
      either schedule of `kill`, whatever the slot holds: the closing line is
      written even when there is nothing to drain. */
  lemma KillOnUnopenedSinkPanics(pending: Lib.NewInternalLog)
    ensures StepOutcome(None, pending, true) == Crashed(UNOPENED)
  {
  }

  /** The logging step of `kill`: the kill message merged into the slot. */
  method LogKill(shared: Lib.Shared, thread: Option<string>, clock: nat -> Clock)
    modifies shared`writer
    ensures shared.writer == Merge(old(shared.writer), KillLine(thread, clock))
  {
    WithLogger(shared, "Sent kill to logger thread", Info, thread, clock);
  }

  /** The wait in `kill`: while `kill` polls `is_finished` and sleeps, the
      supervisor runs passes; with the flag set, its first pass is its last. */
  method Wait(l: Logger, shared: Lib.Shared, mainClock: nat -> Clock)
    requires shared.killed
    modifies l, l.file`curr, shared`writer
    ensures l.finished
    ensures old(l.finished) ==>
              shared.writer == old(shared.writer) &&
              l.file.curr == old(l.file.curr) && l.pool == old(l.pool) && l.channel == old(l.channel)
    ensures !old(l.finished) ==>
              shared.writer == Lib.None &&
              l.file.curr == ContentAfter(old(l.file.curr), old(shared.writer), true, mainClock) &&
              l.pool == PoolAfter(old(l.pool), old(l.channel)) &&
              l.channel == (if old(l.channel) == [] then [] else old(l.channel)[1..])
  {
    var polls := 0;
    while !l.finished
      invariant polls <= 1
      invariant polls == 0 ==> (l.finished == old(l.finished) && shared.writer == old(shared.writer) &&
                                l.file.curr == old(l.file.curr) && l.pool == old(l.pool) && l.channel == old(l.channel))
      invariant polls == 1 ==> (l.finished && !old(l.finished) && shared.writer == Lib.None &&
                                l.file.curr == ContentAfter(old(l.file.curr), old(shared.writer), true, mainClock) &&
                                l.pool == PoolAfter(old(l.pool), old(l.channel)) &&
                                l.channel == (if old(l.channel) == [] then [] else old(l.channel)[1..]))
      decreases 1 - polls
    {
      var _ := l.Step(shared, mainClock);
      polls := polls + 1;
    }
  }

  /** The schedule of `kill` in which the supervisor's pass runs between the
      setting of the flag and the kill message: the pass is the last one, and
      the message is merged into the slot after it. The wait then returns at
      once. */
  method PassBeforeLog(l: Logger, shared: Lib.Shared, thread: Option<string>, clock: nat -> Clock, mainClock: nat -> Clock)
    requires shared.killed && !l.finished
    modifies l, l.file`curr, shared`writer
    ensures l.finished
    ensures shared.writer == Lib.New(KillLine(thread, clock))
    ensures l.file.curr == ContentAfter(old(l.file.curr), old(shared.writer), true, mainClock)
    ensures l.pool == PoolAfter(old(l.pool), old(l.channel))
    ensures l.channel == (if old(l.channel) == [] then [] else old(l.channel)[1..])
  {
    var _ := l.Step(shared, mainClock);
    LogKill(shared, thread, clock);
  }

  /** `kill` once the flag is set and a logger `l` is installed: logs the
      kill and waits for the supervisor to end. */
  method KillInstalled(l: Logger, shared: Lib.Shared, thread: Option<string>, clock: nat -> Clock, mainClock: nat -> Clock, passFirst: bool)
    requires shared.killed
    modifies l, l.file`curr, shared`writer
    ensures l.finished
    ensures old(l.finished) ==>
      shared.writer == Merge(old(shared.writer), KillLine(thread, clock)) &&
      l.file.curr == old(l.file.curr) && l.pool == old(l.pool) && l.channel == old(l.channel)
    ensures !old(l.finished) ==>
      l.pool == PoolAfter(old(l.pool), old(l.channel)) &&
      l.channel == (if old(l.channel) == [] then [] else old(l.channel)[1..])
    ensures !old(l.finished) && !passFirst ==>
      shared.writer == Lib.None &&
      l.file.curr == ContentAfterKill(old(l.file.curr), old(shared.writer), KillLine(thread, clock), mainClock)
    ensures !old(l.finished) && passFirst ==>
      shared.writer == Lib.New(KillLine(thread, clock)) &&
      l.file.curr == ContentAfter(old(l.file.curr), old(shared.writer), true, mainClock)
  {
    if passFirst && !l.finished {
      PassBeforeLog(l, shared, thread, clock, mainClock);
    } else {
      LogKill(shared, thread, clock);
      Wait(l, shared, mainClock);
    }
  }

  /** The process-wide statics. */
  class Context {
    var logger: Logger?
    const shared: Lib.Shared

    /** Program start: no logger installed, an empty slot, the flag clear. */
    constructor ()
      ensures logger == null && fresh(shared) && shared.writer == Lib.DefaultLog() && !shared.killed
    {
      logger := null;
      shared := new Lib.Shared();
    }

    /** `init`: installs `l` unless a logger is installed already. */
    method Init(l: Logger) returns (r: Outcome)
      modifies this`logger
      ensures old(logger) == null ==> r == Ok && logger == l
      ensures old(logger) != null ==> r == Panic(ALREADY_SET) && logger == old(logger)
    {
      if logger == null {
        logger := l;
        return Ok;
      }
      r := Panic(ALREADY_SET);
    }

    /** `kill`, called from a thread named `thread`: sets the flag, logs the
        kill, and waits for the supervisor to end, which it does on its next
        pass (run here with `mainClock`) since the flag is set. That pass may
        come before the kill message is logged (`passFirst`) or after it.
        Without an installed logger, it panics after the flag is set and the
        message logged. */
    method Kill(thread: Option<string>, clock: nat -> Clock, mainClock: nat -> Clock, passFirst: bool) returns (r: Outcome)
      modifies shared, if logger != null then {logger, logger.file} else {}
      ensures shared.killed
      ensures logger == null ==> r == Panic(KILL_UNINITIALIZED)
      ensures logger == null ==> shared.writer == Merge(old(shared.writer), KillLine(thread, clock))
      ensures logger != null ==> r == Ok && logger.finished
      ensures logger != null ==> logger.file.dir == old(logger.file.dir) && logger.file.archive == old(logger.file.archive)
      ensures logger != null && old(logger.finished) ==>
        shared.writer == Merge(old(shared.writer), KillLine(thread, clock)) &&
        logger.file.curr == old(logger.file.curr) && logger.pool == old(logger.pool) && logger.channel == old(logger.channel)
      ensures logger != null && !old(logger.finished) ==>
        logger.pool == PoolAfter(old(logger.pool), old(logger.channel)) &&
        logger.channel == (if old(logger.channel) == [] then [] else old(logger.channel)[1..])
      ensures logger != null && !old(logger.finished) && !passFirst ==>
        shared.writer == Lib.None &&
        logger.file.curr == ContentAfterKill(old(logger.file.curr), old(shared.writer), KillLine(thread, clock), mainClock)
      ensures logger != null && !old(logger.finished) && passFirst ==>
        shared.writer == Lib.New(KillLine(thread, clock)) &&
        logger.file.curr == ContentAfter(old(logger.file.curr), old(shared.writer), true, mainClock)
    {
      shared.killed := true;
      if logger == null {
        LogKill(shared, thread, clock);
        return Panic(KILL_UNINITIALIZED);
      }
      KillInstalled(logger, shared, thread, clock, mainClock, passFirst);
      r := Ok;
    }

    /** `new_input_bufs` (the free function): sends `Clear` and then the
        batch to the installed logger. The supervisor ignores `Clear`, so
        earlier workers stay registered beside the batch. */
    method NewInputBufs(bufs: seq<Lib.LogBuffer>) returns (r: Outcome)
      modifies if logger != null then {logger} else {}
      ensures logger == null ==> r == Panic(NO_LOGGER)
      ensures logger != null && !logger.finished ==>
        r == Ok && logger.channel == old(logger.channel) + [Lib.Clear, Lib.NewBufs(bufs)]
      ensures logger != null && logger.finished ==>
        r == Panic(SEND_CLEAR_FAILED) && logger.channel == old(logger.channel)
      ensures logger != null ==> logger.pool == old(logger.pool) && logger.finished == old(logger.finished)
    {
      if logger == null {
        return Panic(NO_LOGGER);
      }
      r := logger.ClearBufPool();
      if r.Panic? {
        return;
      }
      r := logger.NewInputBufs(bufs);
    }
  }
}
