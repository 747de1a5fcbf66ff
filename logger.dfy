/** The logger: the supervisor loop that owns the registry of worker threads
    and drains the internal-message slot into the shared sink, and the worker
    loop that copies one source stream into the sink. Threads, channels and
    locks are left out: one call of `Step` is one pass of the supervisor's
    loop, and the channel is the sequence of control messages sent but not
    yet received. */
module Logger {
  import opened Wrappers
  import opened Strings
  import opened Utils
  import Lib
  import opened LogFile

  /** The panic of every write to a sink that holds no open file. */
  const UNOPENED := "file should be initilized"

  /** The panic of every send once the supervisor has ended and dropped its
      receiving end. */
  const SEND_BUFS_FAILED := "Internal IO Error: Failed to send new input buffer to thread channel"
  const SEND_CLEAR_FAILED := "Internal IO Error: Failed to send clear bufs to thread channel"

  /** The supervisor's thread name. */
  const MAIN_THREAD := "main_logger_thread"

  // ---------------------------------------------------------------- registry

  /** The registry after the buffers of one `NewBufs` message have been
      inserted one after the other, keyed by name. */
  function Registered(pool: map<string, Lib.Stream>, bufs: seq<Lib.LogBuffer>): map<string, Lib.Stream>
  {
    if bufs == [] then pool
    else
      var last := bufs[|bufs| - 1];
      Registered(pool, bufs[..|bufs| - 1])[last.name := last.stream]
  }

  /** The names of a batch of buffers. */
  function Names(bufs: seq<Lib.LogBuffer>): set<string>
  {
    set i | 0 <= i < |bufs| :: bufs[i].name
  }

  /** No later buffer of the batch has the name of buffer `i`. */
  predicate LastWithName(bufs: seq<Lib.LogBuffer>, i: nat)
    requires i < |bufs|
  {
    forall j :: i < j < |bufs| ==> bufs[j].name != bufs[i].name
  }

  /** The names of a batch with one more buffer at its end. */
  lemma NamesSnoc(bufs: seq<Lib.LogBuffer>)
    requires bufs != []
    ensures Names(bufs) == Names(bufs[..|bufs| - 1]) + {bufs[|bufs| - 1].name}
  {
    var init := bufs[..|bufs| - 1];
    forall n | n in Names(bufs) ensures n in Names(init) + {bufs[|bufs| - 1].name} {
      var i :| 0 <= i < |bufs| && bufs[i].name == n;
      if i < |init| {
        assert init[i] == bufs[i];
      }
    }
    forall n | n in Names(init) ensures n in Names(bufs) {
      var i :| 0 <= i < |init| && init[i].name == n;
      assert bufs[i] == init[i];
    }
  }

  /** Registering a batch adds exactly the batch's names as keys. */
  lemma {:induction false} RegisteredKeys(pool: map<string, Lib.Stream>, bufs: seq<Lib.LogBuffer>)
    ensures Registered(pool, bufs).Keys == pool.Keys + Names(bufs)
  {
    if bufs != [] {
      RegisteredKeys(pool, bufs[..|bufs| - 1]);
      NamesSnoc(bufs);
    }
  }

  /** Every name of the batch is bound to the last buffer with that name. */
  lemma {:induction false} RegisteredLastWins(pool: map<string, Lib.Stream>, bufs: seq<Lib.LogBuffer>)
    ensures forall i :: 0 <= i < |bufs| && LastWithName(bufs, i) ==>
      bufs[i].name in Registered(pool, bufs) && Registered(pool, bufs)[bufs[i].name] == bufs[i].stream
  {
    if bufs != [] {
      var init := bufs[..|bufs| - 1];
      RegisteredLastWins(pool, init);
      forall i | 0 <= i < |bufs| - 1 && LastWithName(bufs, i)
        ensures bufs[i].name in Registered(pool, bufs) && Registered(pool, bufs)[bufs[i].name] == bufs[i].stream
      {
        assert init[i] == bufs[i];
        assert LastWithName(init, i);
      }
    }
  }

  /** Keys outside the batch keep their entries. */
  lemma {:induction false} RegisteredKeepsOthers(pool: map<string, Lib.Stream>, bufs: seq<Lib.LogBuffer>)
    ensures forall k :: k in pool && k !in Names(bufs) ==> k in Registered(pool, bufs) && Registered(pool, bufs)[k] == pool[k]
  {
    if bufs != [] {
      RegisteredKeepsOthers(pool, bufs[..|bufs| - 1]);
      NamesSnoc(bufs);
    }
  }

  // ---------------------------------------------------------------- one pass

  /** What one pass of the supervisor's loop ends with: `Continue` loops
      again, `Exit` is the `break` after the closing line, `Crashed` is a
      panic of the supervisor thread. */
  datatype StepResult = Continue | Exit | Crashed(message: string)

  /** The closing line the supervisor writes when it sees the kill flag: one
      piece, the time, the supervisor's INFO prefix and the message, with no
      line break. */
  function ClosingLine(clock: nat -> Clock): (r: string)
    ensures r == LogTime(clock(0)) + Prefix(Info, Some(MAIN_THREAD)) + " " + "Closing main logger thread"
    ensures '\n' !in r
  {
    ConvertLogLine(Info, Some(MAIN_THREAD), clock, "Closing main logger thread");
    ConvertLog(Info, Some(MAIN_THREAD), clock, "Closing main logger thread")
  }

  /** The registry after the head of the channel, if any, has been handled:
      `Clear` is ignored, `NewBufs` registers its batch. */
  function PoolAfter(pool: map<string, Lib.Stream>, channel: seq<Lib.ThreadChannel>): map<string, Lib.Stream>
  {
    if channel != [] && channel[0].NewBufs? then Registered(pool, channel[0].bufs) else pool
  }

  /** How a pass ends, from the sink before it, the slot and the kill flag:
      a write to an unopened sink panics, and the drain writes only when the
      slot holds text, the closing line only when the flag is set. */
  function StepOutcome(curr: Option<Text>, pending: Lib.NewInternalLog, killed: bool): StepResult
  {
    if curr.None? && (pending.New? || killed) then Crashed(UNOPENED)
    else if killed then Exit
    else Continue
  }

  /** The sink's content after a pass. */
  function ContentAfter(curr: Option<Text>, pending: Lib.NewInternalLog, killed: bool, clock: nat -> Clock): Option<Text>
  {
    if curr.None? then None
    else Some(curr.value + pending.Pending() + (if killed then ClosingLine(clock) else ""))
  }

  /** A `Clear` message leaves the registry as it is. */
  lemma ClearKeepsPool(pool: map<string, Lib.Stream>, rest: seq<Lib.ThreadChannel>)
    ensures PoolAfter(pool, [Lib.Clear] + rest) == pool
  {
  }

  /** Without the kill flag the loop goes on, whatever message arrived (or
      none), unless it writes to an unopened sink. */
  lemma LoopsUntilKilled(curr: Option<Text>, pending: Lib.NewInternalLog)
    ensures StepOutcome(curr, pending, false) != Exit
    ensures StepOutcome(curr, pending, false) == Continue <==> curr.Some? || !pending.IsNew()
  {
  }

  /** With the kill flag set on an opened sink the loop exits, and the
      drained text comes before the closing line, after the old content. */
  lemma DrainPrecedesClosing(content: Text, pending: Lib.NewInternalLog, clock: nat -> Clock)
    ensures StepOutcome(Some(content), pending, true) == Exit
    ensures var after := ContentAfter(Some(content), pending, true, clock).value;
      after[..|content| + |pending.Pending()|] == content + pending.Pending() &&
      after[|content| + |pending.Pending()|..] == ClosingLine(clock)
  {
  }

  /** The drain moves exactly the pending text: a `New(log)` slot appends
      `log`, an empty slot appends nothing. */
  lemma DrainAppendsPending(content: Text, pending: Lib.NewInternalLog, clock: nat -> Clock)
    ensures pending.New? ==> ContentAfter(Some(content), pending, false, clock) == Some(content + pending.log)
    ensures pending.None? ==> ContentAfter(Some(content), pending, false, clock) == Some(content)
  {
    assert content + "" + "" == content;
    assert content + pending.Pending() + "" == content + pending.Pending();
  }

  /** A logger starts with the default sink, which holds no file: a pass
      that finds text in the slot before `log_file` was called panics. */
  lemma DrainBeforeLogFilePanics(pending: Lib.NewInternalLog, killed: bool)
    requires pending.IsNew()
    ensures StepOutcome(None, pending, killed) == Crashed(UNOPENED)
  {
  }

  /** Texts merged by `with_logger` between two passes reach the sink whole,
      once each and in merge order. */
  lemma MergedTextsReachSink(content: Text, texts: seq<string>, clock: nat -> Clock)
    ensures ContentAfter(Some(content), MergeAll(Lib.None, texts), false, clock) == Some(content + Concat(texts))
    ensures StepOutcome(Some(content), MergeAll(Lib.None, texts), false) == Continue
  {
    MergeAllKeepsEverything(Lib.None, texts);
    assert Lib.NewInternalLog.None.Pending() + Concat(texts) == Concat(texts);
    assert content + Concat(texts) + "" == content + Concat(texts);
  }

  // ---------------------------------------------------------------- workers

  /** How a worker's reads end: `Running` after the reads given (a worker
      never stops at the end of its stream), `Closed` after a read error,
      `Panicked` on a write to an unopened sink. */
  datatype WorkerResult = Running | Closed | Panicked(message: string)

  /** The texts a worker appends: every `Ok` result before the first error,
      the empty text of an end of stream included. */
  function TextsBeforeError(stream: Lib.Stream): seq<string>
  {
    if stream == [] || stream[0].LineError? then [] else [stream[0].text] + TextsBeforeError(stream[1..])
  }

  /** How a worker over the reads `stream` ends: the first `Ok` read writes,
      and so panics when the sink holds no file; a read error closes it. */
  function WorkerOutcome(isOpen: bool, stream: Lib.Stream): WorkerResult
  {
    if stream == [] then Running
    else if !isOpen && stream[0].Line? then Panicked(UNOPENED)
    else if Lib.LineError in stream then Closed
    else Running
  }

  /** The line a worker logs when it closes: one piece under the worker's
      own name, and a line break that is its only one when the name has none. */
  function ClosingThread(name: string, clock: nat -> Clock): (r: string)
    ensures r == LogTime(clock(0)) + Prefix(Info, Some(name)) + " " + "Closing thread" + "\n"
    ensures '\n' !in name ==> NewlineIndex(r) == |r| - 1
  {
    ConvertLogTerminated(Info, Some(name), clock, "Closing thread");
    ConvertLog(Info, Some(name), clock, "Closing thread") + "\n"
  }

  lemma {:induction false} TextsSplit(p: Lib.Stream, q: Lib.Stream)
    requires Lib.LineError !in p
    ensures TextsBeforeError(p + q) == TextsBeforeError(p) + TextsBeforeError(q)
  {
    if p == [] {
      assert p + q == q;
    } else {
      assert (p + q)[0] == p[0] && (p + q)[1..] == p[1..] + q;
      TextsSplit(p[1..], q);
    }
  }

  /** One more successful read appends its text to what is written. */
  lemma TextsSnoc(stream: Lib.Stream, i: nat)
    requires i < |stream| && Lib.LineError !in stream[..i] && stream[i].Line?
    ensures Concat(TextsBeforeError(stream[..i + 1])) == Concat(TextsBeforeError(stream[..i])) + stream[i].text
    ensures Lib.LineError !in stream[..i + 1]
  {
    assert stream[..i + 1] == stream[..i] + [stream[i]];
    assert [stream[i]][1..] == [];
    TextsSplit(stream[..i], [stream[i]]);
    assert TextsBeforeError(stream[..i + 1]) == TextsBeforeError(stream[..i]) + [stream[i].text];
    ConcatAppend(TextsBeforeError(stream[..i]), stream[i].text);
  }

  /** Before any error, every read's text is appended, in order: the worker
      skips nothing, not even the empty reads at the end of the stream. */
  lemma {:induction false} TextsAreReads(stream: Lib.Stream)
    requires Lib.LineError !in stream
    ensures |TextsBeforeError(stream)| == |stream|
    ensures forall k :: 0 <= k < |stream| ==> TextsBeforeError(stream)[k] == stream[k].text
  {
    if stream != [] {
      TextsAreReads(stream[1..]);
    }
  }

  /** The texts read up to the first error, and nothing after it. */
  lemma TextsStopAtError(stream: Lib.Stream, i: nat)
    requires i < |stream| && stream[i].LineError? && Lib.LineError !in stream[..i]
    ensures TextsBeforeError(stream) == TextsBeforeError(stream[..i])
  {
    assert stream == stream[..i] + stream[i..];
    TextsSplit(stream[..i], stream[i..]);
  }

  /** On an opened sink a worker closes exactly when a read fails, and never
      panics; on an unopened one it panics exactly when its first read
      succeeds. */
  lemma WorkerOutcomeSpec(stream: Lib.Stream)
    ensures WorkerOutcome(true, stream) == Closed <==> Lib.LineError in stream
    ensures WorkerOutcome(true, stream) == Running <==> Lib.LineError !in stream
    ensures WorkerOutcome(false, stream).Panicked? <==> stream != [] && stream[0].Line?
  {
  }

  /** One pass of a worker's loop: an `Ok` read is appended and flushed, a
      read error logs the closing of the thread. */
  method WorkerStep(file: LogioFile, shared: Lib.Shared, name: string, read: Lib.LineRead, clock: nat -> Clock)
    returns (r: WorkerResult)
    modifies file`curr, shared`writer
    ensures read.Line? && old(file.curr).Some? ==> r == Running && file.curr == Some(old(file.curr).value + read.text)
    ensures read.Line? ==> shared.writer == old(shared.writer)
    ensures read.Line? && old(file.curr).None? ==> r == Panicked(UNOPENED) && file.curr == None
    ensures read.LineError? ==>
      r == Closed && file.curr == old(file.curr) && shared.writer == Merge(old(shared.writer), ClosingThread(name, clock))
  {
    match read {
      case Line(text) =>
        var w := file.WriteAll(text);
        if w.Panic? {
          return Panicked(w.message);
        }
        var _ := file.Flush();
        r := Running;
      case LineError =>
        WithLogger(shared, "Closing thread", Info, Some(name), clock);
        r := Closed;
    }
  }

  /** A worker over the reads `stream`: it loops until a read fails, or the
      reads given run out while it is still running. */
  method RunWorker(file: LogioFile, shared: Lib.Shared, name: string, stream: Lib.Stream, clock: nat -> Clock)
    returns (r: WorkerResult)
    modifies file`curr, shared`writer
    ensures r == WorkerOutcome(old(file.curr).Some?, stream)
    ensures file.curr == if old(file.curr).Some? then Some(old(file.curr).value + Concat(TextsBeforeError(stream))) else None
    ensures shared.writer == if r == Closed then Merge(old(shared.writer), ClosingThread(name, clock)) else old(shared.writer)
  {
    ghost var c0 := file.curr;
    var i := 0;
    assert c0.Some? ==> c0.value + Concat(TextsBeforeError(stream[..i])) == c0.value;
    while i < |stream|
      invariant 0 <= i <= |stream|
      invariant Lib.LineError !in stream[..i]
      invariant c0.None? ==> i == 0
      invariant file.curr == if c0.Some? then Some(c0.value + Concat(TextsBeforeError(stream[..i]))) else None
      invariant shared.writer == old(shared.writer)
    {
      var step := WorkerStep(file, shared, name, stream[i], clock);
      if step.Panicked? {
        return step;
      }
      if step == Closed {
        assert stream[i] == Lib.LineError;
        assert Lib.LineError in stream;
        TextsStopAtError(stream, i);
        return step;
      }
      TextsSnoc(stream, i);
      assert c0.value + Concat(TextsBeforeError(stream[..i])) + stream[i].text
          == c0.value + Concat(TextsBeforeError(stream[..i + 1]));
      i := i + 1;
    }
    assert stream[..i] == stream;
    r := Running;
  }

  // ---------------------------------------------------------------- logger

  /** `Logger`: the registry and the channel of the supervisor, whether its
      thread has ended, and the sink it shares with the workers. */
  class Logger {
    var pool: map<string, Lib.Stream>
    var channel: seq<Lib.ThreadChannel>
    var finished: bool
    const file: LogioFile

    /** `Logger::new` (and `Default`): an empty registry and channel, and the
        default sink, which holds no file. */
    constructor ()
      ensures pool == map[] && channel == [] && !finished
      ensures fresh(file) && file.curr == None && file.dir == "" && file.archive == NoArchive
    {
      pool := map[];
      channel := [];
      finished := false;
      file := new LogioFile.Default();
    }

    /** `input_buf`: sends a batch of one buffer. */
    method InputBuf(buffer: Lib.LogBuffer) returns (r: Outcome)
      modifies this`channel
      ensures !finished ==> r == Ok && channel == old(channel) + [Lib.NewBufs([buffer])]
      ensures finished ==> r == Panic(SEND_BUFS_FAILED) && channel == old(channel)
    {
      if finished {
        return Panic(SEND_BUFS_FAILED);
      }
      channel := channel + [Lib.NewBufs([buffer])];
      r := Ok;
    }

    /** `new_input_bufs` (the method): sends a batch. */
    method NewInputBufs(bufs: seq<Lib.LogBuffer>) returns (r: Outcome)
      modifies this`channel
      ensures !finished ==> r == Ok && channel == old(channel) + [Lib.NewBufs(bufs)]
      ensures finished ==> r == Panic(SEND_BUFS_FAILED) && channel == old(channel)
    {
      if finished {
        return Panic(SEND_BUFS_FAILED);
      }
      channel := channel + [Lib.NewBufs(bufs)];
      r := Ok;
    }

    /** `clear_buf_pool`: sends `Clear`. */
    method ClearBufPool() returns (r: Outcome)
      modifies this`channel
      ensures !finished ==> r == Ok && channel == old(channel) + [Lib.Clear]
      ensures finished ==> r == Panic(SEND_CLEAR_FAILED) && channel == old(channel)
    {
      if finished {
        return Panic(SEND_CLEAR_FAILED);
      }
      channel := channel + [Lib.Clear];
      r := Ok;
    }

    /** `log_file`: the shared sink is replaced wholesale by `f`. */
    method LogFile(f: LogioFile)
      modifies file
      ensures file.curr == old(f.curr) && file.dir == old(f.dir) && file.archive == old(f.archive)
    {
      file.curr, file.dir, file.archive := f.curr, f.dir, f.archive;
    }

    /** `is_finished`. */
    method IsFinished() returns (b: bool)
      ensures b == finished
    {
      b := finished;
    }

    /** The insertions of one `NewBufs` message into the registry. */
    method Register(bufs: seq<Lib.LogBuffer>)
      modifies this`pool
      ensures pool == Registered(old(pool), bufs)
    {
      for i := 0 to |bufs|
        invariant pool == Registered(old(pool), bufs[..i])
      {
        assert bufs[..i + 1][..i] == bufs[..i];
        pool := pool[bufs[i].name := bufs[i].stream];
      }
      assert bufs[..|bufs|] == bufs;
    }

    /** The start of a pass: the message at the head of the channel, if one
        has arrived before the timeout, is taken and handled. */
    method Receive()
      modifies this`pool, this`channel
      ensures channel == if old(channel) == [] then [] else old(channel)[1..]
      ensures pool == PoolAfter(old(pool), old(channel))
    {
      if channel != [] {
        var msg := channel[0];
        channel := channel[1..];
        match msg {
          case Clear =>
          case NewBufs(bufs) => Register(bufs);
        }
      }
    }

    /** The rest of a pass: take the slot's text, reset the slot and write
        the text; then, if the kill flag is set, write the closing line and
        end. A panic also ends the thread. */
    method Drain(shared: Lib.Shared, clock: nat -> Clock) returns (r: StepResult)
      modifies this`finished, file`curr, shared`writer
      ensures shared.writer == Lib.None
      ensures r == StepOutcome(old(file.curr), old(shared.writer), shared.killed)
      ensures file.curr == ContentAfter(old(file.curr), old(shared.writer), shared.killed, clock)
      ensures finished == (r != Continue || old(finished))
    {
      var pending := shared.writer;
      ghost var drained := file.curr;
      if pending.New? {
        shared.writer := pending.Reset();
        var w := file.WriteAll(pending.log);
        if w.Panic? {
          finished := true;
          return Crashed(w.message);
        }
        var _ := file.Flush();
      } else {
        assert drained.Some? ==> drained.value + "" == drained.value;
      }
      assert drained.Some? ==> file.curr == Some(drained.value + pending.Pending());
      if shared.killed {
        var line := ClosingLine(clock);
        var w := file.WriteAll(line);
        if w.Panic? {
          finished := true;
          return Crashed(w.message);
        }
        var _ := file.Flush();
        finished := true;
        return Exit;
      }
      assert drained.Some? ==> file.curr.value == drained.value + pending.Pending() + "";
      r := Continue;
    }

    /** One pass of the supervisor's loop. */
    method Step(shared: Lib.Shared, clock: nat -> Clock) returns (r: StepResult)
      requires !finished
      modifies this`pool, this`channel, this`finished, file`curr, shared`writer
      ensures channel == if old(channel) == [] then [] else old(channel)[1..]
      ensures pool == PoolAfter(old(pool), old(channel))
      ensures shared.writer == Lib.None
      ensures r == StepOutcome(old(file.curr), old(shared.writer), shared.killed)
      ensures file.curr == ContentAfter(old(file.curr), old(shared.writer), shared.killed, clock)
      ensures finished <==> r != Continue
    {
      Receive();
      r := Drain(shared, clock);
    }
  }
}
