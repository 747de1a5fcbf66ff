/** The crate root's data: the internal-message slot `NewInternalLog`, the
    input buffers and control messages handed to the supervisor, and the two
    process-wide statics that do not depend on the logger itself
    (`INTERNAL_WRITER` and `KILLED`). The third static, `LOGGER`, and the
    functions `init` and `kill` that use it are in module Lifecycle. */
module Lib {

  /** The internal-message slot: at most one pending batch of formatted text. */
  datatype NewInternalLog = New(log: string) | None
  {
    /** `is_new`: holds exactly of the `New(t)` values. */
    predicate IsNew()
      ensures IsNew() <==> exists t :: this == New(t)
    {
      match this
      case New(log) => assert this == New(log); true
      case None => false
    }

    /** `reset`: the slot's new value (`*self = Self::None`). */
    function Reset(): (r: NewInternalLog)
      ensures !r.IsNew()
    {
      None
    }

    /** The text waiting in the slot; empty when there is none. */
    function Pending(): string
    {
      match this
      case New(log) => log
      case None => ""
    }
  }

  /** `NewInternalLog::default()` (the `#[default]` variant). */
  function DefaultLog(): (r: NewInternalLog)
    ensures !r.IsNew() && r.Pending() == ""
  {
    None
  }

  /** Resetting is idempotent and leaves nothing pending. */
  lemma ResetIdempotent(s: NewInternalLog)
    ensures s.Reset().Reset() == s.Reset()
    ensures !s.Reset().IsNew() && s.Reset().Pending() == ""
  {
  }

  /** One line read from a source stream by `BufRead::read_line`: `Line(t)`
      is `Ok(_)` with the text `t` read (terminator included; empty at the
      end of the stream), `LineError` is `Err(_)`. */
  datatype LineRead = Line(text: string) | LineError

  /** A source stream, abstracted as the read results it yields, in order. */
  type Stream = seq<LineRead>

  /** `LogBuffer`: a named source stream. */
  datatype LogBuffer = LogBuffer(name: string, stream: Stream)

  /** `ThreadChannel`: the control messages of the supervisor's channel. */
  datatype ThreadChannel = Clear | NewBufs(bufs: seq<LogBuffer>)

  /** The statics `INTERNAL_WRITER` (the slot) and `KILLED` (the shutdown flag).
      Only `Lifecycle.Context.Kill` assigns `killed`, and only to true: every
      other method's frame leaves the field out. */
  class Shared {
    var writer: NewInternalLog
    var killed: bool

    constructor ()
      ensures writer == DefaultLog() && !killed
    {
      writer := None;
      killed := false;
    }
  }
}
