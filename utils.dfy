/** Log-line formatting (`LogType::prefix`, `log_time`, `convert_log`) and the
    slot merge of `with_logger`. The clock and the current thread's name are
    parameters. */
module Utils {
  import opened Wrappers
  import opened Strings
  import Lib

  datatype LogType = Warn | Info | Err

  /** The name used for the current thread: its own, or "unamed" (spelt as in
      the crate) when it has none. */
  function ThreadName(thread: Option<string>): string
  {
    match thread
    case Some(name) => name
    case None => "unamed"
  }

  predicate EndsWith(s: string, suffix: string)
  {
    |suffix| <= |s| && s[|s| - |suffix|..] == suffix
  }

  /** Reads the thread name and the severity back out of a prefix. */
  function ParsePrefix(p: string): Option<(string, LogType)>
  {
    if |p| < 8 || p[..8] != "[thread:" then None
    else if |p| >= 15 && EndsWith(p, ":WARN]:") then Some((p[8..|p| - 7], Warn))
    else if |p| >= 15 && EndsWith(p, ":INFO]:") then Some((p[8..|p| - 7], Info))
    else if |p| >= 14 && EndsWith(p, ":ERR]:") then Some((p[8..|p| - 6], Err))
    else None
  }

  lemma PrefixParts(name: string, tail: string)
    ensures var p := "[thread:" + name + tail;
      p[..8] == "[thread:" && p[|p| - |tail|..] == tail && p[8..|p| - |tail|] == name
  {
    var p := "[thread:" + name + tail;
    assert p == "[thread:" + (name + tail);
    assert p[8..] == name + tail;
  }

  lemma ParseWarn(name: string)
    ensures ParsePrefix("[thread:" + name + ":WARN]:") == Some((name, Warn))
  {
    PrefixParts(name, ":WARN]:");
  }

  lemma ParseInfo(name: string)
    ensures ParsePrefix("[thread:" + name + ":INFO]:") == Some((name, Info))
  {
    var p := "[thread:" + name + ":INFO]:";
    PrefixParts(name, ":INFO]:");
    assert p[|p| - 7..][1] == 'I';
  }

  lemma ParseErr(name: string)
    ensures ParsePrefix("[thread:" + name + ":ERR]:") == Some((name, Err))
  {
    var p := "[thread:" + name + ":ERR]:";
    PrefixParts(name, ":ERR]:");
    if |p| >= 15 {
      assert p[|p| - 7..][2] == 'E';
    }
  }

  /** `LogType::prefix`: `[thread:<name>:WARN]:`, `...:INFO]:` or `...:ERR]:`.
      The prefix determines the thread name and the severity it was made
      from, whatever characters the name holds. */
  function Prefix(kind: LogType, thread: Option<string>): (r: string)
    ensures ParsePrefix(r) == Some((ThreadName(thread), kind))
  {
    match kind
    case Warn => ParseWarn(ThreadName(thread)); "[thread:" + ThreadName(thread) + ":WARN]:"
    case Info => ParseInfo(ThreadName(thread)); "[thread:" + ThreadName(thread) + ":INFO]:"
    case Err => ParseErr(ThreadName(thread)); "[thread:" + ThreadName(thread) + ":ERR]:"
  }

  /** A local date and time as `chrono` reports it. */
  datatype Clock = Clock(year: int, month: nat, day: nat, hour: nat, minute: nat, second: nat, nanosecond: nat)
  {
    /** The ranges `chrono` keeps (`second` may be 60 for a leap second). */
    predicate Valid()
    {
      1 <= month <= 12 && 1 <= day <= 31 && hour < 24 && minute < 60 && second <= 60 && nanosecond < 1000000000
    }
  }

  /** The chronological order of `NaiveDateTime`: lexicographic on the fields. */
  predicate Before(a: Clock, b: Clock)
  {
    a.year < b.year || (a.year == b.year &&
    (a.month < b.month || (a.month == b.month &&
    (a.day < b.day || (a.day == b.day &&
    (a.hour < b.hour || (a.hour == b.hour &&
    (a.minute < b.minute || (a.minute == b.minute &&
    (a.second < b.second || (a.second == b.second &&
    a.nanosecond < b.nanosecond)))))))))))
  }

  /** `Before` is a strict total order. */
  lemma BeforeStrictTotal(a: Clock, b: Clock, c: Clock)
    ensures !Before(a, a)
    ensures Before(a, b) && Before(b, c) ==> Before(a, c)
    ensures a == b || Before(a, b) || Before(b, a)
  {
  }

  function Digit(d: nat): char
    requires d < 10
  {
    ('0' as int + d) as char
  }

  /** A field zero-padded to two digits, as `%m`, `%d`, `%y`, `%H`, `%M`, `%S`
      print every value they can be given (the year through `year % 100`). */
  function Pad2(n: nat): (s: string)
    ensures |s| == 2 && '0' <= s[0] <= '9' && '0' <= s[1] <= '9'
  {
    [Digit(n / 10 % 10), Digit(n % 10)]
  }

  function ReadPad2(s: string): nat
    requires |s| == 2 && '0' <= s[0] <= '9' && '0' <= s[1] <= '9'
  {
    (s[0] as int - '0' as int) * 10 + (s[1] as int - '0' as int)
  }

  lemma Pad2RoundTrip(n: nat)
    requires n < 100
    ensures ReadPad2(Pad2(n)) == n
  {
  }

  /** The time as `%m/%d/%y %H:%M:%S` prints it. */
  function TimeText(c: Clock): string
  {
    Pad2(c.month) + "/" + Pad2(c.day) + "/" + Pad2(c.year % 100) + " " +
    Pad2(c.hour) + ":" + Pad2(c.minute) + ":" + Pad2(c.second)
  }

  /** `log_time`: `[<time>]:`, one line, 20 characters wide for a valid
      clock, with month, day, two-digit year, hour, minute and second
      readable back from it. */
  function LogTime(c: Clock): (r: string)
    ensures '\n' !in r
    ensures c.Valid() ==> |r| == 20 && ReadLogTime(r) == Some((c.month, c.day, c.year % 100, c.hour, c.minute, c.second))
  {
    BracketNoNewline(c);
    BracketReadBack(c);
    "[" + TimeText(c) + "]:"
  }

  /** What a reader of a log line gets back out of its 20-character time
      field: month, day, two-digit year, hour, minute and second. */
  function ReadLogTime(s: string): Option<(nat, nat, nat, nat, nat, nat)>
  {
    if |s| != 20 || s[0] != '[' || s[18..] != "]:" || s[3] != '/' || s[6] != '/' ||
       s[9] != ' ' || s[12] != ':' || s[15] != ':'
    then None
    else if !(forall k :: k in {1, 2, 4, 5, 7, 8, 10, 11, 13, 14, 16, 17} ==> '0' <= s[k] <= '9') then None
    else Some((ReadPad2(s[1..3]), ReadPad2(s[4..6]), ReadPad2(s[7..9]),
               ReadPad2(s[10..12]), ReadPad2(s[13..15]), ReadPad2(s[16..18])))
  }

  /** Where the six two-character fields sit in `mo/dd/yy hh:mm:ss`. */
  lemma TimeTextLayout(mo: string, d: string, y: string, h: string, mi: string, se: string)
    requires |mo| == 2 && |d| == 2 && |y| == 2 && |h| == 2 && |mi| == 2 && |se| == 2
    ensures var t := mo + "/" + d + "/" + y + " " + h + ":" + mi + ":" + se;
      |t| == 17 && t[2] == '/' && t[5] == '/' && t[8] == ' ' && t[11] == ':' && t[14] == ':' &&
      t[0..2] == mo && t[3..5] == d && t[6..8] == y && t[9..11] == h && t[12..14] == mi && t[15..17] == se
  {
    var p1 := mo + "/";
    var p2 := p1 + d + "/";
    var p3 := p2 + y + " ";
    var p4 := p3 + h + ":";
    var p5 := p4 + mi + ":";
    var t := p5 + se;
    assert t[..15] == p5 && p5[..12] == p4 && p4[..9] == p3 && p3[..6] == p2 && p2[..3] == p1;
    assert t[..12] == p4 by { assert t[..12] == t[..15][..12]; }
    assert t[..9] == p3 by { assert t[..9] == t[..12][..9]; }
    assert t[..6] == p2 by { assert t[..6] == t[..9][..6]; }
    assert t[..3] == p1 by { assert t[..3] == t[..6][..3]; }
    assert p1[0..2] == mo && t[0..2] == t[..3][0..2];
    assert p2[3..5] == d && t[3..5] == t[..6][3..5];
    assert p3[6..8] == y && t[6..8] == t[..9][6..8];
    assert p4[9..11] == h && t[9..11] == t[..12][9..11];
    assert p5[12..14] == mi && t[12..14] == t[..15][12..14];
    assert t[2] == p1[2] && t[5] == p2[5] && t[8] == p3[8] && t[11] == p4[11] && t[14] == p5[14];
  }

  /** `[`, a text of 17 characters and `]:`. */
  lemma BracketLayout(t: string)
    requires |t| == 17
    ensures var s := "[" + t + "]:";
      |s| == 20 && s[0] == '[' && s[1..18] == t && s[18..] == "]:"
  {
  }

  /** The bracketed time text of a valid clock is 20 characters wide and its
      fields read back. */
  lemma BracketReadBack(c: Clock)
    ensures c.Valid() ==> |"[" + TimeText(c) + "]:"| == 20
    ensures c.Valid() ==> ReadLogTime("[" + TimeText(c) + "]:") == Some((c.month, c.day, c.year % 100, c.hour, c.minute, c.second))
  {
    if !c.Valid() {
      return;
    }
    var mo, d, y, h, mi, se := Pad2(c.month), Pad2(c.day), Pad2(c.year % 100), Pad2(c.hour), Pad2(c.minute), Pad2(c.second);
    var t := TimeText(c);
    assert t == mo + "/" + d + "/" + y + " " + h + ":" + mi + ":" + se;
    TimeTextLayout(mo, d, y, h, mi, se);
    BracketLayout(t);
    var s := "[" + t + "]:";
    assert s[1..18] == t;
    assert s[1..3] == t[0..2] && s[4..6] == t[3..5] && s[7..9] == t[6..8];
    assert s[10..12] == t[9..11] && s[13..15] == t[12..14] && s[16..18] == t[15..17];
    assert s[3] == t[2] && s[6] == t[5] && s[9] == t[8] && s[12] == t[11] && s[15] == t[14];
    Pad2RoundTrip(c.month);
    Pad2RoundTrip(c.day);
    Pad2RoundTrip(c.year % 100);
    Pad2RoundTrip(c.hour);
    Pad2RoundTrip(c.minute);
    Pad2RoundTrip(c.second);
  }

  /** The time texts of successive `log_time` calls: `clock(k)` is what the
      `k`-th call reads. */
  function Times(clock: nat -> Clock): nat -> string
  {
    (k: nat) => LogTime(clock(k))
  }

  /** The pieces of `convert_log` collected with nothing between them: line
      `k` of `lines` (counted from `from`) gets time text `times(from + k)`,
      then the prefix, a space and the line. */
  function Render(lines: seq<string>, prefix: string, times: nat -> string, from: nat): string
  {
    if lines == [] then ""
    else times(from) + prefix + " " + lines[0] + Render(lines[1..], prefix, times, from + 1)
  }

  /** `convert_log`, with `clock(k)` what its `k`-th call of `log_time`
      reads (one call per line). */
  function ConvertLog(kind: LogType, thread: Option<string>, clock: nat -> Clock, msg: string): (r: string)
    ensures Lines(msg) == [] ==> r == ""
  {
    Render(Lines(msg), Prefix(kind, thread), Times(clock), 0)
  }

  /** The pieces of `Render`, in order. */
  function Pieces(lines: seq<string>, prefix: string, times: nat -> string, from: nat): seq<string>
  {
    if lines == [] then [] else [times(from) + prefix + " " + lines[0]] + Pieces(lines[1..], prefix, times, from + 1)
  }

  /** One piece per line: piece `k` is line `k` behind time text
      `times(from + k)` and the prefix. */
  lemma {:induction false} PiecesAt(lines: seq<string>, prefix: string, times: nat -> string, from: nat)
    ensures |Pieces(lines, prefix, times, from)| == |lines|
    ensures forall k :: 0 <= k < |lines| ==> Pieces(lines, prefix, times, from)[k] == times(from + k) + prefix + " " + lines[k]
  {
    if lines != [] {
      PiecesAt(lines[1..], prefix, times, from + 1);
      var ps, rest := Pieces(lines, prefix, times, from), Pieces(lines[1..], prefix, times, from + 1);
      forall k | 1 <= k < |lines| ensures ps[k] == times(from + k) + prefix + " " + lines[k] {
        assert ps[k] == rest[k - 1];
        assert lines[1..][k - 1] == lines[k] && from + 1 + (k - 1) == from + k;
      }
    }
  }

  lemma {:induction false} RenderIsConcat(lines: seq<string>, prefix: string, times: nat -> string, from: nat)
    ensures Render(lines, prefix, times, from) == Concat(Pieces(lines, prefix, times, from))
  {
    if lines != [] {
      RenderIsConcat(lines[1..], prefix, times, from + 1);
      var ps := Pieces(lines, prefix, times, from);
      assert ps[0] == times(from) + prefix + " " + lines[0];
      assert ps[1..] == Pieces(lines[1..], prefix, times, from + 1);
    }
  }

  /** `convert_log` makes one piece per line of the message, in order: the
      time text of its own clock reading, the thread's prefix, a space and
      the line; the pieces are concatenated without a separator. */
  lemma ConvertLogPieces(kind: LogType, thread: Option<string>, clock: nat -> Clock, msg: string)
    ensures var ls := Lines(msg); var ps := Pieces(ls, Prefix(kind, thread), Times(clock), 0);
      ConvertLog(kind, thread, clock, msg) == Concat(ps) && |ps| == |ls| &&
      forall k :: 0 <= k < |ls| ==> ps[k] == Times(clock)(k) + Prefix(kind, thread) + " " + ls[k]
  {
    var ls, prefix := Lines(msg), Prefix(kind, thread);
    RenderIsConcat(ls, prefix, Times(clock), 0);
    PiecesAt(ls, prefix, Times(clock), 0);
  }

  /** A one-line message becomes a single piece. */
  lemma ConvertLogSingleLine(kind: LogType, thread: Option<string>, clock: nat -> Clock, msg: string)
    requires msg != [] && '\n' !in msg
    ensures ConvertLog(kind, thread, clock, msg) == LogTime(clock(0)) + Prefix(kind, thread) + " " + msg
  {
    SingleLine(msg);
    assert Render([msg][1..], Prefix(kind, thread), Times(clock), 1) == "";
  }

  lemma PadNoNewline(n: nat)
    ensures '\n' !in Pad2(n)
  {
  }

  lemma BracketNoNewline(c: Clock)
    ensures '\n' !in "[" + TimeText(c) + "]:"
  {
    PadNoNewline(c.month);
    PadNoNewline(c.day);
    PadNoNewline(c.year % 100);
    PadNoNewline(c.hour);
    PadNoNewline(c.minute);
    PadNoNewline(c.second);
  }

  lemma {:induction false} RenderNoNewline(lines: seq<string>, prefix: string, times: nat -> string, from: nat)
    requires '\n' !in prefix
    requires forall k :: 0 <= k < |lines| ==> '\n' !in lines[k]
    requires forall k :: from <= k ==> '\n' !in times(k)
    ensures '\n' !in Render(lines, prefix, times, from)
  {
    if lines != [] {
      RenderNoNewline(lines[1..], prefix, times, from + 1);
    }
  }

  /** Since the pieces are joined with nothing between them, the output holds
      no line break at all: a message of several lines becomes one line. */
  lemma ConvertLogOneLine(kind: LogType, thread: Option<string>, clock: nat -> Clock, msg: string)
    requires '\n' !in ThreadName(thread)
    ensures '\n' !in ConvertLog(kind, thread, clock, msg)
  {
    forall k: nat ensures '\n' !in Times(clock)(k) {
      assert Times(clock)(k) == LogTime(clock(k));
    }
    RenderNoNewline(Lines(msg), Prefix(kind, thread), Times(clock), 0);
  }

  /** A one-line message under a name without line breaks renders as one
      piece holding no line break. */
  lemma ConvertLogLine(kind: LogType, thread: Option<string>, clock: nat -> Clock, msg: string)
    requires msg != [] && '\n' !in msg && '\n' !in ThreadName(thread)
    ensures ConvertLog(kind, thread, clock, msg) == LogTime(clock(0)) + Prefix(kind, thread) + " " + msg
    ensures '\n' !in ConvertLog(kind, thread, clock, msg)
  {
    ConvertLogSingleLine(kind, thread, clock, msg);
    ConvertLogOneLine(kind, thread, clock, msg);
  }

  /** The same message with a line break appended: when the name has no
      line break, the first one is the last character. */
  lemma ConvertLogTerminated(kind: LogType, thread: Option<string>, clock: nat -> Clock, msg: string)
    requires msg != [] && '\n' !in msg
    ensures ConvertLog(kind, thread, clock, msg) + "\n" == LogTime(clock(0)) + Prefix(kind, thread) + " " + msg + "\n"
    ensures var r := ConvertLog(kind, thread, clock, msg) + "\n";
      '\n' !in ThreadName(thread) ==> NewlineIndex(r) == |r| - 1
  {
    ConvertLogSingleLine(kind, thread, clock, msg);
    var line := ConvertLog(kind, thread, clock, msg);
    if '\n' !in ThreadName(thread) {
      ConvertLogOneLine(kind, thread, clock, msg);
      NewlineAfter(line, "");
      assert line + "\n" + "" == line + "\n";
    }
  }

  /** The slot after `with_logger` has merged `text` into it: the earlier
      pending text, if any, followed by `text`. */
  function Merge(slot: Lib.NewInternalLog, text: string): (r: Lib.NewInternalLog)
    ensures r.IsNew() && r.Pending() == slot.Pending() + text
  {
    match slot
    case New(pending) => Lib.New(pending + text)
    case None => Lib.New(text)
  }

  /** Several `with_logger` merges in a row, in the order given. */
  function MergeAll(slot: Lib.NewInternalLog, texts: seq<string>): Lib.NewInternalLog
    decreases texts
  {
    if texts == [] then slot else MergeAll(Merge(slot, texts[0]), texts[1..])
  }

  /** No text is lost between two drains: after any sequence of merges the
      slot holds the earlier pending text followed by every merged text,
      each once and in merge order. */
  lemma {:induction false} MergeAllKeepsEverything(slot: Lib.NewInternalLog, texts: seq<string>)
    ensures MergeAll(slot, texts).Pending() == slot.Pending() + Concat(texts)
    ensures texts != [] ==> MergeAll(slot, texts).IsNew()
    decreases texts
  {
    if texts != [] {
      MergeAllKeepsEverything(Merge(slot, texts[0]), texts[1..]);
    }
  }

  /** `with_logger`: formats `log` (one clock reading per line), adds a line
      break and merges the result into the slot. */
  method WithLogger(shared: Lib.Shared, log: string, kind: LogType, thread: Option<string>, clock: nat -> Clock)
    modifies shared`writer
    ensures shared.writer == Merge(old(shared.writer), ConvertLog(kind, thread, clock, log) + "\n")
  {
    var line := ConvertLog(kind, thread, clock, log);
    line := line + "\n";
    shared.writer := Merge(shared.writer, line);
  }
}
