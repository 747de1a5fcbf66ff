/** The rotating file sink: `LogioFile` and its archive-and-rotate algorithm.

    The filesystem is a value (`Disk`): the set of existing directories and a
    map from file path to content. What the operating system decides is given
    as parameters (`Env`): the order and shape of the archive directory's
    listing, whether a delete or a metadata query succeeds, how many bytes
    each read returns, the parsing of archive names and the current time. */
module LogFile {
  import opened Wrappers
  import opened Strings
  import opened Utils

  /** File content, one character per byte. */
  type Text = string

  /** `MB`: the largest copy buffer. */
  const MB: nat := 1024 * 1024
  /** `MAX_FILE_SIZE`: the size assumed when the metadata cannot be read. */
  const MAX_FILE_SIZE: nat := 1000000000
  /** The retention ceiling written into `archive_log`. */
  const MAX_ARCHIVES: nat := 15

  /** `ArchiveType` (its variant `None` is called `NoArchive` here). */
  datatype ArchiveType = NoArchive | Archive(archiveDir: string)

  /** `DirFile`: one kept archive entry. */
  datatype DirFile = DirFile(dateOfCreation: Clock, path: string, name: string)

  /** One item of the archive directory's listing: `Unreadable` is an `Err`
      entry, `NotUnicode` a name that `into_string` refuses. */
  datatype Listed = Unreadable | NotUnicode | Named(name: string)

  /** The messages `archive_log` hands to `info!`, `warn!` and `err!`. */
  datatype Notice =
    | CheckingLogsDir
    | CheckingArchiveDir
    | EntryUnreadable
    | NameNotUnicode
    | Incompatible(name: string)
    | OldestRemoved(name: string)
    | RemoveFailed
    | MetadataFailed(assumed: nat)
    | PreparingCopy(size: nat)
    | AllBytesRead(size: nat)
    | ReadFailed

  /** The macro each notice goes through. */
  function Severity(n: Notice): LogType
  {
    match n
    case EntryUnreadable => Warn
    case Incompatible(_) => Warn
    case RemoveFailed => Warn
    case NameNotUnicode => Err
    case MetadataFailed(_) => Err
    case ReadFailed => Err
    case _ => Info
  }

  datatype Disk = Disk(dirs: set<string>, files: map<string, Text>)

  /** The result of one `read` call: `Read(n)` is `Ok(n)`. */
  datatype ReadReply = Read(n: nat) | ReadError

  /** What the operating system decides during one rotation. `reader(pos, len)`
      is the reply to a read of at most `len` bytes at offset `pos` of the old
      current file. */
  datatype Env = Env(
    listing: seq<Listed>,
    parse: string -> Option<Clock>,
    now: Clock,
    removeOk: bool,
    metadataOk: bool,
    reader: (nat, nat) -> ReadReply)

  /** The contract of `Read::read` on a file of `size` bytes read front to
      back: a read never returns more than the buffer holds or than is left. */
  ghost predicate ReadContract(reader: (nat, nat) -> ReadReply, size: nat)
  {
    forall pos: nat, len: nat :: pos <= size && reader(pos, len).Read? ==>
      reader(pos, len).n <= len && pos + reader(pos, len).n <= size
  }

  /** A read into a non-empty buffer returns 0 only at the end of the file. */
  ghost predicate ZeroOnlyAtEnd(reader: (nat, nat) -> ReadReply, size: nat)
  {
    forall pos: nat, len: nat :: pos < size && 0 < len && reader(pos, len).Read? ==> reader(pos, len).n > 0
  }

  /** No read fails. */
  ghost predicate NeverFails(reader: (nat, nat) -> ReadReply)
  {
    forall pos: nat, len: nat :: reader(pos, len).Read?
  }

  function Min(a: nat, b: nat): nat { if a <= b then a else b }
  function Max(a: nat, b: nat): nat { if a <= b then b else a }

  // ---------------------------------------------------------------- paths

  /** `format!("{}/{}", dir, log_file)`. */
  function FilePath(dir: string, logFile: string): string { dir + "/" + logFile }

  /** The timestamp of an archive name, as `%m-%d-%y %H:%M` prints it. */
  function ArchiveStamp(c: Clock): string
  {
    Pad2(c.month) + "-" + Pad2(c.day) + "-" + Pad2(c.year % 100) + " " + Pad2(c.hour) + ":" + Pad2(c.minute)
  }

  /** The name of the archive made at time `c`. */
  function ArchiveName(c: Clock): string { "log " + ArchiveStamp(c) }

  /** The new archive's path. The directory is written into the source as
      `logs/archives/`, whatever the sink's directory and archive directory
      are. The file lies directly in that directory, and a later scan of it
      keeps the file and hands the parser the archive's timestamp. */
  function ArchivePath(c: Clock): (r: string)
    ensures |r| > |ARCHIVE_DIR| + 1 && r[..|ARCHIVE_DIR| + 1] == ARCHIVE_DIR + "/"
    ensures Eligible(r[|ARCHIVE_DIR| + 1..])
    ensures RemoveAll(r[|ARCHIVE_DIR| + 1..], "log ") == ArchiveStamp(c)
  {
    ArchiveNameStamp(c);
    var r := FilePath(ARCHIVE_DIR, ArchiveName(c));
    assert r[|ARCHIVE_DIR| + 1..] == ArchiveName(c);
    r
  }

  lemma StampChars(c: Clock)
    ensures 'l' !in ArchiveStamp(c) && '.' !in ArchiveStamp(c)
  {
    var mo, d, y, h, mi := Pad2(c.month), Pad2(c.day), Pad2(c.year % 100), Pad2(c.hour), Pad2(c.minute);
    assert 'l' !in mo && 'l' !in d && 'l' !in y && 'l' !in h && 'l' !in mi;
    assert '.' !in mo && '.' !in d && '.' !in y && '.' !in h && '.' !in mi;
  }

  /** Removing `"log "` from an archive name leaves exactly its timestamp, so
      the parser is given what `%m-%d-%y %H:%M` printed; and the name is one
      the scan keeps. */
  lemma ArchiveNameStamp(c: Clock)
    ensures RemoveAll(ArchiveName(c), "log ") == ArchiveStamp(c)
    ensures Eligible(ArchiveName(c))
  {
    var stamp := ArchiveStamp(c);
    StampChars(c);
    NotContainsFirstChar(stamp, "log ");
    RemoveLeading("log ", stamp);
    var name := ArchiveName(c);
    assert name[..3] == "log";
    assert '.' !in name by {
      assert name == "log " + stamp;
    }
    NotContainsFirstChar(name, ".DS_Store");
  }

  // ---------------------------------------------------------- the scan

  /** The date attached to a kept entry: the parse of its name with every
      `"log "` removed, or the current time when parsing fails. For the name
      of an archive made at time `c`, the parser is given that archive's
      timestamp. */
  function DateOf(name: string, parse: string -> Option<Clock>, now: Clock): (r: Clock)
    ensures parse(RemoveAll(name, "log ")).Some? ==> Some(r) == parse(RemoveAll(name, "log "))
    ensures parse(RemoveAll(name, "log ")).None? ==> r == now
    ensures forall c :: name == ArchiveName(c) ==>
      (match parse(ArchiveStamp(c)) case Some(date) => r == date case None => r == now)
  {
    ArchiveNamesStamp(name);
    match parse(RemoveAll(name, "log "))
    case Some(date) => date
    case None => now
  }

  lemma ArchiveNamesStamp(name: string)
    ensures forall c :: name == ArchiveName(c) ==> RemoveAll(name, "log ") == ArchiveStamp(c)
  {
    forall c | name == ArchiveName(c)
      ensures RemoveAll(name, "log ") == ArchiveStamp(c)
    {
      ArchiveNameStamp(c);
    }
  }

  /** A name the scan keeps. */
  predicate Eligible(name: string)
  {
    !Contains(name, ".DS_Store") && Contains(name, "log")
  }

  /** What the scan does with one listing item. */
  datatype Scanned = Skipped | Warned(notice: Notice) | Kept(file: DirFile)

  /** The scan keeps exactly the eligible names, as files of the archive
      directory dated by `DateOf`; it passes over `.DS_Store` entries
      silently, and every other entry it drops with a warning or an error. */
  function Classify(archDir: string, e: Listed, parse: string -> Option<Clock>, now: Clock): (r: Scanned)
    ensures r.Kept? <==> e.Named? && Eligible(e.name)
    ensures r.Kept? ==> r.file == DirFile(DateOf(e.name, parse, now), archDir + "/" + e.name, e.name)
    ensures r.Skipped? <==> e.Named? && Contains(e.name, ".DS_Store")
    ensures r.Warned? ==> Severity(r.notice) != Info
    ensures e.Named? && !Contains(e.name, ".DS_Store") && !Contains(e.name, "log") ==> r == Warned(Incompatible(e.name))
  {
    match e
    case Unreadable => Warned(EntryUnreadable)
    case NotUnicode => Warned(NameNotUnicode)
    case Named(name) =>
      if Contains(name, ".DS_Store") then Skipped
      else if !Contains(name, "log") then Warned(Incompatible(name))
      else Kept(DirFile(DateOf(name, parse, now), archDir + "/" + name, name))
  }

  /** The entries the scan keeps, in listing order. */
  function KeptFiles(archDir: string, listing: seq<Listed>, parse: string -> Option<Clock>, now: Clock): seq<DirFile>
  {
    if listing == [] then []
    else
      var s := Classify(archDir, listing[|listing| - 1], parse, now);
      KeptFiles(archDir, listing[..|listing| - 1], parse, now) + (if s.Kept? then [s.file] else [])
  }

  /** The warnings and errors the scan reports, in listing order. */
  function ScanNotices(archDir: string, listing: seq<Listed>, parse: string -> Option<Clock>, now: Clock): seq<Notice>
  {
    if listing == [] then []
    else
      var s := Classify(archDir, listing[|listing| - 1], parse, now);
      ScanNotices(archDir, listing[..|listing| - 1], parse, now) + (if s.Warned? then [s.notice] else [])
  }

  /** The scan keeps exactly the named entries whose name contains "log" and
      not ".DS_Store", each with its path in the archive directory and its
      parsed date (or "now"), and reports every name it drops for lacking "log". */
  lemma {:induction false} KeptFilesExactly(archDir: string, listing: seq<Listed>, parse: string -> Option<Clock>, now: Clock)
    ensures |KeptFiles(archDir, listing, parse, now)| <= |listing|
    ensures forall d :: d in KeptFiles(archDir, listing, parse, now) ==>
      Named(d.name) in listing && Eligible(d.name) &&
      d == DirFile(DateOf(d.name, parse, now), archDir + "/" + d.name, d.name)
    ensures forall n :: Named(n) in listing && Eligible(n) ==>
      DirFile(DateOf(n, parse, now), archDir + "/" + n, n) in KeptFiles(archDir, listing, parse, now)
    ensures forall n :: Named(n) in listing && !Contains(n, ".DS_Store") && !Contains(n, "log") ==>
      Incompatible(n) in ScanNotices(archDir, listing, parse, now)
  {
    if listing != [] {
      var init := listing[..|listing| - 1];
      var last := listing[|listing| - 1];
      KeptFilesExactly(archDir, init, parse, now);
      assert listing == init + [last];
      forall n | Named(n) in listing
        ensures Named(n) in init || Named(n) == last
      {
      }
    }
  }

  /** The first loop of `archive_log`: classify the listing, keeping entries
      and collecting notices. */
  method ScanArchives(archDir: string, listing: seq<Listed>, parse: string -> Option<Clock>, now: Clock)
    returns (files: seq<DirFile>, notices: seq<Notice>)
    ensures files == KeptFiles(archDir, listing, parse, now)
    ensures notices == ScanNotices(archDir, listing, parse, now)
  {
    files, notices := [], [];
    for i := 0 to |listing|
      invariant files == KeptFiles(archDir, listing[..i], parse, now)
      invariant notices == ScanNotices(archDir, listing[..i], parse, now)
    {
      assert listing[..i + 1][..i] == listing[..i];
      match listing[i] {
        case Unreadable =>
          notices := notices + [EntryUnreadable];
        case NotUnicode =>
          notices := notices + [NameNotUnicode];
        case Named(name) =>
          if Contains(name, ".DS_Store") {
          } else if !Contains(name, "log") {
            notices := notices + [Incompatible(name)];
          } else {
            var date := match parse(RemoveAll(name, "log ")) case Some(d) => d case None => now;
            files := files + [DirFile(date, archDir + "/" + name, name)];
          }
      }
    }
    assert listing[..|listing|] == listing;
  }

  // ------------------------------------------------------- the eviction

  /** Index `k` holds the oldest date, and no earlier index holds a date as old. */
  predicate IsOldest(files: seq<DirFile>, k: nat)
  {
    k < |files| &&
    (forall j :: 0 <= j < |files| ==> !Before(files[j].dateOfCreation, files[k].dateOfCreation)) &&
    (forall j :: 0 <= j < k ==> Before(files[k].dateOfCreation, files[j].dateOfCreation))
  }

  /** `find_oldest_file_date`. */
  method FindOldestFileDate(files: seq<DirFile>) returns (r: Option<nat>)
    ensures r.None? <==> files == []
    ensures r.Some? ==> IsOldest(files, r.value)
  {
    if files == [] {
      return None;
    }
    var oldestDate := files[0].dateOfCreation;
    var fileToRemove := 0;
    for i := 0 to |files|
      invariant fileToRemove < |files| && oldestDate == files[fileToRemove].dateOfCreation
      invariant fileToRemove <= i
      invariant forall j :: 0 <= j < i ==> !Before(files[j].dateOfCreation, oldestDate)
      invariant forall j :: 0 <= j < fileToRemove ==> Before(oldestDate, files[j].dateOfCreation)
    {
      var fileDate := files[i].dateOfCreation;
      if Before(fileDate, oldestDate) {
        forall j | 0 <= j < i
          ensures !Before(files[j].dateOfCreation, fileDate) && Before(fileDate, files[j].dateOfCreation)
        {
          BeforeStrictTotal(files[j].dateOfCreation, fileDate, oldestDate);
          BeforeStrictTotal(fileDate, oldestDate, files[j].dateOfCreation);
        }
        oldestDate := fileDate;
        fileToRemove := i;
      }
    }
    return Some(fileToRemove);
  }

  /** Two indices that both satisfy `IsOldest` are the same: ties go to the
      first, so the choice is determined by the listing order. */
  lemma OldestIsUnique(files: seq<DirFile>, a: nat, b: nat)
    requires IsOldest(files, a) && IsOldest(files, b)
    ensures a == b
  {
    assert !Before(files[b].dateOfCreation, files[a].dateOfCreation);
    assert !Before(files[a].dateOfCreation, files[b].dateOfCreation);
  }

  /** An entry dated "now" because its name did not parse is not the one
      evicted while an entry with an earlier date exists. */
  lemma FallbackNotPreferred(files: seq<DirFile>, k: nat, j: nat, i: nat, now: Clock)
    requires IsOldest(files, k)
    requires j < |files| && files[j].dateOfCreation == now
    requires i < |files| && Before(files[i].dateOfCreation, now)
    ensures k != j
  {
  }

  /** With the oldest archive's path and the current file's path both
      present and distinct, the prune step leaves one file fewer. */
  lemma {:induction false} PruneRemovesOne(files: map<string, Text>, oldest: string, current: string)
    requires oldest in files && current in files && oldest != current
    ensures |(files - {oldest})[current := []]| == |files| - 1
    ensures ((files - {oldest})[current := []]).Keys == files.Keys - {oldest}
  {
    var pruned := files - {oldest};
    assert pruned.Keys == files.Keys - {oldest};
    assert current in pruned;
    assert pruned[current := []].Keys == pruned.Keys;
  }

  // ---------------------------------------------------------- the copy

  /** How the copy loop ended: a zero-byte read, a read error, or the
      `buf_len > file_size` check. */
  datatype CopyExit = EndOfFile | ReadFailure | BufferExceedsFile

  /** The size the copy is planned for. */
  function FileSize(content: Text, metadataOk: bool): nat
  {
    if metadataOk then |content| else MAX_FILE_SIZE
  }

  /** Each buffer length after the first is half the one before, but at
      least 1, and no larger. */
  predicate Halving(bufLens: seq<nat>)
  {
    forall k :: 0 < k < |bufLens| ==> bufLens[k] == Max(1, bufLens[k - 1] / 2) && 1 <= bufLens[k] <= bufLens[k - 1]
  }

  /** The buffer lengths so far: starting at `first`, halving, and never
      above `bound`. */
  predicate Schedule(bufLens: seq<nat>, first: nat, bound: nat)
  {
    (bufLens != [] ==> bufLens[0] == first) && Halving(bufLens) &&
    forall k :: 0 <= k < |bufLens| ==> bufLens[k] <= bound
  }

  lemma ScheduleSnoc(bufLens: seq<nat>, next: nat, first: nat, bound: nat)
    requires Schedule(bufLens, first, bound) && next <= bound
    requires bufLens == [] ==> next == first
    requires bufLens != [] ==> bufLens[|bufLens| - 1] >= 1 && next == Max(1, bufLens[|bufLens| - 1] / 2)
    ensures Schedule(bufLens + [next], first, bound)
  {
  }

  /** The shrinking-buffer copy loop. `bufLens` lists the buffer length of
      each read in turn. */
  method CopyToArchive(content: Text, metadataOk: bool, reader: (nat, nat) -> ReadReply)
    returns (archive: Text, exit: CopyExit, bufLens: seq<nat>)
    requires ReadContract(reader, |content|)
    ensures archive <= content
    ensures exit != BufferExceedsFile
    ensures exit == EndOfFile && ZeroOnlyAtEnd(reader, |content|) ==> archive == content
    ensures NeverFails(reader) ==> exit == EndOfFile
    ensures |bufLens| >= 1 && bufLens[0] == Min(MB, FileSize(content, metadataOk))
    ensures Halving(bufLens)
    ensures forall k :: 0 <= k < |bufLens| ==> bufLens[k] <= FileSize(content, metadataOk)
  {
    var fileSize := FileSize(content, metadataOk);
    var bufLen := Min(MB, fileSize);
    var pos: nat := 0;
    archive, exit, bufLens := [], EndOfFile, [];
    while true
      invariant pos <= |content| && archive == content[..pos]
      invariant bufLen <= fileSize && (pos < |content| ==> bufLen >= 1)
      invariant bufLens == [] ==> bufLen == Min(MB, fileSize)
      invariant bufLens != [] ==> bufLens[|bufLens| - 1] >= 1 && bufLen == Max(1, bufLens[|bufLens| - 1] / 2)
      invariant Schedule(bufLens, Min(MB, fileSize), fileSize)
      decreases |content| - pos
    {
      ScheduleSnoc(bufLens, bufLen, Min(MB, fileSize), fileSize);
      bufLens := bufLens + [bufLen];
      match reader(pos, bufLen) {
        case ReadError =>
          exit := ReadFailure;
          break;
        case Read(n) =>
          archive := archive + content[pos..pos + n];
          pos := pos + n;
          if n == 0 {
            exit := EndOfFile;
            break;
          }
      }
      if bufLen > fileSize {
        exit := BufferExceedsFile;
        break;
      }
      bufLen := Max(1, bufLen / 2);
    }
  }

  // ------------------------------------------------------ archive_log

  /** The directory the new archive is created in, whatever the sink's
      directory and archive directory are. */
  const ARCHIVE_DIR := "logs/archives"

  /** The panic of `File::create` on the new archive's path. */
  const ARCHIVE_CREATE_FAILED := "FS Error: Failed To Create New Archive Log File"

  /** What a rotation did. `Pruned(k, removed)`: over the ceiling, entry `k`
      was chosen and its deletion succeeded or not. `Copied`: the old current
      file was copied into a new archive. `NoOldFile`: under the ceiling with
      no current file to copy. `ArchiveCreateFailed`: the new archive could
      not be created because `logs/archives` is not a directory, and the
      rotation panicked. */
  datatype Rotation =
    | Pruned(oldest: nat, removed: bool)
    | Copied(archivePath: string, archive: Text, exit: CopyExit)
    | NoOldFile
    | ArchiveCreateFailed

  /** The notice of the prune step. */
  function PruneNotices(k: nat, removed: bool, kept: seq<DirFile>): seq<Notice>
  {
    if !removed then [RemoveFailed] else if k < |kept| then [OldestRemoved(kept[k].name)] else []
  }

  /** The notices around the copy loop. */
  function CopyNotices(exit: CopyExit, size: nat, metadataOk: bool): seq<Notice>
  {
    (if metadataOk then [] else [MetadataFailed(MAX_FILE_SIZE)]) + [PreparingCopy(size)] +
    (match exit case EndOfFile => [AllBytesRead(size)] case ReadFailure => [ReadFailed] case BufferExceedsFile => [])
  }

  /** The notices of the step after the scan. */
  function RotationNotices(rotation: Rotation, kept: seq<DirFile>, size: nat, metadataOk: bool): seq<Notice>
  {
    match rotation
    case Pruned(k, removed) => PruneNotices(k, removed, kept)
    case NoOldFile => []
    case ArchiveCreateFailed => []
    case Copied(_, _, exit) => CopyNotices(exit, size, metadataOk)
  }

  /** The prune step of `archive_log`: find the oldest kept entry and try to
      delete it. The deletion fails when the file is no longer on disk, or
      when the operating system refuses it (`removeOk` false). */
  method PruneOldest(files: map<string, Text>, kept: seq<DirFile>, removeOk: bool)
    returns (remaining: map<string, Text>, k: nat, removed: bool, notices: seq<Notice>)
    requires kept != []
    ensures IsOldest(kept, k)
    ensures removed == (removeOk && kept[k].path in files)
    ensures remaining == if removed then files - {kept[k].path} else files
    ensures notices == PruneNotices(k, removed, kept)
  {
    var oldest := FindOldestFileDate(kept);
    k := oldest.value;
    if removeOk && kept[k].path in files {
      remaining, removed, notices := files - {kept[k].path}, true, [OldestRemoved(kept[k].name)];
    } else {
      remaining, removed, notices := files, false, [RemoveFailed];
    }
  }

  /** The copy step of `archive_log`: the notices around the copy loop. */
  method CopyForward(content: Text, env: Env) returns (archive: Text, exit: CopyExit, notices: seq<Notice>)
    requires ReadContract(env.reader, |content|)
    ensures archive <= content && exit != BufferExceedsFile
    ensures exit == EndOfFile && ZeroOnlyAtEnd(env.reader, |content|) ==> archive == content
    ensures NeverFails(env.reader) ==> exit == EndOfFile
    ensures notices == CopyNotices(exit, FileSize(content, env.metadataOk), env.metadataOk)
  {
    var fileSize := FileSize(content, env.metadataOk);
    notices := [];
    if !env.metadataOk {
      notices := notices + [MetadataFailed(MAX_FILE_SIZE)];
    }
    notices := notices + [PreparingCopy(fileSize)];
    var bufLens;
    archive, exit, bufLens := CopyToArchive(content, env.metadataOk, env.reader);
    match exit {
      case EndOfFile => notices := notices + [AllBytesRead(fileSize)];
      case ReadFailure => notices := notices + [ReadFailed];
      case BufferExceedsFile =>
    }
  }

  /** The entries a rotation keeps from the archive directory's listing. */
  function KeptIn(dir: string, archDir: string, env: Env): seq<DirFile>
  {
    KeptFiles(FilePath(dir, archDir), env.listing, env.parse, env.now)
  }

  /** The size the copy of the old current file is planned for (0 if there is none). */
  function PlannedSize(files: map<string, Text>, filePath: string, metadataOk: bool): nat
  {
    if filePath in files then FileSize(files[filePath], metadataOk) else 0
  }

  /** What `archive_log` promises: from `disk`, the rotation of `dir/logFile`
      with archives in `dir/archDir` leaves `disk'`, did `rotation` and gave
      `notices`. */
  ghost predicate Rotated(disk: Disk, logFile: string, dir: string, archDir: string, env: Env,
                          disk': Disk, rotation: Rotation, notices: seq<Notice>)
  {
    var filePath, kept := FilePath(dir, logFile), KeptIn(dir, archDir, env);
    // Both directories exist afterwards.
    disk'.dirs == disk.dirs + {dir, FilePath(dir, archDir)} &&
    // Over the ceiling: the oldest kept entry is deleted if it can be, nothing is archived.
    (rotation.Pruned? <==> |kept| > MAX_ARCHIVES) &&
    (rotation.Pruned? ==>
      IsOldest(kept, rotation.oldest) &&
      rotation.removed == (env.removeOk && kept[rotation.oldest].path in disk.files) &&
      disk'.files == (if rotation.removed then disk.files - {kept[rotation.oldest].path} else disk.files)[filePath := []]) &&
    // Under the ceiling without an old current file: nothing to archive.
    (rotation.NoOldFile? <==> |kept| <= MAX_ARCHIVES && filePath !in disk.files) &&
    (rotation.NoOldFile? ==> disk'.files == disk.files[filePath := []]) &&
    // Under the ceiling with an old current file: the archive cannot be created outside `logs/archives`.
    (rotation.ArchiveCreateFailed? <==> |kept| <= MAX_ARCHIVES && filePath in disk.files && ARCHIVE_DIR !in disk'.dirs) &&
    (rotation.ArchiveCreateFailed? ==> disk'.files == disk.files) &&
    // Otherwise the old current file is copied into a new archive.
    (rotation.Copied? ==>
      filePath in disk.files && ARCHIVE_DIR in disk'.dirs && rotation.archivePath == ArchivePath(env.now) &&
      rotation.archive <= disk.files[filePath] && rotation.exit != BufferExceedsFile &&
      disk'.files == disk.files[ArchivePath(env.now) := rotation.archive][filePath := []] &&
      (rotation.exit == EndOfFile && ZeroOnlyAtEnd(env.reader, |disk.files[filePath]|) ==> rotation.archive == disk.files[filePath]) &&
      (NeverFails(env.reader) ==> rotation.exit == EndOfFile)) &&
    // The notices, in the order the source logs them.
    notices == [CheckingLogsDir, CheckingArchiveDir] + ScanNotices(FilePath(dir, archDir), env.listing, env.parse, env.now)
               + RotationNotices(rotation, kept, PlannedSize(disk.files, filePath, env.metadataOk), env.metadataOk)
  }

  /** `archive_log`, from the directory checks to the creation of the new,
      empty current file. */
  method ArchiveLog(disk: Disk, logFile: string, dir: string, archDir: string, env: Env)
    returns (disk': Disk, rotation: Rotation, notices: seq<Notice>)
    requires FilePath(dir, logFile) in disk.files ==> ReadContract(env.reader, |disk.files[FilePath(dir, logFile)]|)
    ensures Rotated(disk, logFile, dir, archDir, env, disk', rotation, notices)
    ensures !rotation.ArchiveCreateFailed? ==> FilePath(dir, logFile) in disk'.files && disk'.files[FilePath(dir, logFile)] == []
  {
    var filePath := FilePath(dir, logFile);
    var archPath := FilePath(dir, archDir);
    var dirs := disk.dirs;
    if dir !in dirs {
      dirs := dirs + {dir};
    }
    if archPath !in dirs {
      dirs := dirs + {archPath};
    }
    assert dirs == disk.dirs + {dir, archPath};

    var files, scanNotices := ScanArchives(archPath, env.listing, env.parse, env.now);
    var files', tail;
    if |files| > MAX_ARCHIVES {
      var remaining, k, removed;
      remaining, k, removed, tail := PruneOldest(disk.files, files, env.removeOk);
      rotation := Pruned(k, removed);
      files' := remaining[filePath := []];
    } else {
      files', rotation, tail := CopyOrCreate(disk.files, dirs, filePath, env);
    }
    assert tail == RotationNotices(rotation, files, PlannedSize(disk.files, filePath, env.metadataOk), env.metadataOk);
    notices := [CheckingLogsDir, CheckingArchiveDir] + scanNotices + tail;
    disk' := Disk(dirs, files');
  }

  /** The step of `archive_log` under the ceiling: copy the old current file,
      if there is one, into a new archive in `logs/archives` (a panic when
      that is not one of `dirs`); then create the empty current file. */
  method CopyOrCreate(files: map<string, Text>, dirs: set<string>, filePath: string, env: Env)
    returns (files': map<string, Text>, rotation: Rotation, notices: seq<Notice>)
    requires filePath in files ==> ReadContract(env.reader, |files[filePath]|)
    ensures !rotation.Pruned?
    ensures rotation.NoOldFile? <==> filePath !in files
    ensures rotation.NoOldFile? ==> files' == files[filePath := []]
    ensures rotation.ArchiveCreateFailed? <==> filePath in files && ARCHIVE_DIR !in dirs
    ensures rotation.ArchiveCreateFailed? ==> files' == files
    ensures rotation.Copied? ==>
      ARCHIVE_DIR in dirs && rotation.archivePath == ArchivePath(env.now) &&
      rotation.archive <= files[filePath] && rotation.exit != BufferExceedsFile &&
      files' == files[ArchivePath(env.now) := rotation.archive][filePath := []]
    ensures rotation.Copied? && rotation.exit == EndOfFile && ZeroOnlyAtEnd(env.reader, |files[filePath]|) ==>
      rotation.archive == files[filePath]
    ensures rotation.Copied? && NeverFails(env.reader) ==> rotation.exit == EndOfFile
    ensures !rotation.ArchiveCreateFailed? ==> filePath in files' && files'[filePath] == []
    ensures notices == RotationNotices(rotation, [], PlannedSize(files, filePath, env.metadataOk), env.metadataOk)
  {
    if filePath !in files {
      rotation, notices := NoOldFile, [];
      files' := files[filePath := []];
    } else if ARCHIVE_DIR !in dirs {
      rotation, notices, files' := ArchiveCreateFailed, [], files;
    } else {
      var archivePath := ArchivePath(env.now);
      var archive, exit, copyNotices := CopyForward(files[filePath], env);
      notices := copyNotices;
      rotation := Copied(archivePath, archive, exit);
      files' := files[archivePath := archive][filePath := []];
    }
  }

  /** When the delete succeeds and the current file existed (at another path),
      a rotation over the ceiling leaves exactly one file fewer. When the
      delete fails, the number of files is unchanged. */
  lemma PruneCount(disk: Disk, logFile: string, dir: string, archDir: string, env: Env,
                   disk': Disk, rotation: Rotation, notices: seq<Notice>)
    requires Rotated(disk, logFile, dir, archDir, env, disk', rotation, notices)
    requires rotation.Pruned? && FilePath(dir, logFile) in disk.files
    ensures rotation.removed && KeptIn(dir, archDir, env)[rotation.oldest].path != FilePath(dir, logFile) ==>
      |disk'.files| == |disk.files| - 1
    ensures !rotation.removed ==> |disk'.files| == |disk.files| && disk'.files.Keys == disk.files.Keys
  {
    var oldest := KeptIn(dir, archDir, env)[rotation.oldest].path;
    if rotation.removed && oldest != FilePath(dir, logFile) {
      PruneRemovesOne(disk.files, oldest, FilePath(dir, logFile));
    }
    if !rotation.removed {
      assert disk'.files.Keys == disk.files.Keys;
    }
  }

  // -------------------------------------------------------- the sink

  /** `LogioFile`. `curr` is `curr_file`: `None` when no file is open, else the
      bytes written to the open file since it was opened. */
  class LogioFile {
    var curr: Option<Text>
    var dir: string
    var archive: ArchiveType

    /** `LogioFile::default()`. */
    constructor Default()
      ensures curr == None && dir == "" && archive == NoArchive
    {
      curr := None;
      dir := "";
      archive := NoArchive;
    }

    /** A sink around a freshly opened, empty file. */
    constructor Opened(dir: string, archive: ArchiveType)
      ensures curr == Some([]) && this.dir == dir && this.archive == archive
    {
      curr := Some([]);
      this.dir := dir;
      this.archive := archive;
    }

    /** `LogioFile::new`. Without archiving, the file named `logFile` itself
        (not one inside `dir`) is opened, truncated, and must already exist;
        with archiving, `archive_log` rotates and creates `dir/logFile`, and
        its panic on the new archive ends `new` too. */
    static method New(logFile: string, dir: string, archive: ArchiveType, disk: Disk, env: Env)
      returns (r: Outcome, f: LogioFile?, disk': Disk, rotation: Option<Rotation>, notices: seq<Notice>)
      requires archive.Archive? && FilePath(dir, logFile) in disk.files ==>
        ReadContract(env.reader, |disk.files[FilePath(dir, logFile)]|)
      ensures r.Ok? <==> f != null
      ensures f != null ==> fresh(f) && f.curr == Some([]) && f.dir == dir && f.archive == archive
      ensures archive.NoArchive? ==> rotation == None && notices == []
      ensures archive.NoArchive? && logFile !in disk.files ==>
        r == Panic("Failed to open new log file") && disk' == disk
      ensures archive.NoArchive? && logFile in disk.files ==>
        r == Ok && disk' == Disk(disk.dirs, disk.files[logFile := []])
      ensures archive.Archive? ==>
        rotation.Some? && Rotated(disk, logFile, dir, archive.archiveDir, env, disk', rotation.value, notices)
      ensures archive.Archive? && rotation.Some? && rotation.value.ArchiveCreateFailed? ==>
        r == Panic(ARCHIVE_CREATE_FAILED)
      ensures archive.Archive? && rotation.Some? && !rotation.value.ArchiveCreateFailed? ==>
        r == Ok && FilePath(dir, logFile) in disk'.files && disk'.files[FilePath(dir, logFile)] == []
    {
      notices, rotation := [], None;
      match archive {
        case NoArchive =>
          if logFile !in disk.files {
            r, f, disk' := Panic("Failed to open new log file"), null, disk;
            return;
          }
          disk' := Disk(disk.dirs, disk.files[logFile := []]);
        case Archive(archDir) =>
          var rotated;
          disk', rotated, notices := ArchiveLog(disk, logFile, dir, archDir, env);
          rotation := Some(rotated);
          if rotated.ArchiveCreateFailed? {
            r, f := Panic(ARCHIVE_CREATE_FAILED), null;
            return;
          }
      }
      f := new LogioFile.Opened(dir, archive);
      r := Ok;
    }

    /** `write_all`: appends `buf`; panics when no file is open. */
    method WriteAll(buf: Text) returns (r: Outcome)
      modifies this`curr
      ensures old(curr).None? ==> r == Panic("file should be initilized") && curr == None
      ensures old(curr).Some? ==> r == Ok && curr == Some(old(curr).value + buf)
    {
      match curr {
        case Some(content) =>
          curr := Some(content + buf);
          r := Ok;
        case None =>
          r := Panic("file should be initilized");
      }
    }

    /** `flush`: changes no content; panics when no file is open. */
    method Flush() returns (r: Outcome)
      ensures r.Ok? <==> curr.Some?
      ensures r.Panic? ==> r.message == "file should be initilized"
    {
      match curr {
        case Some(_) => r := Ok;
        case None => r := Panic("file should be initilized");
      }
    }
  }
}
