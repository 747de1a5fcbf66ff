# logio in Dafny

A model of the core of `logio`, a small Rust logging crate, with its
properties proved. A supervisor thread runs a loop with two jobs. It keeps a
registry of worker threads, one per named input stream, and each worker
copies its stream line by line into a shared log file. It also moves
messages from a process-wide slot into that file: the crate's own log calls
(`info!`, `warn!`, `err!` through `with_logger`) merge text into the slot.
`kill` sets a process-wide flag and waits. On its next pass the supervisor
writes a closing line and ends.

The sink (`LogioFile`) can rotate the old log into an archive directory when
it is created. It scans the directory and keeps entries whose name contains
`log`. Above 15 kept entries it deletes the oldest one. Otherwise it copies
the old current file into a new archive named after the current minute,
using a shrinking buffer. In both cases it then creates an empty current
file.

Modules, in import order:

| module | file | models |
|---|---|---|
| `Wrappers` | `wrappers.dfy` | `Option`, and `Outcome` (`Ok` or a panic with its message) |
| `Strings` | `strings.dfy` | the `str` operations the crate uses: `contains`, `replace(pat, "")`, `lines`, `collect::<String>()` |
| `Lib` | `lib.dfy` | `NewInternalLog`, `LogBuffer`, `ThreadChannel`, and the statics `INTERNAL_WRITER` and `KILLED` (class `Shared`) |
| `Utils` | `utils.dfy` | `LogType::prefix`, `log_time`, `convert_log`, `with_logger` |
| `LogFile` | `file.dfy` | `LogioFile`, `archive_log`, `find_oldest_file_date`, `write_all`, `flush` |
| `Logger` | `logger.dfy` | `Logger`: the supervisor loop, the worker loop, and the senders |
| `Lifecycle` | `lifecycle.dfy` | the static `LOGGER` with `init` and `kill`, and the free function `new_input_bufs` |

`lib.rs` is split over `Lib` and `Lifecycle`. Dafny modules cannot import
each other in a cycle, and `kill` and `init` need the `Logger` class, which
itself uses `NewInternalLog`.

How the environment is represented:
- A panic is a result value such as `Outcome.Panic(msg)`, `StepResult.Crashed(msg)` or `WorkerResult.Panicked(msg)`. It carries the crate's own message.
- The filesystem is a value `Disk(dirs, files)`.
- What the operating system decides during a rotation is an `Env` parameter. That covers the listing of the archive directory (order included), whether `remove_file` and `metadata` succeed, how many bytes each `read` returns, `NaiveDateTime::parse_from_str`, and `Local::now()`.
- The clock is a parameter `clock: nat -> Clock`, where `clock(k)` is what the `k`-th `log_time` call of one `convert_log` reads.
- The current thread's name is an `Option<string>` parameter.
- A source stream is the sequence of results its `read_line` calls return.
- One pass of the supervisor's loop is one call of `Logger.Logger.Step`. The channel is the queue of messages sent but not yet received.

Where a reader might expect otherwise, the model follows the code:
- `ThreadChannel::Clear` is ignored by the supervisor, so the registry keeps its workers.
- A worker does not stop at the end of its stream. An end-of-stream read is `Ok` with an empty text and the loop goes on. Only a read error closes the worker.
- `convert_log` joins its per-line pieces with no separator, so a message of several lines becomes one line.
- The new archive's path is hard-coded as `logs/archives/log <stamp>`, whatever the sink's directory and archive directory are. When `logs/archives` is not a directory after the directory checks, creating the archive panics, and so does `LogioFile::new`. Directories and files are known by the spelling of their paths (see "## Left out").
- Above 15 archives, at most one archive is deleted. None is deleted when `remove_file` fails. The old current file is then truncated without being archived.
- Without archiving, `LogioFile::new` opens the file name itself, not `dir/name`, and the file must already exist.
- `kill` sets the flag before it logs its message, and panics on a missing logger only after both. A supervisor pass that runs between the two is its last, so the kill message can stay in the slot and never reach the sink.
- The supervisor resets the slot before it writes the drained text to the sink.
- The supervisor's closing line has no line break. The lines of `with_logger` have one.

## Model

| member | source | states |
|---|---|---|
| `Lib.DefaultLog` | src/lib.rs:19-24 | the default slot holds nothing new and nothing pending |
| `Lib.NewInternalLog.Reset` | src/lib.rs:33-35 | after `reset` the slot is not new |
| `Lib.NewInternalLog.IsNew` | src/lib.rs:27-32 | `is_new` holds exactly of the `New(t)` values |
| `Lib.ResetIdempotent` | src/lib.rs:33-35 | resetting twice is resetting once, and a reset slot has no pending text |
| `Lib.Shared.constructor` | src/lib.rs:16-17 | program start: the slot is `None` and `KILLED` is false |
| `Strings.ContainsIff` | src/file.rs:91-93 | the left-to-right search of `contains` succeeds exactly when the pattern occurs at some index |
| `Strings.RemoveLeading` | src/file.rs:98 | `replace("log ", "")` applied to `"log " + s`, where `s` does not contain the pattern, gives `s` |
| `Strings.LinesOfTerminated` | src/utils.rs:52-53 | `lines` splits a text of terminated lines back into those lines when none holds a `'\n'` or ends in `'\r'` |
| `Utils.Prefix` | src/utils.rs:34-42 | each prefix can be parsed back into its thread name (or `unamed`) and its severity, for any name |
| `Utils.BeforeStrictTotal` | src/file.rs:196 | the date order used by the `<` comparison is irreflexive, transitive and total |
| `Utils.LogTime` | src/utils.rs:45-48 | `log_time` never holds a line break; of a valid clock it is 20 characters wide, and month, day, two-digit year, hour, minute and second can be read back from it |
| `Utils.ConvertLog` | src/utils.rs:50-57 | a message with no lines formats to the empty text |
| `Utils.ConvertLogPieces` | src/utils.rs:50-57 | the output is the concatenation of one piece per line, in order; piece `k` is the `k`-th time text, the prefix, a space and line `k` |
| `Utils.ConvertLogSingleLine` | src/utils.rs:50-57 | a non-empty message with no `'\n'` becomes exactly time text, prefix, space and message |
| `Utils.ConvertLogOneLine` | src/utils.rs:52-56 | for a thread name with no `'\n'`, the output holds no line break, whatever the message |
| `Utils.ConvertLogLine` | src/utils.rs:50-57 | a non-empty message with no `'\n'`, under a name with none, is exactly time text, prefix, space and message, and holds no line break |
| `Utils.ConvertLogTerminated` | src/utils.rs:50-57 | such a message followed by a line break is time text, prefix, space, message and break; under a name with no `'\n'` that break is the first one |
| `Utils.Merge` | src/utils.rs:11-17 | after a merge the slot is new and holds the earlier pending text followed by the new text |
| `Utils.MergeAllKeepsEverything` | src/utils.rs:7-19 | after any sequence of merges the slot holds the earlier pending text and then every merged text, each once, in order |
| `Utils.WithLogger` | src/utils.rs:7-19 | the slot becomes the old slot merged with the formatted message and a line break |
| `LogFile.ArchivePath` | src/file.rs:133-134 | the new archive lies directly in `logs/archives`, and its name is one the scan keeps and from which it hands the parser the archive's timestamp |
| `LogFile.ArchiveNamesStamp` | src/file.rs:98 | whichever time a name was an archive's name for, removing `"log "` from it leaves that time's stamp |
| `LogFile.DateOf` | src/file.rs:97-103 | the date is the parse of the name without `"log "` whenever that parse succeeds, and "now" exactly when it fails; for an archive's name, it is the parse of that archive's timestamp, or "now" when that fails |
| `LogFile.Classify` | src/file.rs:89-108 | an entry is kept exactly when it is named and eligible, as `archDir/name` dated by `DateOf`; it is skipped silently exactly when its name contains `.DS_Store`; every other entry gives a warning or an error, a name without `log` the incompatible-file warning |
| `LogFile.ArchiveNameStamp` | src/file.rs:133-134 | removing `"log "` from a new archive's name leaves exactly its `%m-%d-%y %H:%M` stamp, and a later scan keeps that name |
| `LogFile.KeptFilesExactly` | src/file.rs:87-114 | the scan keeps exactly the named entries containing `log` and not `.DS_Store`, each with its path and its parsed (or current) date, and warns about every name without `log` |
| `LogFile.ScanArchives` | src/file.rs:85-114 | the scan loop yields the kept entries and the notices of the listing, in listing order |
| `LogFile.FindOldestFileDate` | src/file.rs:187-202 | `None` exactly for no entries; otherwise an index whose date no entry precedes, and which precedes every entry before it (ties go to the first) |
| `LogFile.OldestIsUnique` | src/file.rs:194-200 | the index chosen as oldest is unique |
| `LogFile.FallbackNotPreferred` | src/file.rs:97-103 | an entry dated "now" because its name did not parse is not evicted while an entry dated earlier than now exists |
| `LogFile.PruneRemovesOne` | src/file.rs:116-131 | deleting the oldest archive and recreating the current file leaves one file fewer and exactly the other paths |
| `LogFile.PruneOldest` | src/file.rs:116-129 | the oldest kept entry is chosen; it is deleted exactly when it is still on disk and the operating system allows it, and the matching notice is given |
| `LogFile.PruneCount` | src/file.rs:116-131 | over the ceiling, a successful delete leaves exactly one file fewer on disk when the current file existed at another path; a failed delete leaves the same files |
| `LogFile.CopyToArchive` | src/file.rs:157-183 | the archive is a prefix of the old file, and all of it when the loop ends with a zero-byte read and reads return 0 only at the end; the buffer starts at `min(MB, size)` and halves down to at least 1; the `buf_len > file_size` exit is never taken; without read errors the loop ends at end of file |
| `LogFile.CopyForward` | src/file.rs:137-184 | the copy's archive and exit as above, with the metadata, preparing and end-of-copy notices |
| `LogFile.CopyOrCreate` | src/file.rs:133-185 | under the ceiling: with an old current file, a new archive under `logs/archives/` holds the copied bytes, or the rotation panics with files unchanged when `logs/archives` is not a directory; without one, nothing is archived; unless it panicked, the current file is then empty |
| `LogFile.ArchiveLog` | src/file.rs:66-186 | `Rotated`: both directories exist afterwards; above 15 kept entries the oldest is deleted if it is still on disk and may be, and nothing is archived; otherwise the old file is copied into a new archive, or the rotation panics without touching a file when `logs/archives` is not a directory; unless it panicked, the current file is empty; the notices come in the source's order |
| `LogFile.LogioFile.Default` | src/file.rs:41-46 | the default sink holds no file |
| `LogFile.LogioFile.Opened` | src/file.rs:60-64 | a sink around a freshly opened, empty file |
| `LogFile.LogioFile.New` | src/file.rs:49-65 | without archiving it truncates the named file, or panics when that file is missing; with archiving it returns the rotation, which satisfies `Rotated`, and opens an empty `dir/name`, or panics when the new archive cannot be created |
| `LogFile.LogioFile.WriteAll` | src/file.rs:203-212 | appends the bytes to the open file; panics with "file should be initilized" when none is open |
| `LogFile.LogioFile.Flush` | src/file.rs:213-222 | succeeds exactly when a file is open, and panics with the same message otherwise |
| `Logger.RegisteredKeys` | src/logger.rs:73-79 | registering a batch adds exactly the batch's names as keys |
| `Logger.RegisteredLastWins` | src/logger.rs:47-80 | every name of a batch ends up bound to the last buffer of the batch with that name |
| `Logger.RegisteredKeepsOthers` | src/logger.rs:73-79 | workers whose name is not in the batch stay registered, unchanged |
| `Logger.ClosingLine` | src/logger.rs:92 | the closing line is one time text, the `main_logger_thread` INFO prefix, a space and "Closing main logger thread", and holds no line break |
| `Logger.ClosingThread` | src/logger.rs:65 | a closing worker's line is one time text, its INFO prefix under the worker's name, a space, "Closing thread" and a line break, the first one when the name has none |
| `Logger.ClearKeepsPool` | src/logger.rs:45 | a `Clear` message leaves the registry unchanged |
| `Logger.LoopsUntilKilled` | src/logger.rs:84-100 | without the kill flag a pass never exits; it continues exactly when the sink is open or the slot holds nothing new |
| `Logger.DrainPrecedesClosing` | src/logger.rs:84-97 | with the flag set on an open sink, the pass exits, and the sink holds the old content, then the drained text, then the closing line |
| `Logger.DrainAppendsPending` | src/logger.rs:86-90 | a `New(log)` slot appends `log` to the sink, and an empty slot appends nothing |
| `Logger.DrainBeforeLogFilePanics` | src/logger.rs:84-90 | a pass that finds text in the slot while the sink holds no file panics with "file should be initilized" |
| `Logger.MergedTextsReachSink` | src/logger.rs:84-90 | texts merged between two passes reach an open sink whole, once each and in merge order |
| `Logger.TextsAreReads` | src/logger.rs:53-63 | before any read error, every read's text is written in order, including the empty end-of-stream reads |
| `Logger.TextsStopAtError` | src/logger.rs:64-67 | nothing read at or after the first read error is written |
| `Logger.WorkerOutcomeSpec` | src/logger.rs:53-68 | on an open sink a worker closes exactly when a read fails and never panics; on an unopened sink it panics exactly when its first read succeeds |
| `Logger.WorkerStep` | src/logger.rs:54-67 | an `Ok` read appends its text or panics on an unopened sink; a read error logs "Closing thread" into the slot and closes the worker |
| `Logger.RunWorker` | src/logger.rs:53-69 | the worker's outcome is `WorkerOutcome`; the sink gains exactly the texts read before the first error; the slot gains the closing message exactly when the worker closes |
| `Logger.Logger.constructor` | src/logger.rs:33-41 | a new logger has an empty registry and channel, and the default sink, which holds no file |
| `Logger.Logger.InputBuf` | src/logger.rs:110-115 | sends a one-buffer batch; panics once the supervisor has ended |
| `Logger.Logger.NewInputBufs` | src/logger.rs:117-121 | sends the batch; panics once the supervisor has ended |
| `Logger.Logger.ClearBufPool` | src/logger.rs:128-132 | sends `Clear`; panics once the supervisor has ended |
| `Logger.Logger.LogFile` | src/logger.rs:123-126 | the shared sink is replaced by the given one |
| `Logger.Logger.IsFinished` | src/logger.rs:134-136 | reports whether the supervisor has ended |
| `Logger.Logger.Register` | src/logger.rs:47-80 | the registry becomes `Registered(old registry, batch)` |
| `Logger.Logger.Receive` | src/logger.rs:43-83 | the head message, if any, is taken off the channel; `NewBufs` registers its batch and `Clear` does nothing |
| `Logger.Logger.Drain` | src/logger.rs:84-99 | the slot is empty afterwards; the sink gains the pending text, then the closing line if the flag is set; the pass ends as `StepOutcome` says, and a pass that does not continue ends the thread |
| `Logger.Logger.Step` | src/logger.rs:42-100 | one pass: receive, then drain; the thread has ended exactly when the pass did not continue |
| `Lifecycle.KillLine` | src/lib.rs:66 | the kill line is one time text, the caller's INFO prefix, a space, "Sent kill to logger thread" and a line break, the first one when the caller's name has none |
| `Lifecycle.LogKill` | src/lib.rs:66 | the kill line is merged into the slot |
| `Lifecycle.KillFlushesPending` | src/lib.rs:64-70 | when the supervisor's last pass comes after the kill message, an open sink ends with the old content, everything pending, the kill message and the closing line, in that order, and the supervisor exits |
| `Lifecycle.KillMessageCanBeLost` | src/lib.rs:65-66 | when the last pass comes between the flag and the kill message, the sink gets the pending text and the closing line but not the message, which stays in the slot; the two schedules give different sinks |
| `Lifecycle.PassBeforeLog` | src/lib.rs:65-66 | in that schedule the supervisor ends, the sink is `ContentAfter` the pass, and the slot holds exactly the kill message |
| `Lifecycle.KillOnUnopenedSinkPanics` | src/lib.rs:64-70 | a supervisor whose sink holds no file panics on its last pass after `kill`, whatever the slot holds, so under either schedule |
| `Lifecycle.Wait` | src/lib.rs:67-70 | the wait ends with the supervisor ended; if it was running, it made exactly one more pass, with the flag set |
| `Lifecycle.KillInstalled` | src/lib.rs:65-70 | with a logger installed and the flag set: the supervisor ends; if it had ended already, only the kill line is merged; otherwise the last pass comes after the kill line (pending text, kill line and closing line reach the sink) or before it (the kill line stays in the slot) |
| `Lifecycle.Context.constructor` | src/lib.rs:15-17 | no logger installed, an empty slot, the flag clear |
| `Lifecycle.Context.Init` | src/lib.rs:76-81 | installs the logger the first time; panics with "Logger cannot be set more than once" afterwards and keeps the first |
| `Lifecycle.Context.Kill` | src/lib.rs:64-74 | sets the flag and logs the kill message; without a logger it panics; otherwise it returns once the supervisor has ended, the sink's directory and archive setting unchanged; if the last pass came after the message, the pending text, the message and the closing line are written in order; if it came before, the message is left in the slot |
| `Lifecycle.Context.NewInputBufs` | src/utils.rs:21-25 | without a logger it panics with "No logger initialized"; otherwise it sends `Clear` then the batch, or panics once the supervisor has ended |

## Left out

- Threads, the channel's timing and the mutexes are not modelled. `recv_timeout` takes the channel's head when there is one. A pass is atomic, and a worker runs as one call of `RunWorker`.
- The interleaving of workers and supervisor is not modelled. A worker's writes are applied to the sink directly, through the same `LogioFile` object. Of the schedules of `kill` against the supervisor, the model covers the two that decide the sink: the last pass before or after the kill message is merged.
- Mutex poisoning is not modelled. After a panic the thread simply ends.
- `print!` and `println!` to standard output are not modelled: they do not affect any state the model keeps.
- The `expect` panics of `create_dir`, `read_dir`, `File::create` (except on a missing `logs/archives`, which is modelled), the archive's `write_all`, thread spawning, and the sink's own `write_all`/`flush` on an open file are not modelled. These calls are taken to succeed.
- `NaiveDateTime::parse_from_str` is an abstract parameter. `Local::now()` is a parameter of each operation.
- UTF-8 is not modelled: one character stands for one byte.
- `log_file` replaces the sink field by field inside the shared object, so the object's identity is not modelled.
- The join handles and buffered readers inside `LoggerThread` are not kept. A registry entry is the worker's stream.
- `LogFile.ArchiveLog`: the `info!`, `warn!` and `err!` calls made during a rotation are returned as a list of notices rather than merged into the slot. Their severities are given by `Severity`.
- `LogFile.ArchiveLog` does not model the case where the hard-coded archive path names the current file itself.
- `LogFile.ArchiveLog`: a directory is known by the spelling of its path, with no normalisation. A `dir` spelled other than `logs` (such as `./logs` or `logs/`) therefore counts as a different directory from the hard-coded `logs/archives`. The rotation then reports `ArchiveCreateFailed` even where the operating system would open the directory just created and copy the file.
- `LogFile.CopyOrCreate`: for the same reason, the archive-creation panic is decided by whether the exact string `logs/archives` is among the directories, not by whether the path names an existing directory.
- `LogFile.LogioFile.New`: inherits this. With a `dir` spelled, say, `./logs`, it returns `Panic("FS Error: Failed To Create New Archive Log File")` where the source would archive the old file.
- `Lifecycle.Wait`: the 250 ms sleeps are not modelled; each poll of `is_finished` is one supervisor pass.
- `src/macros.rs` is not part of this model. Its macros are calls of `Utils.WithLogger` with the matching `LogType`.
- The `Name`, `Directory` and `FileName` newtypes are plain strings.
- The nanoseconds of a date take part in the date order only. The archive stamp and `log_time` print at most seconds.
