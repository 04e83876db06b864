# tf: a `tail -F` follower with an idle separator, modelled in Dafny

`tf` follows a set of files the way `tail -F` does. It starts at the end of
each file. It prints every line appended afterwards. It survives rotation by
reopening a file when its name is created or renamed into place. It can start
following a name before the file exists. After a quiet period it prints one
row of forty dashes.

The program is concurrent. Two fsnotify wrappers feed two channels, one
goroutine dispatches the notifications to the Tailer, and another goroutine
prints lines and separators. This model makes it sequential:

- `fs.dfy` (module `FileSystem`): the part of the operating system the Tailer
  relies on, as values.
  - Names point at inodes, and an inode holds the lines of one file.
  - `Open` stands for `os.Open`. It fails for a missing or unreadable name.
  - An inode can refuse `Seek`, as a pipe does.
  - A handle reads its inode live, so after a rotation an old handle still
    sees the old file.
  - `Parent` is `filepath.Dir` without its cleaning step.
- `watchers.dfy` (module `Watchers`): the filtering rule of the two fsnotify
  wrappers.
  - A Write event becomes an `Updated` notification.
  - A Create or Rename event becomes a `Created` notification.
- `tailer.dfy` (module `Tailing`): the `Tailer` as a class.
  - Its fields are the three tables of tf.go: `watchingFile`, `watchingDir` and
    `watchedFiles`.
  - `handles` is the descriptor table of every handle the process opened, with
    a cursor and a closed flag on each.
  - `fileRegistrations` and `dirRegistrations` record the calls made to the
    watchers' `Add`.
  - Each dispatch step takes the file system as it stands when the step runs.
  - The lines a step sends on the activity channel are its `emitted` result.
- `output.dfy` (module `Output`): the printing loop of `Tailer.run`, with its
  `activitySeen` flag.
  - Its input is a sequence of `Delivered(activity)` and `Tick` values.
  - A `Tick` is one whole timeout with no activity.
  - The loop is a method proved equal to the function `LiveRun`, and that
    function's properties are proved as lemmas.
- `timeout.dfy` (module `Timeout`): the standalone `IdleTimer` as a class,
  with its flag and its one-shot timer.
  - Nothing in the program constructs an `IdleTimer`.
  - The model states how its separator policy differs from the live loop's.
  - It also proves that, wired to the lines, the timer prints exactly what the
    live loop prints.

The handle table invariant (`TableValid`) holds after every operation. It
says:
- each name in `watchedFiles` maps to a handle opened under that name;
- that handle stays open until `close`;
- every other open handle is one that a failed `Seek` leaked.

So no name ever has two live handles of its own.

## Model

| member | source | states |
|---|---|---|
| FileSystem.UnreadSplits | cmd/tf/tf.go:17-24 | Scanning to end-of-file, letting the file grow, and scanning again yields exactly one scan of the grown file, and the cursor ends in the same place |
| FileSystem.ParentShape | cmd/tf/tf.go:102 | The parent of a name without '/' is "." Otherwise it is "/" or the part of the name before its last '/': a non-empty prefix that the name continues with a '/', after which no '/' comes. So the last path element is dropped |
| Watchers.FileWatcherForward | cmd/tf/file_watcher.go:39-42 | An event is forwarded exactly when its Write bit is set, as an update of the same name |
| Watchers.DirWatcherForward | cmd/tf/dir_watcher.go:40-45 | An event is forwarded exactly when its Rename or Create bit is set, as a creation of the same name |
| Watchers.FileStreamLength | cmd/tf/file_watcher.go:31-52 | The file watcher forwards as many notifications as there are Write events, and all of them are updates |
| Watchers.ForwardedAppend | cmd/tf/file_watcher.go:31-52 | A wrapper's stream over two stretches of events is its stream over the first, then over the second |
| Watchers.FileStreamIsWrites | cmd/tf/file_watcher.go:31-52 | The Write event at position j comes out as the update of its own name, after exactly the updates for the writes before it. So no write is dropped, duplicated or reordered, and nothing else is forwarded |
| Watchers.DirStreamOnlyCreates | cmd/tf/dir_watcher.go:32-55 | The directory watcher's stream holds only creations |
| Output.SeparatorIsFortyDashes | cmd/tf/tf.go:157 | The separator is exactly forty '-' characters |
| Output.OutputLoop | cmd/tf/tf.go:144-162 | The loop, with its flag starting false, prints exactly the output `LiveRun` defines for its input |
| Output.LiveRunAppend | cmd/tf/tf.go:146-161 | Running the loop over two stretches in turn equals one run over both, and the flag carries across |
| Output.LiveRunPrintsEveryLine | cmd/tf/tf.go:149-154 | The printed text lines are exactly the received activities' texts, in order: none dropped, none repeated |
| Output.LiveRunSeparated | cmd/tf/tf.go:155-159 | Every separator directly follows a printed text line, and a leading separator needs the flag set, so two separators are never adjacent |
| Output.QuietPrintsNothing | cmd/tf/tf.go:155-159 | Expiries with the flag clear print nothing and leave the flag clear |
| Output.OneSeparatorPerQuietPeriod | cmd/tf/tf.go:146-161 | A line followed by any quiet period of at least one timeout prints that line and exactly one separator, whatever came before |
| Output.NoLinesNoOutput | cmd/tf/tf.go:144-159 | If no activity ever arrives, nothing is ever printed |
| Timeout.IdleTimer.constructor | cmd/tf/timeout.go:14-25 | A new timer is armed with the given delay and its flag is false |
| Timeout.IdleTimer.Reset | cmd/tf/timeout.go:34-36 | A reset sets the flag and re-arms the timer |
| Timeout.IdleTimer.Elapse | cmd/tf/timeout.go:29-32 | An expiry prints the separator exactly when the timer was armed and the flag set; it disarms the timer and leaves the flag unchanged |
| Timeout.IdleTimer.Run | cmd/tf/timeout.go:24-39 | The loop prints exactly `TimerRun` of its signals and ends in the state `TimerAfter` gives |
| Timeout.TimerRunAppend | cmd/tf/timeout.go:26-38 | Running the timer over two stretches in turn equals one run over both |
| Timeout.NoSeparatorBeforeFirstReset | cmd/tf/timeout.go:25-32 | Before any reset, any number of expiries prints nothing and the flag stays false |
| Timeout.FlagNeverCleared | cmd/tf/timeout.go:24-39 | Once the flag is set, or once any reset occurs, the flag is set from then on |
| Timeout.OneShot | cmd/tf/timeout.go:29-36 | A quiet period of any length prints at most one separator, exactly one when the timer is armed and the flag set, and leaves the timer disarmed |
| Timeout.ExpiryAfterAnyResetPrints | cmd/tf/timeout.go:29-36 | After any reset, an expiry of an armed timer always prints a separator |
| Timeout.FlagsDiverge | cmd/tf/timeout.go:29-36 | After one line and one timeout, the live loop's flag is cleared but the timer's flag is still set |
| Timeout.WiredTimerMatchesOutputLoop | cmd/tf/timeout.go:24-39 | A timer reset by every line prints the same as the live loop, when "armed and flag set" matches `activitySeen` |
| Timeout.FromStartWiredTimerMatchesOutputLoop | cmd/tf/timeout.go:14-25 | From their initial states, the wired timer and the live loop print the same for every input |
| Tailing.ActivitiesAreLines | cmd/tf/tf.go:17-24 | A scan sends one activity per line, in file order, each carrying the handle's name and the line |
| Tailing.ActivitiesAppend | cmd/tf/tf.go:19-24 | Scanning two stretches of lines in turn sends what scanning them at once sends |
| Tailing.ScanLines | cmd/tf/tf.go:18-24 | The scanner loop sends exactly the activities for the lines from the cursor to the end |
| Tailing.Tailer.Tail | cmd/tf/tf.go:17-28 | `tail` sends every unread line of the handle and leaves its cursor at end-of-file; a closed handle sends nothing and is unchanged |
| Tailing.OpenSpecMeaning | cmd/tf/tf.go:74-96 | `openFile` succeeds exactly when the open (and any seek) succeeds. On failure the table is unchanged, nothing is sent and no handle is closed. On success the previous handle is closed and the new handle is stored at end-of-file. With seek nothing is sent; without it the whole file is sent |
| Tailing.Tailer.OpenFile | cmd/tf/tf.go:74-96 | The method marks the name interesting even on failure, and its result, handles and table are those `OpenSpec` gives; the table stays consistent |
| Tailing.OpenKeepsTableValid | cmd/tf/tf.go:87-91 | Close-before-replace keeps the handle table consistent: besides the handle a failed seek leaks, each name has only its current handle open |
| Tailing.OpenKeepsOtherNames | cmd/tf/tf.go:87-91 | Opening one name leaves every other name's entry and handle untouched |
| Tailing.OneLiveHandlePerName | cmd/tf/tf.go:87-91 | In a consistent table, two open handles that were not leaked and have the same name are the same handle |
| Tailing.CursorMoveKeepsTableValid | cmd/tf/tf.go:131-132 | Advancing a handle's cursor keeps the table consistent |
| Tailing.TailTwiceAfterAppend | cmd/tf/tf.go:127-132 | Tailing a handle, letting the file grow, and tailing it again sends every line once, in order: the same as one later tail |
| Tailing.RegisterKeepsRegistryValid | cmd/tf/tf.go:98-107 | After an add, the watched directories are exactly the parents of the added names. Each directory is registered once, the first time it is seen |
| Tailing.ParentWatched | cmd/tf/tf.go:99-104 | The parent of every added name is in `watchingDir` |
| Tailing.DistinctPositions | cmd/tf/tf.go:103-105 | No directory is registered with the directory watcher twice |
| Tailing.SeekOpenKeepsAtEnd | cmd/tf/tf.go:109-113 | A seeking open sends nothing, puts its name's handle at end-of-file, keeps earlier names at end-of-file, and never stores a name whose open fails |
| Tailing.Tailer.constructor | cmd/tf/tf.go:47-60 | A new Tailer has empty tables and no handles, and its invariants hold |
| Tailing.Tailer.AddFile | cmd/tf/tf.go:98-107 | `addFile` marks the name interesting and registers it with the file watcher. Its parent is added to `watchingDir`, and registered with the directory watcher only when new. Handles and table are those `OpenSpec` gives |
| Tailing.SeekOpenKeepsOthers | cmd/tf/tf.go:109-113 | Each seeking open in `addFiles` leaves every name not yet added with its entry and handle as before |
| Tailing.Tailer.AddFiles | cmd/tf/tf.go:109-113 | `addFiles` sends nothing and registers every name in order. Every name whose open succeeds ends at end-of-file; a name whose open fails is never added to the table. Every other name keeps its entry and handle, and earlier directory registrations stay a prefix |
| Tailing.Tailer.OnUpdated | cmd/tf/tf.go:127-132 | An update for a name with a handle tails that handle; an update for a name without one sends nothing and changes nothing |
| Tailing.Tailer.OnCreated | cmd/tf/tf.go:133-139 | A creation of an interesting name reopens it from offset 0 and leaves the watch sets unchanged; any other name is ignored and changes nothing |
| Tailing.Tailer.Dispatch | cmd/tf/tf.go:126-140 | One dispatch step sends what `tail` or the reopen sends, or nothing for a name nobody follows. Its new handles and table are those `DispatchSpec` gives, no handle is leaked, the watch sets never change and every invariant holds |
| Tailing.RepeatedUpdateSendsNothing | cmd/tf/tf.go:127-132 | A second update for a name, with nothing written in between, sends nothing |
| Tailing.DispatchRunSnoc | cmd/tf/tf.go:125-141 | One more notification is one more dispatch step after the run so far |
| Tailing.DispatchRunAppend | cmd/tf/tf.go:125-141 | Dispatching two traces in turn equals dispatching both at once: final handles and table agree, and what is sent is concatenated |
| Tailing.Tailer.DispatchLoop | cmd/tf/tf.go:123-142 | Over any sequence of notifications, what is sent and the final handles and table are those of `DispatchRun`. The watch sets and directory registrations never change and every invariant holds |
| Tailing.Tailer.Close | cmd/tf/tf.go:115-121 | `close` closes exactly the current handle of every name in the table and stops both watchers. It does not touch handles leaked by a failed seek |
| Tailing.FollowFromEnd | cmd/tf/tf.go:109-132 | Adding a file sends nothing. A later update sends exactly the lines appended since, in order |
| Tailing.ReopenReplays | cmd/tf/tf.go:133-139 | When a followed name is created again, the new file is replayed from its first line and the old handle is closed |
| Tailing.UninterestingCreateIgnored | cmd/tf/tf.go:137-139 | A creation of a name nobody follows sends nothing |
| Tailing.MissingUntilCreated | cmd/tf/tf.go:127-139 | A name added before it exists sends nothing on update. Its creation replays the whole file, and later updates send only appended lines |
| Tailing.DuplicateCreateReplaysTwice | cmd/tf/tf.go:133-139 | Two creations of the same file with no write in between send the whole file twice |

## Left out

- Goroutines, channels and `select` are made sequential.
  - The dispatch loop and the output loop are separate models.
  - The race between a reset and an expiry in `IdleTimer.run` is not modelled.
  - The exits taken when a channel is closed are not modelled.
- Real durations are not modelled; a `Tick` or `Elapsed` stands for one whole timeout. The 5 s constant appears only as the value passed to `new Tailer(5)` in the scenarios.
- `NewTailer`'s error returns are not modelled. The constructor is the state after both watchers were created.
- Notification names are assumed to equal the names given to `addFile`. fsnotify normalises the paths it reports, so they can differ. A file watched as "./app.log" is reported as "app.log", and an entry of the directory "." is reported as "./app.log". Then the lookups at cmd/tf/tf.go:131 and cmd/tf/tf.go:137 miss, and the program as written reads or reopens nothing.
- fsnotify itself is not modelled. The model does not say whether `Add` succeeds, when events arrive, or what the error logging does. Registrations are recorded as the sequence of names passed to `Add`.
- `bufio.Scanner` details are left out: carriage-return stripping, the token-size limit, and an unterminated final line. File content is a sequence of whole lines, and a cursor counts lines, not bytes.
- The "Error reading file" message is not modelled. A read on a closed or nil handle sends nothing.
- `Parent` does not apply `filepath.Clean`. Repeated or trailing slashes are kept as written.
- cmd/tf/main.go is not part of this model: argument checks, signal handling and the blocking wait are process lifecycle.
- cmd/gcp-permissions/gcp-permissions.go is not part of this model: it is a client of a remote cloud API.
- Tailing.Tailer.Close: calling `Close` on a handle already closed is treated as harmless, since the error `Close` returns is ignored.
- The model follows the code in these places, where a reader might expect otherwise:
  - The IdleTimer never clears its flag (`Timeout.FlagNeverCleared`, `Timeout.FlagsDiverge`). Its one-shot timer still keeps it to one separator per quiet period (`Timeout.OneShot`).
  - A rename or removal of a followed file is not forwarded by the file watcher (`Watchers.FileWatcherForward`). Only a creation or rename event in the parent directory triggers a reopen.
  - A second creation event for the same file reopens it again and replays it whole a second time (`Tailing.DuplicateCreateReplaysTwice`).
  - When `Seek` fails, the program neither stores nor closes the freshly opened handle, and `close` does not close it either. Go closes such an unreachable `*os.File` only if and when the garbage collector runs its finalizer. Finalizers are not modelled: the model keeps these handles open, in a ghost `leaked` set.
