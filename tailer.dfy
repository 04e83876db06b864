/** The Tailer of tf.go: the tables it keeps, the way it opens, reopens and
    reads followed files, and its dispatch loop over the notifications of the
    two watchers, made sequential.

    The handles the process opened are kept in `handles`, indexed by a handle
    id (the descriptor table); `watchedFiles` maps a name to the id of its
    current handle. A handle reads its inode live, so a handle opened before a
    rotation keeps reading the old file. The lines a read sends on the
    activity channel are returned as `emitted`, in the order they are sent. */
module Tailing {
  import opened FileSystem
  import opened Watchers
  import opened Output

  /** An open file as the Tailer holds it: the name it was opened under
      (fh.Name()), the inode it reads, its cursor in lines, and whether Close
      was called on it. */
  datatype Handle = Handle(path: Path, ino: nat, cursor: nat, closed: bool)

  /** The activities a scan of `lines` on a handle named `name` sends. */
  function Activities(name: Path, lines: seq<Line>): seq<Activity>
    decreases |lines|
  {
    if lines == [] then [] else [Activity(name, lines[0])] + Activities(name, lines[1..])
  }

  /** One activity per line, in file order, each carrying the handle's name. */
  lemma {:induction false} ActivitiesAreLines(name: Path, lines: seq<Line>)
    ensures |Activities(name, lines)| == |lines|
    ensures forall i | 0 <= i < |lines| :: Activities(name, lines)[i] == Activity(name, lines[i])
    decreases |lines|
  {
    if lines != [] {
      ActivitiesAreLines(name, lines[1..]);
    }
  }

  /** Scanning two stretches of lines in turn sends what scanning them at
      once sends. */
  lemma {:induction false} ActivitiesAppend(name: Path, a: seq<Line>, b: seq<Line>)
    ensures Activities(name, a + b) == Activities(name, a) + Activities(name, b)
    decreases |a|
  {
    if a == [] {
      assert a + b == b;
    } else {
      assert (a + b)[1..] == a[1..] + b;
      ActivitiesAppend(name, a[1..], b);
    }
  }

  /** The scanner loop of tail: one activity per line from line `from` to
      the end, in file order. */
  method ScanLines(name: Path, lines: seq<Line>, from: nat) returns (emitted: seq<Activity>)
    requires from <= |lines|
    ensures emitted == Activities(name, lines[from..])
  {
    emitted := [];
    var c := from;
    while c < |lines|
      invariant from <= c <= |lines|
      invariant emitted == Activities(name, lines[from..c])
    {
      assert lines[from..c + 1] == lines[from..c] + [lines[c]];
      ActivitiesAppend(name, lines[from..c], [lines[c]]);
      emitted := emitted + [Activity(name, lines[c])];
      c := c + 1;
    }
    assert lines[from..c] == lines[from..];
  }

  /** What tail sends for handle `h`: every line from its cursor to the end
      of its file; a closed handle reads nothing (the read fails and the
      error is only logged). */
  function ScanOut(fs: Fs, h: Handle): seq<Activity>
  {
    if h.closed then [] else Activities(h.path, Unread(Contents(fs, h.ino), h.cursor))
  }

  /** Handle `h` after tail: the cursor stands at end-of-file. */
  function Scanned(fs: Fs, h: Handle): Handle
  {
    if h.closed then h else h.(cursor := ScanEnd(Contents(fs, h.ino), h.cursor))
  }

  /** openFile reports success: os.Open succeeded and, when asked to seek,
      so did Seek. */
  predicate OpenSucceeds(fs: Fs, name: Path, seek: bool)
  {
    Open(fs, name).Some? && (seek ==> fs.inodes[fs.names[name]].seekable)
  }

  /** The handle id `table` gives to `hs[id]`'s own name is `id`: the handle
      is the current one for its name. */
  ghost predicate Current(hs: seq<Handle>, table: map<Path, nat>, id: nat)
    requires id < |hs|
  {
    hs[id].path in table && table[hs[id].path] == id
  }

  /** The handle table is consistent: every name maps to a handle opened
      under that name, open while the Tailer runs; every live handle is
      either the current one for its name or one leaked by a failed Seek. So
      no name has two live handles besides the leaked ones. */
  ghost predicate TableValid(hs: seq<Handle>, table: map<Path, nat>, leaked: set<nat>, stopped: bool)
  {
    && (forall n | n in table ::
          && table[n] < |hs|
          && hs[table[n]].path == n
          && table[n] !in leaked
          && (!stopped ==> !hs[table[n]].closed))
    && (forall id | id in leaked :: id < |hs| && !hs[id].closed)
    && (forall id | 0 <= id < |hs| && !hs[id].closed :: id in leaked || Current(hs, table, id))
  }

  /** Moving a handle's cursor does not affect the table's consistency. */
  lemma CursorMoveKeepsTableValid(hs: seq<Handle>, table: map<Path, nat>, leaked: set<nat>, stopped: bool,
                                  id: nat, c: nat)
    requires TableValid(hs, table, leaked, stopped) && id < |hs|
    ensures TableValid(hs[id := hs[id].(cursor := c)], table, leaked, stopped)
  {
    var hs' := hs[id := hs[id].(cursor := c)];
    forall j | 0 <= j < |hs'| && !hs'[j].closed
      ensures j in leaked || Current(hs', table, j)
    {
      assert !hs[j].closed && hs'[j].path == hs[j].path;
    }
  }

  lemma OneLiveHandlePerName(hs: seq<Handle>, table: map<Path, nat>, leaked: set<nat>, stopped: bool, i: nat, j: nat)
    requires TableValid(hs, table, leaked, stopped)
    requires i < |hs| && j < |hs| && i !in leaked && j !in leaked
    requires !hs[i].closed && !hs[j].closed && hs[i].path == hs[j].path
    ensures i == j
  {
  }

  /** `hs` with the handle `table` holds for `name`, if any, closed. */
  function CloseCurrent(hs: seq<Handle>, table: map<Path, nat>, name: Path): seq<Handle>
  {
    if name in table && table[name] < |hs| then hs[table[name] := hs[table[name]].(closed := true)] else hs
  }

  datatype Opened = Opened(ok: bool, handles: seq<Handle>, table: map<Path, nat>, emitted: seq<Activity>)

  /** openFile on the handle table: whether it reports success, the handles
      and the table afterwards, and what it sends. */
  function OpenSpec(fs: Fs, name: Path, seek: bool, hs: seq<Handle>, table: map<Path, nat>): Opened
  {
    match Open(fs, name)
    case None => Opened(false, hs, table, [])
    case Some(ino) =>
      if seek && !fs.inodes[ino].seekable then Opened(false, hs + [Handle(name, ino, 0, false)], table, [])
      else
        var lines := Contents(fs, ino);
        Opened(true, CloseCurrent(hs, table, name) + [Handle(name, ino, |lines|, false)],
               table[name := |hs|], if seek then [] else Activities(name, lines))
  }

  /** What openFile does to the handle table. */
  lemma OpenSpecMeaning(fs: Fs, name: Path, seek: bool, hs: seq<Handle>, table: map<Path, nat>)
    ensures var r := OpenSpec(fs, name, seek, hs, table);
      // openFile reports success exactly when the open (and the seek) worked.
      && (r.ok <==> OpenSucceeds(fs, name, seek))
      && |hs| <= |r.handles|
      // A failed open leaves the table as it was and closes nothing; if only
      // Seek failed, the program neither stores nor closes the new handle.
      && (!r.ok ==> r.table == table && r.emitted == [] && r.handles[..|hs|] == hs)
      && (Open(fs, name).None? ==> r.handles == hs)
      && (Open(fs, name).Some? && !r.ok ==> r.handles == hs + [Handle(name, fs.names[name], 0, false)])
      // A successful open stores the new handle, positioned at end-of-file:
      // by the seek, or by replaying the whole file from offset 0.
      && (r.ok ==>
            && |r.handles| == |hs| + 1
            && r.table == table[name := |hs|]
            && r.handles[|hs|] == Handle(name, fs.names[name], |Contents(fs, fs.names[name])|, false)
            && r.emitted == if seek then [] else Activities(name, Contents(fs, fs.names[name])))
      // Close before replace: the previous handle for the name is closed,
      // and no other handle is touched.
      && (r.ok ==> forall id | 0 <= id < |hs| ::
            r.handles[id] == if name in table && table[name] == id then hs[id].(closed := true) else hs[id])
  {
  }

  /** openFile on one name leaves every other name's entry and handle as they
      were. */
  lemma OpenKeepsOtherNames(fs: Fs, name: Path, seek: bool, hs: seq<Handle>, table: map<Path, nat>,
                            leaked: set<nat>, stopped: bool, n: Path)
    requires TableValid(hs, table, leaked, stopped)
    requires n != name && n in table
    ensures var r := OpenSpec(fs, name, seek, hs, table);
            n in r.table && r.table[n] == table[n] && r.handles[table[n]] == hs[table[n]]
  {
    OpenSpecMeaning(fs, name, seek, hs, table);
    var r := OpenSpec(fs, name, seek, hs, table);
    if !r.ok {
      assert r.handles[table[n]] == r.handles[..|hs|][table[n]];
    }
  }

  /** The handle openFile leaks: the fresh one, when Seek fails. */
  function LeakedBy(fs: Fs, name: Path, seek: bool, hs: seq<Handle>): set<nat>
  {
    if Open(fs, name).Some? && !OpenSucceeds(fs, name, seek) then {|hs|} else {}
  }

  /** openFile keeps the handle table consistent: at most one live handle
      per name, besides the one a failed Seek leaks. */
  lemma OpenKeepsTableValid(fs: Fs, name: Path, seek: bool, hs: seq<Handle>, table: map<Path, nat>,
                            leaked: set<nat>, stopped: bool)
    requires TableValid(hs, table, leaked, stopped)
    ensures var r := OpenSpec(fs, name, seek, hs, table);
            TableValid(r.handles, r.table, leaked + LeakedBy(fs, name, seek, hs), stopped)
  {
    OpenSpecMeaning(fs, name, seek, hs, table);
    var r := OpenSpec(fs, name, seek, hs, table);
    var leaked' := leaked + LeakedBy(fs, name, seek, hs);
    if r.ok {
      forall id | 0 <= id < |r.handles| && !r.handles[id].closed
        ensures id in leaked' || Current(r.handles, r.table, id)
      {
        if id < |hs| {
          assert !hs[id].closed;
          assert id in leaked || Current(hs, table, id);
        }
      }
    } else if Open(fs, name).Some? {
      forall id | 0 <= id < |r.handles| && !r.handles[id].closed
        ensures id in leaked' || Current(r.handles, r.table, id)
      {
        if id < |hs| {
          assert r.handles[id] == hs[id];
        }
      }
    }
  }

  /** Reading a handle, letting writers append, and reading it again sends
      exactly what one read at the end would: every line once, in file
      order. The cursor is what keeps a line from being sent twice. */
  lemma TailTwiceAfterAppend(fs: Fs, fs': Fs, h: Handle)
    requires AppendedTo(fs, fs')
    requires h.ino in fs.inodes && h.cursor <= |Contents(fs, h.ino)|
    ensures ScanOut(fs, h) + ScanOut(fs', Scanned(fs, h)) == ScanOut(fs', h)
    ensures Scanned(fs', Scanned(fs, h)) == Scanned(fs', h)
  {
    if !h.closed {
      var lines, lines' := Contents(fs, h.ino), Contents(fs', h.ino);
      UnreadSplits(lines, lines', h.cursor);
      ActivitiesAppend(h.path, Unread(lines, h.cursor), Unread(lines', ScanEnd(lines, h.cursor)));
    }
  }

  /** `n`'s current handle is open on the inode `n` names, at end-of-file. */
  ghost predicate AtEndOfFile(fs: Fs, hs: seq<Handle>, table: map<Path, nat>, n: Path)
  {
    && n in fs.names && n in table && table[n] < |hs|
    && hs[table[n]] == Handle(n, fs.names[n], |Contents(fs, fs.names[n])|, false)
  }

  /** The names of `s`, as a set. */
  ghost function Elements(s: seq<Path>): set<Path>
    decreases |s|
  {
    if s == [] then {} else Elements(s[..|s| - 1]) + {s[|s| - 1]}
  }

  lemma ElementsAppend(s: seq<Path>, x: Path)
    ensures Elements(s + [x]) == Elements(s) + {x}
  {
    assert (s + [x])[..|s|] == s;
  }

  lemma {:induction false} ElementsHolds(s: seq<Path>, x: Path)
    ensures x in Elements(s) <==> x in s
    decreases |s|
  {
    if s != [] {
      ElementsHolds(s[..|s| - 1], x);
      assert s == s[..|s| - 1] + [s[|s| - 1]];
    }
  }

  /** No name occurs twice in `s`. */
  ghost predicate Distinct(s: seq<Path>)
    decreases |s|
  {
    s == [] || (Distinct(s[..|s| - 1]) && s[|s| - 1] !in Elements(s[..|s| - 1]))
  }

  /** Distinct means that no two positions hold the same name. */
  lemma {:induction false} DistinctPositions(s: seq<Path>)
    requires Distinct(s)
    ensures forall i, j | 0 <= i < j < |s| :: s[i] != s[j]
    decreases |s|
  {
    if s != [] {
      var init := s[..|s| - 1];
      DistinctPositions(init);
      forall i, j | 0 <= i < j < |s|
        ensures s[i] != s[j]
      {
        if j == |s| - 1 {
          ElementsHolds(init, s[i]);
          assert s[i] == init[i];
        } else {
          assert s[i] == init[i] && s[j] == init[j];
        }
      }
    }
  }

  /** The parent directories of the names of `s`. */
  ghost function ParentsOf(s: seq<Path>): set<Path>
    decreases |s|
  {
    if s == [] then {} else ParentsOf(s[..|s| - 1]) + {Parent(s[|s| - 1])}
  }

  /** What addFile maintains: every interesting name was registered with the
      file watcher, the watched directories are exactly their parents, and
      each directory was registered with the directory watcher exactly once. */
  ghost predicate RegistryValid(files: set<Path>, fileRegs: seq<Path>, dirs: set<Path>, dirRegs: seq<Path>)
  {
    && files == Elements(fileRegs)
    && dirs == ParentsOf(fileRegs)
    && dirs == Elements(dirRegs)
    && Distinct(dirRegs)
  }

  /** The parent of every registered name is among the watched directories. */
  lemma {:induction false} ParentWatched(fileRegs: seq<Path>, name: Path)
    requires name in Elements(fileRegs)
    ensures Parent(name) in ParentsOf(fileRegs)
    decreases |fileRegs|
  {
    var init := fileRegs[..|fileRegs| - 1];
    if name != fileRegs[|fileRegs| - 1] {
      ParentWatched(init, name);
    }
  }

  /** Registering a name, and its parent only when that directory is new,
      keeps the registry consistent. */
  lemma RegisterKeepsRegistryValid(files: set<Path>, fileRegs: seq<Path>, dirs: set<Path>, dirRegs: seq<Path>,
                                   name: Path)
    requires RegistryValid(files, fileRegs, dirs, dirRegs)
    ensures var p := Parent(name);
            RegistryValid(files + {name}, fileRegs + [name], dirs + {p}, if p in dirs then dirRegs else dirRegs + [p])
  {
    var p := Parent(name);
    ElementsAppend(fileRegs, name);
    assert ParentsOf(fileRegs + [name]) == dirs + {p} by {
      assert (fileRegs + [name])[..|fileRegs|] == fileRegs;
    }
    if p in dirs {
      assert dirs + {p} == dirs;
    } else {
      ElementsAppend(dirRegs, p);
      assert (dirRegs + [p])[..|dirRegs|] == dirRegs;
    }
  }

  /** Every one of the first `count` names that can be opened and sought has
      its current handle open at end-of-file. */
  ghost predicate AllAtEnd(fs: Fs, hs: seq<Handle>, table: map<Path, nat>, names: seq<Path>, count: nat)
  {
    forall k | 0 <= k < count && k < |names| && OpenSucceeds(fs, names[k], true) ::
      AtEndOfFile(fs, hs, table, names[k])
  }

  /** Names that cannot be opened and sought are in `table` exactly when they
      were in `table0`. */
  ghost predicate FailuresUntouched(fs: Fs, table0: map<Path, nat>, table: map<Path, nat>)
  {
    forall n | !OpenSucceeds(fs, n, true) :: n in table <==> n in table0
  }

  /** openFile with seeking sends nothing; it puts the name's handle at
      end-of-file when it succeeds, and leaves the table alone when it fails. */
  lemma SeekOpenKeepsAtEnd(fs: Fs, name: Path, hs: seq<Handle>, table: map<Path, nat>, leaked: set<nat>,
                           stopped: bool, names: seq<Path>, count: nat, table0: map<Path, nat>)
    requires TableValid(hs, table, leaked, stopped)
    requires count < |names| && names[count] == name
    requires AllAtEnd(fs, hs, table, names, count) && FailuresUntouched(fs, table0, table)
    ensures var r := OpenSpec(fs, name, true, hs, table);
            && r.emitted == []
            && AllAtEnd(fs, r.handles, r.table, names, count + 1)
            && FailuresUntouched(fs, table0, r.table)
  {
    OpenSpecMeaning(fs, name, true, hs, table);
    var r := OpenSpec(fs, name, true, hs, table);
    forall k | 0 <= k < count + 1 && k < |names| && OpenSucceeds(fs, names[k], true)
      ensures AtEndOfFile(fs, r.handles, r.table, names[k])
    {
      if names[k] != name {
        OpenKeepsOtherNames(fs, name, true, hs, table, leaked, stopped, names[k]);
      }
    }
  }

  /** Every name of `table0` outside `names` keeps its entry, and its handle
      is as it was in `hs0`. */
  ghost predicate OthersKept(hs0: seq<Handle>, table0: map<Path, nat>, hs: seq<Handle>, table: map<Path, nat>,
                             names: seq<Path>)
  {
    forall n | n in table0 && n !in names ::
      && n in table && table[n] == table0[n]
      && table0[n] < |hs0| && table0[n] < |hs| && hs[table0[n]] == hs0[table0[n]]
  }

  /** A seeking open of `names[count]` keeps every name outside
      `names[..count + 1]` as it was before the first of them. */
  lemma SeekOpenKeepsOthers(fs: Fs, hs0: seq<Handle>, table0: map<Path, nat>, hs: seq<Handle>,
                            table: map<Path, nat>, leaked: set<nat>, stopped: bool, names: seq<Path>, count: nat)
    requires TableValid(hs, table, leaked, stopped)
    requires count < |names|
    requires OthersKept(hs0, table0, hs, table, names[..count])
    ensures var r := OpenSpec(fs, names[count], true, hs, table);
            OthersKept(hs0, table0, r.handles, r.table, names[..count + 1])
  {
    var r := OpenSpec(fs, names[count], true, hs, table);
    assert names[..count + 1] == names[..count] + [names[count]];
    forall n | n in table0 && n !in names[..count + 1]
      ensures && n in r.table && r.table[n] == table0[n]
              && table0[n] < |hs0| && table0[n] < |r.handles| && r.handles[table0[n]] == hs0[table0[n]]
    {
      assert n !in names[..count] && n != names[count];
      OpenKeepsOtherNames(fs, names[count], true, hs, table, leaked, stopped, n);
    }
  }

  /** One element of the dispatch loop's input: the notification, and the
      file system as it stands when the loop handles it. */
  datatype Snapshot = Snapshot(fs: Fs, event: Notification)

  /** The handles, the table and what was sent, after some dispatch steps. */
  datatype Outcome = Outcome(handles: seq<Handle>, table: map<Path, nat>, emitted: seq<Activity>)

  /** One iteration of the dispatch loop on the handle table. An update
      tails the name's current handle; a name with no handle reads nothing.
      A creation of an interesting name reopens it from offset 0; any other
      creation is ignored. */
  function DispatchSpec(fs: Fs, n: Notification, hs: seq<Handle>, table: map<Path, nat>,
                        interesting: set<Path>): Outcome
  {
    match n
    case Updated(name) =>
      if name in table && table[name] < |hs| then
        Outcome(hs[table[name] := Scanned(fs, hs[table[name]])], table, ScanOut(fs, hs[table[name]]))
      else Outcome(hs, table, [])
    case Created(name) =>
      if name in interesting then
        var r := OpenSpec(fs, name, false, hs, table);
        Outcome(r.handles, r.table, r.emitted)
      else Outcome(hs, table, [])
  }

  /** The dispatch loop over `trace`, one step per snapshot in order, with
      everything sent concatenated. */
  function DispatchRun(trace: seq<Snapshot>, hs: seq<Handle>, table: map<Path, nat>,
                       interesting: set<Path>): Outcome
    decreases |trace|
  {
    if trace == [] then Outcome(hs, table, [])
    else
      var prev := DispatchRun(trace[..|trace| - 1], hs, table, interesting);
      var last := trace[|trace| - 1];
      var r := DispatchSpec(last.fs, last.event, prev.handles, prev.table, interesting);
      Outcome(r.handles, r.table, prev.emitted + r.emitted)
  }

  /** A second update for the same name, with nothing written in between,
      sends nothing: the first left the cursor at end-of-file. */
  lemma RepeatedUpdateSendsNothing(fs: Fs, name: Path, hs: seq<Handle>, table: map<Path, nat>,
                                   interesting: set<Path>)
    ensures var r := DispatchSpec(fs, Updated(name), hs, table, interesting);
            DispatchSpec(fs, Updated(name), r.handles, r.table, interesting).emitted == []
  {
    if name in table && table[name] < |hs| {
      var h := hs[table[name]];
      if !h.closed {
        var lines := Contents(fs, h.ino);
        assert Unread(lines, ScanEnd(lines, h.cursor)) == [];
      }
    }
  }

  /** One more snapshot is one more dispatch step. */
  lemma DispatchRunSnoc(t: seq<Snapshot>, x: Snapshot, hs: seq<Handle>, table: map<Path, nat>,
                        interesting: set<Path>)
    ensures var prev := DispatchRun(t, hs, table, interesting);
            var r := DispatchSpec(x.fs, x.event, prev.handles, prev.table, interesting);
            DispatchRun(t + [x], hs, table, interesting) == Outcome(r.handles, r.table, prev.emitted + r.emitted)
  {
    assert (t + [x])[..|t + [x]| - 1] == t;
  }

  /** Two dispatch runs in turn are one run over both traces. */
  lemma {:induction false} DispatchRunAppend(a: seq<Snapshot>, b: seq<Snapshot>, hs: seq<Handle>,
                                             table: map<Path, nat>, interesting: set<Path>)
    ensures var ra := DispatchRun(a, hs, table, interesting);
            var rb := DispatchRun(b, ra.handles, ra.table, interesting);
            DispatchRun(a + b, hs, table, interesting) == Outcome(rb.handles, rb.table, ra.emitted + rb.emitted)
    decreases |b|
  {
    var ra := DispatchRun(a, hs, table, interesting);
    if b == [] {
      assert a + b == a;
      assert ra.emitted + [] == ra.emitted;
    } else {
      var b', last := b[..|b| - 1], b[|b| - 1];
      assert b == b' + [last];
      assert a + b == (a + b') + [last];
      DispatchRunAppend(a, b', hs, table, interesting);
      DispatchRunSnoc(a + b', last, hs, table, interesting);
      DispatchRunSnoc(b', last, ra.handles, ra.table, interesting);
      var rb' := DispatchRun(b', ra.handles, ra.table, interesting);
      var r := DispatchSpec(last.fs, last.event, rb'.handles, rb'.table, interesting);
      ConcatAssociates(ra.emitted, rb'.emitted, r.emitted);
    }
  }

  lemma ConcatAssociates<T>(x: seq<T>, y: seq<T>, z: seq<T>)
    ensures x + y + z == x + (y + z)
  {
  }

  class Tailer {
    var watchedFiles: map<Path, nat>
    var watchingDir: set<Path>
    var watchingFile: set<Path>
    /** Every handle the Tailer opened, indexed by handle id. */
    var handles: seq<Handle>
    /** The names passed to the file watcher's Add, in order. */
    var fileRegistrations: seq<Path>
    /** The directories passed to the directory watcher's Add, in order. */
    var dirRegistrations: seq<Path>
    /** Both watchers were closed by close(). */
    var stopped: bool
    const timeout: nat
    /** The handles a failed Seek left unstored and unclosed by the program. */
    ghost var leaked: set<nat>

    /** The handle table is consistent, and every name in it is interesting. */
    ghost predicate Valid()
      reads this`handles, this`watchedFiles, this`leaked, this`stopped, this`watchingFile
    {
      && TableValid(handles, watchedFiles, leaked, stopped)
      && watchedFiles.Keys <= watchingFile
    }

    /** The registry addFile maintains. */
    ghost predicate Registered()
      reads this`watchingFile, this`fileRegistrations, this`watchingDir, this`dirRegistrations
    {
      RegistryValid(watchingFile, fileRegistrations, watchingDir, dirRegistrations)
    }

    /** NewTailer, once both watchers were created. */
    constructor (timeout: nat)
      ensures Valid() && Registered()
      ensures watchedFiles == map[] && watchingDir == {} && watchingFile == {} && handles == []
      ensures fileRegistrations == [] && dirRegistrations == [] && !stopped && leaked == {}
      ensures this.timeout == timeout
    {
      watchedFiles := map[];
      watchingDir := {};
      watchingFile := {};
      handles := [];
      fileRegistrations := [];
      dirRegistrations := [];
      stopped := false;
      this.timeout := timeout;
      leaked := {};
    }

    /** tail: scan handle `id` line by line from its cursor to end-of-file,
        sending one activity per line. */
    method Tail(fs: Fs, id: nat) returns (emitted: seq<Activity>)
      requires id < |handles|
      modifies this`handles
      ensures emitted == ScanOut(fs, old(handles[id]))
      ensures handles == old(handles)[id := Scanned(fs, old(handles[id]))]
    {
      var h := handles[id];
      var lines := Contents(fs, h.ino);
      if h.closed || h.cursor > |lines| {
        assert handles == handles[id := h];
        return [];
      }
      emitted := ScanLines(h.path, lines, h.cursor);
      handles := handles[id := h.(cursor := |lines|)];
    }

    /** openFile: mark the name interesting, open it, then either seek to
        end-of-file or replay it from the start, replacing (and closing) the
        previous handle for the name. */
    method OpenFile(fs: Fs, name: Path, seek: bool) returns (ok: bool, emitted: seq<Activity>)
      requires Valid()
      modifies this`watchingFile, this`handles, this`watchedFiles, this`leaked
      ensures Valid()
      ensures watchingFile == old(watchingFile) + {name}
      ensures var r := OpenSpec(fs, name, seek, old(handles), old(watchedFiles));
              ok == r.ok && handles == r.handles && watchedFiles == r.table && emitted == r.emitted
      ensures leaked == old(leaked) + LeakedBy(fs, name, seek, old(handles))
    {
      ghost var hs0, table0, leaked0 := handles, watchedFiles, leaked;
      ghost var spec := OpenSpec(fs, name, seek, hs0, table0);
      watchingFile := watchingFile + {name};
      var r := Open(fs, name);
      if r.None? {
        assert spec == Opened(false, handles, watchedFiles, []);
        assert leaked == leaked0 + LeakedBy(fs, name, seek, hs0);
        return false, [];
      }
      var ino := r.value;
      var id := |handles|;
      var fh := Handle(name, ino, 0, false);
      if seek {
        if !fs.inodes[ino].seekable {
          // The fresh handle is neither stored nor closed.
          handles := handles + [fh];
          leaked := leaked + {id};
          assert spec == Opened(false, handles, watchedFiles, []);
          OpenKeepsTableValid(fs, name, seek, hs0, table0, leaked0, stopped);
          return false, [];
        }
        fh := fh.(cursor := |Contents(fs, ino)|);
      }
      // Close the previous handle for the name, then store the new one.
      var kept := CloseCurrent(handles, watchedFiles, name);
      handles := kept + [fh];
      watchedFiles := watchedFiles[name := id];
      emitted := [];
      if !seek {
        emitted := Tail(fs, id);
        assert Unread(Contents(fs, ino), 0) == Contents(fs, ino);
        assert handles == kept + [Scanned(fs, fh)];
      }
      ok := true;
      assert spec == Opened(ok, handles, watchedFiles, emitted);
      assert leaked == leaked0 + LeakedBy(fs, name, seek, hs0);
      OpenKeepsTableValid(fs, name, seek, hs0, table0, leaked0, stopped);
    }

    /** addFile: openFile, then register the name with the file watcher, and
        its parent directory with the directory watcher the first time that
        directory is seen. */
    method AddFile(fs: Fs, name: Path, seek: bool) returns (emitted: seq<Activity>)
      requires Valid() && Registered()
      modifies this
      ensures Valid() && Registered()
      ensures watchingFile == old(watchingFile) + {name}
      ensures watchingDir == old(watchingDir) + {Parent(name)}
      ensures fileRegistrations == old(fileRegistrations) + [name]
      ensures Parent(name) in old(watchingDir) ==> dirRegistrations == old(dirRegistrations)
      ensures Parent(name) !in old(watchingDir) ==> dirRegistrations == old(dirRegistrations) + [Parent(name)]
      ensures var r := OpenSpec(fs, name, seek, old(handles), old(watchedFiles));
              handles == r.handles && watchedFiles == r.table && emitted == r.emitted
      ensures leaked == old(leaked) + LeakedBy(fs, name, seek, old(handles))
      ensures stopped == old(stopped)
    {
      RegisterKeepsRegistryValid(watchingFile, fileRegistrations, watchingDir, dirRegistrations, name);
      watchingFile := watchingFile + {name};
      var _, e := OpenFile(fs, name, seek);
      fileRegistrations := fileRegistrations + [name];
      var parent := Parent(name);
      if parent !in watchingDir {
        watchingDir := watchingDir + {parent};
        dirRegistrations := dirRegistrations + [parent];
      } else {
        assert watchingDir == old(watchingDir) + {parent};
      }
      emitted := e;
    }

    /** addFiles: add every name, seeking to end-of-file, so nothing already
        in a file is ever sent. */
    method AddFiles(fs: Fs, names: seq<Path>) returns (emitted: seq<Activity>)
      requires Valid() && Registered()
      modifies this
      ensures Valid() && Registered()
      ensures emitted == []
      ensures fileRegistrations == old(fileRegistrations) + names
      ensures AllAtEnd(fs, handles, watchedFiles, names, |names|)
      ensures FailuresUntouched(fs, old(watchedFiles), watchedFiles)
      ensures OthersKept(old(handles), old(watchedFiles), handles, watchedFiles, names)
      ensures old(dirRegistrations) <= dirRegistrations
      ensures stopped == old(stopped)
    {
      emitted := [];
      for i := 0 to |names|
        invariant Valid() && Registered()
        invariant emitted == []
        invariant fileRegistrations == old(fileRegistrations) + names[..i]
        invariant AllAtEnd(fs, handles, watchedFiles, names, i)
        invariant FailuresUntouched(fs, old(watchedFiles), watchedFiles)
        invariant OthersKept(old(handles), old(watchedFiles), handles, watchedFiles, names[..i])
        invariant old(dirRegistrations) <= dirRegistrations
        invariant stopped == old(stopped)
      {
        SeekOpenKeepsAtEnd(fs, names[i], handles, watchedFiles, leaked, stopped, names, i, old(watchedFiles));
        SeekOpenKeepsOthers(fs, old(handles), old(watchedFiles), handles, watchedFiles, leaked, stopped, names, i);
        var e := AddFile(fs, names[i], true);
        emitted := emitted + e;
        assert names[..i + 1] == names[..i] + [names[i]];
      }
      assert names[..|names|] == names;
    }

    /** The "file updated" branch of the dispatch loop: tail the name's
        current handle. A name with no handle is a nil handle in the source;
        reading it fails, so nothing is sent. */
    method OnUpdated(fs: Fs, name: Path) returns (emitted: seq<Activity>)
      requires Valid()
      modifies this`handles
      ensures Valid()
      ensures name !in watchedFiles ==> emitted == [] && handles == old(handles)
      ensures name in watchedFiles ==>
                var id := watchedFiles[name];
                emitted == ScanOut(fs, old(handles[id])) && handles == old(handles)[id := Scanned(fs, old(handles[id]))]
    {
      if name in watchedFiles {
        var id := watchedFiles[name];
        CursorMoveKeepsTableValid(handles, watchedFiles, leaked, stopped, id, Scanned(fs, handles[id]).cursor);
        emitted := Tail(fs, id);
      } else {
        emitted := [];
      }
    }

    /** The "file created or renamed" branch: an interesting name is added
        again without seeking, so the new file is replayed from offset 0;
        any other name is ignored. */
    method OnCreated(fs: Fs, name: Path) returns (emitted: seq<Activity>)
      requires Valid() && Registered()
      modifies this
      ensures Valid() && Registered()
      ensures name !in old(watchingFile) ==> emitted == [] && unchanged(this)
      ensures name in old(watchingFile) ==>
                && watchingFile == old(watchingFile)
                && watchingDir == old(watchingDir)
                && dirRegistrations == old(dirRegistrations)
                && fileRegistrations == old(fileRegistrations) + [name]
                && var r := OpenSpec(fs, name, false, old(handles), old(watchedFiles));
                   handles == r.handles && watchedFiles == r.table && emitted == r.emitted
      ensures stopped == old(stopped) && leaked == old(leaked)
    {
      if name in watchingFile {
        ParentWatched(fileRegistrations, name);
        emitted := AddFile(fs, name, false);
      } else {
        emitted := [];
      }
    }

    /** One iteration of the dispatch loop. */
    method Dispatch(fs: Fs, n: Notification) returns (emitted: seq<Activity>)
      requires Valid() && Registered()
      modifies this
      ensures Valid() && Registered()
      ensures old(watchingFile) == watchingFile && old(watchingDir) == watchingDir
      ensures old(fileRegistrations) <= fileRegistrations && old(dirRegistrations) == dirRegistrations
      ensures stopped == old(stopped)
      ensures n.Updated? && n.name in old(watchedFiles) ==>
                emitted == ScanOut(fs, old(handles)[old(watchedFiles)[n.name]])
      ensures n.Created? && n.name in old(watchingFile) ==>
                emitted == OpenSpec(fs, n.name, false, old(handles), old(watchedFiles)).emitted
      ensures (n.Updated? && n.name !in old(watchedFiles)) || (n.Created? && n.name !in old(watchingFile)) ==>
                emitted == []
      ensures var r := DispatchSpec(fs, n, old(handles), old(watchedFiles), old(watchingFile));
              handles == r.handles && watchedFiles == r.table && emitted == r.emitted
      ensures leaked == old(leaked)
    {
      match n
      case Updated(name) =>
        emitted := OnUpdated(fs, name);
      case Created(name) =>
        emitted := OnCreated(fs, name);
    }

    /** The dispatch loop of run over a finite stretch of notifications:
        the watch sets never shrink (the dispatch loop never even adds to
        them: only names already interesting are re-added). */
    method DispatchLoop(trace: seq<Snapshot>) returns (emitted: seq<Activity>)
      requires Valid() && Registered()
      modifies this
      ensures Valid() && Registered()
      ensures old(watchingFile) == watchingFile && old(watchingDir) == watchingDir
      ensures old(fileRegistrations) <= fileRegistrations && old(dirRegistrations) == dirRegistrations
      ensures stopped == old(stopped) && leaked == old(leaked)
      ensures var r := DispatchRun(trace, old(handles), old(watchedFiles), old(watchingFile));
              handles == r.handles && watchedFiles == r.table && emitted == r.emitted
    {
      emitted := [];
      for i := 0 to |trace|
        invariant Valid() && Registered()
        invariant old(watchingFile) == watchingFile && old(watchingDir) == watchingDir
        invariant old(fileRegistrations) <= fileRegistrations && old(dirRegistrations) == dirRegistrations
        invariant stopped == old(stopped) && leaked == old(leaked)
        invariant var r := DispatchRun(trace[..i], old(handles), old(watchedFiles), old(watchingFile));
                  handles == r.handles && watchedFiles == r.table && emitted == r.emitted
      {
        assert trace[..i + 1][..i] == trace[..i];
        var e := Dispatch(trace[i].fs, trace[i].event);
        emitted := emitted + e;
      }
      assert trace[..|trace|] == trace;
    }

    /** close: close every handle in the table and both watchers. Handles
        leaked by a failed Seek are not in the table, so close leaves them
        alone (only a garbage-collector finalizer, not modelled, would close
        them). Closing twice is harmless. */
    method Close()
      requires Valid()
      modifies this`handles, this`stopped
      ensures Valid() && stopped
      ensures |handles| == |old(handles)|
      ensures forall id | 0 <= id < |handles| ::
                handles[id] == if Current(old(handles), watchedFiles, id) then old(handles[id]).(closed := true)
                               else old(handles[id])
      ensures forall n | n in watchedFiles :: handles[watchedFiles[n]].closed
      ensures forall id | id in leaked :: !handles[id].closed
    {
      var pending := watchedFiles.Keys;
      while pending != {}
        invariant pending <= watchedFiles.Keys
        invariant |handles| == |old(handles)|
        invariant forall id | 0 <= id < |handles| ::
                    handles[id] == if Current(old(handles), watchedFiles, id) && old(handles[id]).path !in pending
                                   then old(handles[id]).(closed := true)
                                   else old(handles[id])
        decreases pending
      {
        var n :| n in pending;
        var id := watchedFiles[n];
        handles := handles[id := handles[id].(closed := true)];
        pending := pending - {n};
      }
      stopped := true;
    }
  }

  /** The lines a name's file gained between two states of the file system. */
  function Appended(fs: Fs, fs': Fs, name: Path): seq<Line>
    requires name in fs.names
  {
    Unread(Contents(fs', fs.names[name]), |Contents(fs, fs.names[name])|)
  }

  /** Following a file from its end: adding it sends nothing, and a later
      update sends exactly the lines appended since, in order. */
  method FollowFromEnd(fs: Fs, fs': Fs, name: Path) returns (atAdd: seq<Activity>, atUpdate: seq<Activity>)
    requires OpenSucceeds(fs, name, true) && AppendedTo(fs, fs')
    ensures atAdd == []
    ensures atUpdate == Activities(name, Appended(fs, fs', name))
    ensures |Contents(fs, fs.names[name])| + |atUpdate| == |Contents(fs', fs.names[name])|
  {
    var t := new Tailer(5);
    atAdd := t.AddFiles(fs, [name]);
    assert AtEndOfFile(fs, t.handles, t.watchedFiles, [name][0]);
    atUpdate := t.OnUpdated(fs', name);
    ActivitiesAreLines(name, Appended(fs, fs', name));
  }

  /** Rotation: once the name is created again, the new file is replayed
      from its first line, and the handle on the old file is closed. */
  method ReopenReplays(fs: Fs, fs': Fs, name: Path) returns (atCreate: seq<Activity>, oldClosed: bool)
    requires OpenSucceeds(fs, name, true) && OpenSucceeds(fs', name, false)
    ensures atCreate == Activities(name, Contents(fs', fs'.names[name]))
    ensures oldClosed
  {
    var t := new Tailer(5);
    var _ := t.AddFiles(fs, [name]);
    assert AtEndOfFile(fs, t.handles, t.watchedFiles, [name][0]);
    var first := t.watchedFiles[name];
    assert name in t.watchingFile by {
      ElementsHolds(t.fileRegistrations, name);
      assert t.fileRegistrations[|t.fileRegistrations| - 1] == name;
    }
    atCreate := t.OnCreated(fs', name);
    oldClosed := t.handles[first].closed;
  }

  /** A created event for a name nobody follows changes nothing and sends
      nothing, even when that name's directory is watched. */
  method UninterestingCreateIgnored(fs: Fs, fs': Fs, name: Path, other: Path) returns (atCreate: seq<Activity>)
    requires other != name
    ensures atCreate == []
  {
    var t := new Tailer(5);
    var _ := t.AddFiles(fs, [name]);
    atCreate := t.OnCreated(fs', other);
  }

  /** A file that does not exist when it is added has no handle: an update
      for it sends nothing until a created event opens it, which replays it
      whole; from then on an update sends only the lines appended since. */
  method MissingUntilCreated(fs: Fs, fs': Fs, fs'': Fs, name: Path)
    returns (atUpdate: seq<Activity>, atCreate: seq<Activity>, atNextUpdate: seq<Activity>)
    requires Open(fs, name).None? && OpenSucceeds(fs', name, false) && AppendedTo(fs', fs'')
    ensures atUpdate == []
    ensures atCreate == Activities(name, Contents(fs', fs'.names[name]))
    ensures atNextUpdate == Activities(name, Appended(fs', fs'', name))
  {
    var t := new Tailer(5);
    var _ := t.AddFiles(fs, [name]);
    atUpdate := t.OnUpdated(fs', name);
    assert name in t.watchingFile by {
      ElementsHolds(t.fileRegistrations, name);
      assert t.fileRegistrations[|t.fileRegistrations| - 1] == name;
    }
    atCreate := t.OnCreated(fs', name);
    assert AtEndOfFile(fs', t.handles, t.watchedFiles, name);
    atNextUpdate := t.OnUpdated(fs'', name);
  }

  /** Two created events for the same file, with nothing written in
      between, replay the whole file twice. */
  method DuplicateCreateReplaysTwice(fs: Fs, fs': Fs, name: Path) returns (first: seq<Activity>, second: seq<Activity>)
    requires OpenSucceeds(fs', name, false)
    ensures first == second == Activities(name, Contents(fs', fs'.names[name]))
  {
    var t := new Tailer(5);
    var _ := t.AddFiles(fs, [name]);
    assert name in t.watchingFile by {
      ElementsHolds(t.fileRegistrations, name);
      assert t.fileRegistrations[|t.fileRegistrations| - 1] == name;
    }
    first := t.OnCreated(fs', name);
    second := t.OnCreated(fs', name);
  }
}
