/** The part of the operating system the follower relies on, as values.

    A name in the directory tree points at an inode; an inode holds the lines
    of one file. A handle keeps reading the inode it was opened on even after
    its name is renamed away or removed, which is what log rotation relies on:
    the old handle sees the old file, a fresh open of the same name sees the
    new one. Content is a sequence of whole lines. */
module FileSystem {

  type Path = string
  type Line = string

  datatype Option<T> = None | Some(value: T)

  /** The data of one file. `readable` is false when opening it fails
      (permissions); `seekable` is false for a file that cannot seek, such as
      a named pipe. */
  datatype Inode = Inode(lines: seq<Line>, readable: bool, seekable: bool)

  datatype Fs = Fs(names: map<Path, nat>, inodes: map<nat, Inode>)

  /** os.Open: the inode a name refers to, when the name exists and the file
      may be read; None stands for the error os.Open returns. */
  function Open(fs: Fs, p: Path): Option<nat>
  {
    if p in fs.names && fs.names[p] in fs.inodes && fs.inodes[fs.names[p]].readable
    then Some(fs.names[p])
    else None
  }

  /** The lines an open handle on inode `ino` can read. */
  function Contents(fs: Fs, ino: nat): seq<Line>
  {
    if ino in fs.inodes then fs.inodes[ino].lines else []
  }

  /** What a scan from line `cursor` to end-of-file yields. A cursor past the
      end (the file was truncated) reads nothing. */
  function Unread(lines: seq<Line>, cursor: nat): seq<Line>
  {
    if cursor <= |lines| then lines[cursor..] else []
  }

  /** Where the cursor stands after such a scan. */
  function ScanEnd(lines: seq<Line>, cursor: nat): nat
  {
    if cursor <= |lines| then |lines| else cursor
  }

  /** `later` is `earlier` after writers only appended: the same names point
      at the same inodes, and every inode's lines were only extended. */
  ghost predicate AppendedTo(earlier: Fs, later: Fs)
  {
    && later.names == earlier.names
    && forall ino | ino in earlier.inodes ::
         ino in later.inodes && earlier.inodes[ino].lines <= later.inodes[ino].lines
  }

  /** Reading to the end, letting the file grow, and reading to the end again
      yields exactly what one read at the end would have yielded: every line
      comes out once, in file order, and none is read twice. */
  lemma {:induction false} UnreadSplits(earlier: seq<Line>, later: seq<Line>, cursor: nat)
    requires earlier <= later
    requires cursor <= |earlier|
    ensures Unread(earlier, cursor) + Unread(later, ScanEnd(earlier, cursor)) == Unread(later, cursor)
    ensures ScanEnd(later, ScanEnd(earlier, cursor)) == ScanEnd(later, cursor)
  {
    assert later == earlier + later[|earlier|..];
    calc {
      Unread(earlier, cursor) + Unread(later, ScanEnd(earlier, cursor));
      earlier[cursor..] + later[|earlier|..];
      { assert earlier[cursor..] == later[cursor..|earlier|]; }
      later[cursor..|earlier|] + later[|earlier|..];
      later[cursor..];
    }
  }

  /** filepath.Dir without its Clean step: everything before the last '/',
      "/" when that slash is the first character, "." when there is none. */
  function Parent(p: Path): Path
    decreases |p|
  {
    if |p| == 0 then "."
    else if p[|p| - 1] == '/' then (if |p| == 1 then "/" else p[..|p| - 1])
    else Parent(p[..|p| - 1])
  }

  /** The parent is "." for a bare name. Otherwise it is "/" or the part of
      the path before its last '/': a non-empty prefix, followed in the path
      by a '/', after which no '/' comes. So the last element is dropped. */
  lemma {:induction false} ParentShape(p: Path)
    ensures (forall j | 0 <= j < |p| :: p[j] != '/') ==> Parent(p) == "."
    ensures (exists j | 0 <= j < |p| :: p[j] == '/') ==>
              var dir := Parent(p);
              && 0 < |dir| <= |p| && dir <= p
              && (dir == "/" || (|dir| < |p| && p[|dir|] == '/'))
              && forall j | |dir| < j < |p| :: p[j] != '/'
    decreases |p|
  {
    if |p| > 0 && p[|p| - 1] != '/' {
      var q := p[..|p| - 1];
      ParentShape(q);
      if exists j | 0 <= j < |p| :: p[j] == '/' {
        var j :| 0 <= j < |p| && p[j] == '/';
        assert q[j] == '/';
        var dir := Parent(q);
        if dir != "/" {
          assert p[|dir|] == q[|dir|];
        }
      } else {
        forall j | 0 <= j < |q|
          ensures q[j] != '/'
        {
          assert q[j] == p[j];
        }
      }
    }
  }
}
