/** The filtering rule of the two fsnotify wrappers. Each wrapper turns the raw
    change events of its watch set into file names on a channel; the Tailer's
    dispatch loop reads those names as the two kinds of notification below.
    Errors from the notifier are only logged and are not modelled. */
module Watchers {
  import opened FileSystem

  /** The operation bits an fsnotify event carries (several may be set). */
  datatype Op = Op(create: bool, write: bool, remove: bool, rename: bool, chmod: bool)

  datatype RawEvent = RawEvent(name: Path, op: Op)

  /** What the Tailer's dispatch loop receives: a name from the file watcher's
      channel (`Updated`) or from the directory watcher's channel (`Created`). */
  datatype Notification = Updated(name: Path) | Created(name: Path)

  /** FileWatcher.run: only an event with the Write bit is forwarded. A rename,
      removal or attribute change of a followed file is dropped here. */
  function FileWatcherForward(e: RawEvent): (r: Option<Notification>)
    ensures r.Some? <==> e.op.write
    ensures r.Some? ==> r.value.Updated? && r.value.name == e.name
  {
    if e.op.write then Some(Updated(e.name)) else None
  }

  /** DirWatcher.run: an event with the Rename or the Create bit is forwarded
      as a creation of that name; everything else is dropped. */
  function DirWatcherForward(e: RawEvent): (r: Option<Notification>)
    ensures r.Some? <==> e.op.rename || e.op.create
    ensures r.Some? ==> r.value.Created? && r.value.name == e.name
  {
    if e.op.rename then Some(Created(e.name))
    else if e.op.create then Some(Created(e.name))
    else None
  }

  /** The whole stream a wrapper goroutine forwards, in arrival order. */
  function Forwarded(forward: RawEvent -> Option<Notification>, es: seq<RawEvent>): seq<Notification>
    decreases |es|
  {
    if es == [] then []
    else
      var rest := Forwarded(forward, es[1..]);
      match forward(es[0])
      case Some(n) => [n] + rest
      case None => rest
  }

  /** The number of events among `es` that carry the Write bit. */
  function WriteCount(es: seq<RawEvent>): nat
    decreases |es|
  {
    if es == [] then 0 else (if es[0].op.write then 1 else 0) + WriteCount(es[1..])
  }

  /** A wrapper forwards the events of two stretches in turn. */
  lemma {:induction false} ForwardedAppend(forward: RawEvent -> Option<Notification>, a: seq<RawEvent>, b: seq<RawEvent>)
    ensures Forwarded(forward, a + b) == Forwarded(forward, a) + Forwarded(forward, b)
    decreases |a|
  {
    if a == [] {
      assert a + b == b;
    } else {
      assert (a + b)[1..] == a[1..] + b;
      ForwardedAppend(forward, a[1..], b);
    }
  }

  /** The file watcher forwards one notification per Write event, and only
      updates. */
  lemma {:induction false} FileStreamLength(es: seq<RawEvent>)
    ensures |Forwarded(FileWatcherForward, es)| == WriteCount(es)
    ensures forall i | 0 <= i < |Forwarded(FileWatcherForward, es)| :: Forwarded(FileWatcherForward, es)[i].Updated?
    decreases |es|
  {
    if es != [] {
      FileStreamLength(es[1..]);
    }
  }

  /** The file watcher's stream, position by position: it holds exactly one
      `Updated` per Write event, and the Write event at position `j` comes out
      as the update of its own name, after the updates of the writes before
      it. So no write is dropped, duplicated or reordered, and no other event
      is forwarded. */
  lemma FileStreamIsWrites(es: seq<RawEvent>)
    ensures |Forwarded(FileWatcherForward, es)| == WriteCount(es)
    ensures forall i | 0 <= i < |Forwarded(FileWatcherForward, es)| :: Forwarded(FileWatcherForward, es)[i].Updated?
    ensures forall j | 0 <= j < |es| && es[j].op.write ::
              && WriteCount(es[..j]) < |Forwarded(FileWatcherForward, es)|
              && Forwarded(FileWatcherForward, es)[WriteCount(es[..j])] == Updated(es[j].name)
  {
    FileStreamLength(es);
    forall j | 0 <= j < |es| && es[j].op.write
      ensures && WriteCount(es[..j]) < |Forwarded(FileWatcherForward, es)|
              && Forwarded(FileWatcherForward, es)[WriteCount(es[..j])] == Updated(es[j].name)
    {
      var before, rest := es[..j], es[j..];
      assert es == before + rest;
      assert rest == [es[j]] + rest[1..];
      ForwardedAppend(FileWatcherForward, before, rest);
      FileStreamLength(before);
      FileStreamLength(rest);
      assert Forwarded(FileWatcherForward, rest)[0] == Updated(es[j].name);
      assert Forwarded(FileWatcherForward, es)[|Forwarded(FileWatcherForward, before)|]
          == Forwarded(FileWatcherForward, rest)[0];
    }
  }

  /** The directory watcher never produces an `Updated` notification. */
  lemma {:induction false} DirStreamOnlyCreates(es: seq<RawEvent>)
    ensures forall i | 0 <= i < |Forwarded(DirWatcherForward, es)| :: Forwarded(DirWatcherForward, es)[i].Created?
    decreases |es|
  {
    if es != [] {
      DirStreamOnlyCreates(es[1..]);
    }
  }
}
