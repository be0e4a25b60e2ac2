/** Drop collection is exact: garbage collection keeps what reachable files reference, and nothing else. */
module DropCollection {
  import opened Bytes
  import opened Metadata
  import opened Walk
  import opened WalkProperties
  import opened Sinks

  ghost predicate ReferencedBy(events: seq<Event>, drop: Digest) {
    exists e :: e in events && drop in DropsOf(e.inode)
  }

  lemma {:induction false} CollectedFromEvents(drops: set<Digest>, events: seq<Event>, drop: Digest)
    ensures Feed(Collect, drops, events).1
    ensures drop in Feed(Collect, drops, events).0 <==> drop in drops || ReferencedBy(events, drop)
    decreases |events|
  {
    if events != [] {
      CollectedFromEvents(Collect(drops, events[0]).0, events[1..], drop);
      assert events == [events[0]] + events[1..];
    }
  }

  lemma PathsPlayNoPart(windows: bool, events: seq<Event>, drop: Digest)
    ensures ReferencedBy(SpelledEvents(windows, events), drop) <==> ReferencedBy(events, drop)
  {
    var spelled := SpelledEvents(windows, events);
    if ReferencedBy(events, drop) {
      var i :| 0 <= i < |events| && drop in DropsOf(events[i].inode);
      assert spelled[i] in spelled;
    }
    if ReferencedBy(spelled, drop) {
      var i :| 0 <= i < |spelled| && drop in DropsOf(spelled[i].inode);
      assert events[i] in events;
    }
  }

  /** One of the inode's slices is cut from the drop. */
  ghost predicate Uses(inode: Inode, drop: Digest) {
    inode.content.SliceMap? && exists s :: s in inode.content.slices && s.dropId == drop
  }

  lemma UsesIff(inode: Inode, drop: Digest)
    ensures drop in DropsOf(inode) <==> Uses(inode, drop)
  {
  }

  /** A drop some slice of a file reachable from `root` is cut from. */
  ghost predicate ReachableDrop(blob: Blob, root: Inode, drop: Digest) {
    exists file, s ::
      Reachable(blob, root, file) && file.content.SliceMap? && s in file.content.slices && s.dropId == drop
  }

  lemma ReachableDropIff(blob: Blob, root: Inode, drop: Digest)
    ensures ReachableDrop(blob, root, drop) <==> exists file :: Reachable(blob, root, file) && drop in DropsOf(file)
  {
    hide Reachable;
    if ReachableDrop(blob, root, drop) {
      var file, s :| Reachable(blob, root, file) && file.content.SliceMap? && s in file.content.slices
        && s.dropId == drop;
      UsesIff(file, drop);
    }
    if file :| Reachable(blob, root, file) && drop in DropsOf(file) {
      UsesIff(file, drop);
      var s :| s in file.content.slices && s.dropId == drop;
    }
  }

  /**
   * A successful collection holds exactly the drops of the reachable slice-backed files,
   * provided the root is a directory; a root that is itself a file is never reported.
   */
  lemma CollectorIsExact(blob: Blob, windows: bool, root: u64, drop: Digest)
    requires WalkTree(blob, windows, root).error.None?
    ensures var r := InodeByNumber(blob, root).value;
      drop in Feed(Collect, {}, Reports(blob, windows, root)).0
      <==> r.IsDirectory() && ReachableDrop(blob, r, drop)
  {
    var r := InodeByNumber(blob, root).value;
    var events := WalkTree(blob, windows, root).events;
    CollectedFromEvents({}, Reports(blob, windows, root), drop);
    PathsPlayNoPart(windows, events, drop);
    ReachableDropIff(blob, r, drop);
    hide ReachableDrop, DropsOf;
    if ReferencedBy(events, drop) {
      var e :| e in events && drop in DropsOf(e.inode);
      ReportedIffReachable(blob, windows, root, e.inode);
    }
    if r.IsDirectory() && ReachableDrop(blob, r, drop) {
      assert exists file :: Reachable(blob, r, file) && drop in DropsOf(file);
      var file :| Reachable(blob, r, file) && drop in DropsOf(file);
      ReportedIffReachable(blob, windows, root, file);
      var e :| e in events && e.inode == file;
    }
  }

  /** Collection keeps every reachable drop exactly when the root is not itself a file with slices. */
  lemma CollectorMissesRootFile(blob: Blob, windows: bool, root: u64)
    requires WalkTree(blob, windows, root).error.None?
    ensures var r := InodeByNumber(blob, root).value;
      (forall drop :: ReachableDrop(blob, r, drop) ==>
        drop in Feed(Collect, {}, Reports(blob, windows, root)).0)
      <==> !(r.content.SliceMap? && r.content.slices != [])
  {
    var r := InodeByNumber(blob, root).value;
    var kept := Feed(Collect, {}, Reports(blob, windows, root)).0;
    forall drop ensures drop in kept <==> r.IsDirectory() && ReachableDrop(blob, r, drop) {
      CollectorIsExact(blob, windows, root, drop);
    }
    assert Leads(blob, r, [], r) && Reachable(blob, r, r);
    if r.content.SliceMap? && r.content.slices != [] {
      var slice := r.content.slices[0];
      assert slice in r.content.slices && ReachableDrop(blob, r, slice.dropId);
    } else if !r.IsDirectory() {
      forall drop ensures !ReachableDrop(blob, r, drop) {
        forall file | Reachable(blob, r, file) ensures file == r {
          var path :| Leads(blob, r, path, file);
          NothingBelowNonDirectory(blob, r, path, file);
        }
      }
    }
  }

  /** Such a root: the walk succeeds, reports nothing, and the drop its one slice references is not collected. */
  lemma RootFileNotCollected(windows: bool, drop: Digest, nodeHash: seq<DirEntry> -> Digest)
    ensures var root := Inode(1, S_IFREG, SliceMap([SliceRef(0, 1, drop, 0, 1)]));
      var blob := Blob([root], [], nodeHash);
      && WalkTree(blob, windows, 1) == Walked([], [], None)
      && ReachableDrop(blob, root, drop) && drop !in Feed(Collect, {}, Reports(blob, windows, 1)).0
  {
    var root := Inode(1, S_IFREG, SliceMap([SliceRef(0, 1, drop, 0, 1)]));
    var blob := Blob([root], [], nodeHash);
    assert InodeByNumber(blob, 1) == Some(root);
    assert Leads(blob, root, [], root) && Reachable(blob, root, root);
    assert SliceRef(0, 1, drop, 0, 1) in root.content.slices;
  }

  /**
   * The walk with a collecting sink: it succeeds iff the root exists and every reachable directory is
   * sound, and then holds exactly the drops of the reachable slice-backed files below a directory root.
   */
  method CollectLiveDrops(blob: Blob, windows: bool, root: u64) returns (r: Option<set<Digest>>)
    ensures r.Some? <==>
      && InodeByNumber(blob, root).Some?
      && forall d :: Reachable(blob, InodeByNumber(blob, root).value, d) ==> Sound(blob, windows, d)
    ensures r.Some? ==> forall drop :: drop in r.value <==>
      InodeByNumber(blob, root).value.IsDirectory() && ReachableDrop(blob, InodeByNumber(blob, root).value, drop)
  {
    hide ReachableDrop, Reachable, Sound;
    var events, ok := Callbacks(blob, windows, root);
    var sink := new DropIdCollectorSink();
    sink.Consume(events);
    WalkSucceedsIff(blob, windows, root);
    if !ok { return None; }
    forall drop: Digest
      ensures drop in sink.dropIds <==>
        InodeByNumber(blob, root).value.IsDirectory() && ReachableDrop(blob, InodeByNumber(blob, root).value, drop)
    {
      CollectorIsExact(blob, windows, root, drop);
    }
    return Some(sink.dropIds);
  }
}
