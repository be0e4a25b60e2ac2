/**
 * Sequential and two-phase parallel extraction of a walked tree: when each leaves the right bytes at every
 * path, whatever order the workers finish in and whichever hard links succeed, and when the two agree.
 */
module Extraction {
  import opened Bytes
  import opened Metadata
  import opened Walk
  import opened WalkProperties
  import opened FileReaders
  import opened Sinks
  import opened ExtractionPlan
  import opened Destinations

  // ----- What extraction should leave behind -----

  /** The bytes of the file reported at `p`, or what was there before. */
  function Wanted(fs: Fs, events: seq<Event>, store: Option<SlabSource>, p: Path): Option<seq<byte>> {
    if events == [] then fs.Read(p)
    else if events[0].inode.IsFile() && events[0].path == p then Streamed(events[0].inode, store)
    else Wanted(fs, events[1..], store, p)
  }

  function WantedBy(fs: Fs, events: seq<Event>, store: Option<SlabSource>): Want {
    p => Wanted(fs, events, store, p)
  }

  /** Facts about the events of a walk that extraction relies on. */
  ghost predicate Extractable(blob: Blob, events: seq<Event>, store: Option<SlabSource>) {
    && DistinctPaths(events)
    && (forall e :: e in events ==> Canonical(blob, e.inode))
    && Readable(events, store)
  }

  /** Every reported file can be read. */
  ghost predicate Readable(events: seq<Event>, store: Option<SlabSource>) {
    forall e :: e in events && e.inode.IsFile() ==> Streamed(e.inode, store).Some?
  }

  /** Names that share an object in the destination want the same bytes. */
  ghost predicate Agree(fs: Fs, events: seq<Event>, store: Option<SlabSource>) {
    Uniform(fs, WantedBy(fs, events, store))
  }

  /** Each file event's path reads as the file's bytes. */
  ghost predicate HoldsFiles(fs: Fs, events: seq<Event>, store: Option<SlabSource>) {
    forall e :: e in events && e.inode.IsFile() ==> fs.Read(e.path) == Streamed(e.inode, store)
  }

  /** Every path, reported or not, has what it should. */
  ghost predicate EndsWell(before: Fs, after: Fs, events: seq<Event>, store: Option<SlabSource>) {
    Settled(after, WantedBy(before, events, store), {})
  }

  lemma {:induction false} WantedFile(fs: Fs, events: seq<Event>, store: Option<SlabSource>, e: Event)
    requires DistinctPaths(events) && e in events && e.inode.IsFile()
    ensures Wanted(fs, events, store, e.path) == Streamed(e.inode, store)
    decreases |events|
  {
    hide Streamed;
    assert events[0] in events;
    if events[0].path == e.path {
      SamePathSameEvent(events, events[0], e);
    } else {
      DistinctRest(events);
      WantedFile(fs, events[1..], store, e);
    }
  }

  lemma {:induction false} WantedElsewhere(fs: Fs, events: seq<Event>, store: Option<SlabSource>, p: Path)
    requires p !in FilePaths(events)
    ensures Wanted(fs, events, store, p) == fs.Read(p)
    decreases |events|
  {
    if events != [] {
      assert events == [events[0]] + events[1..];
      WantedElsewhere(fs, events[1..], store, p);
    }
  }

  lemma DistinctRest(events: seq<Event>)
    requires DistinctPaths(events) && events != []
    ensures DistinctPaths(events[1..])
  {
    forall i, j | 0 <= i < j < |events[1..]| ensures events[1..][i].path != events[1..][j].path {
      assert events[i + 1].path != events[j + 1].path;
    }
  }

  /** Ending well is holding every reported file and leaving every other path alone. */
  lemma EndsWellIff(before: Fs, after: Fs, events: seq<Event>, store: Option<SlabSource>)
    requires DistinctPaths(events)
    ensures EndsWell(before, after, events, store) <==>
      && HoldsFiles(after, events, store)
      && forall p :: p !in FilePaths(events) ==> after.Read(p) == before.Read(p)
  {
    hide Streamed, Wanted;
    var want := WantedBy(before, events, store);
    forall p ensures p !in FilePaths(events) ==> want(p) == before.Read(p) {
      if p !in FilePaths(events) { WantedElsewhere(before, events, store, p); }
    }
    forall e | e in events && e.inode.IsFile() ensures want(e.path) == Streamed(e.inode, store) {
      WantedFile(before, events, store, e);
    }
    if HoldsFiles(after, events, store) && forall p :: p !in FilePaths(events) ==> after.Read(p) == before.Read(p) {
      forall p ensures after.Read(p) == want(p) {
        if p in FilePaths(events) {
          var e :| e in events && e.inode.IsFile() && e.path == p;
        }
      }
    }
  }

  /** Before anything is written, every path but the reported files' has what it should. */
  lemma StartsReady(fs: Fs, events: seq<Event>, store: Option<SlabSource>)
    requires fs.Valid() && Agree(fs, events, store)
    ensures Ready(fs, WantedBy(fs, events, store), FilePaths(events))
  {
    hide Wanted;
    forall p | p !in FilePaths(events) ensures fs.Read(p) == Wanted(fs, events, store, p) {
      WantedElsewhere(fs, events, store, p);
    }
  }

  // ----- Sequential extraction -----

  /** The recorded first path of an inode number wants that inode's bytes and is not written again. */
  ghost predicate SeenWants(blob: Blob, s: SequentialState, want: Want, pending: set<Path>, store: Option<SlabSource>) {
    forall n :: n in s.seen ==>
      && s.seen[n] !in pending
      && InodeByNumber(blob, n).Some?
      && Streamed(InodeByNumber(blob, n).value, store).Some?
      && want(s.seen[n]) == Streamed(InodeByNumber(blob, n).value, store)
  }

  /** One file is written or linked at its path, and everybody sharing its object is content. */
  lemma FileStepSettles(blob: Blob, s: SequentialState, e: Event, want: Want, pending: set<Path>,
    store: Option<SlabSource>, policy: LinkPolicy)
    requires Ready(s.fs, want, pending) && SeenWants(blob, s, want, pending, store)
    requires Canonical(blob, e.inode) && e.inode.IsFile()
    requires Streamed(e.inode, store).Some? && want(e.path) == Streamed(e.inode, store)
    ensures var (t, ok) := FilesystemStep(store, policy, s, e);
      ok && Ready(t.fs, want, pending - {e.path}) && SeenWants(blob, t, want, pending - {e.path}, store)
  {
    hide Streamed, FindInode, Uniform, Delivered;
    var n := e.inode.number;
    StreamedIsDelivered(e.inode, store);
    CreateSettles(s.fs, want, e.path, Delivered(ItemsOf(e.inode, store)), pending);
    if n in s.seen {
      assert s.fs.Read(s.seen[n]) == want(s.seen[n]);
      if e.path !in s.fs.names { LinkSettles(s.fs, want, s.seen[n], e.path, pending); }
    }
  }

  lemma OtherStep(s: SequentialState, e: Event, store: Option<SlabSource>, policy: LinkPolicy)
    requires !e.inode.IsFile()
    ensures var (t, ok) := FilesystemStep(store, policy, s, e); ok && t.fs == s.fs && t.seen == s.seen
  {
  }

  lemma {:induction false} SequentialSettles(blob: Blob, s: SequentialState, events: seq<Event>, want: Want,
    pending: set<Path>, store: Option<SlabSource>, policy: LinkPolicy)
    requires Ready(s.fs, want, pending) && SeenWants(blob, s, want, pending, store)
    requires forall e :: e in events ==> Canonical(blob, e.inode)
    requires Readable(events, store)
    requires forall e :: e in events && e.inode.IsFile() ==> want(e.path) == Streamed(e.inode, store)
    ensures var (t, ok) := Feed(FilesystemSteps(store, policy), s, events);
      ok && Ready(t.fs, want, pending - FilePaths(events))
    decreases |events|
  {
    hide Ready, SeenWants, Streamed, FilesystemStep, Canonical;
    if events == [] {
      assert pending - FilePaths(events) == pending;
    } else {
      var e, rest := events[0], events[1..];
      assert events == [e] + rest;
      var next := FilesystemStep(store, policy, s, e).0;
      if e.inode.IsFile() {
        FileStepSettles(blob, s, e, want, pending, store, policy);
        SequentialSettles(blob, next, rest, want, pending - {e.path}, store, policy);
        assert pending - FilePaths(events) == (pending - {e.path}) - FilePaths(rest);
      } else {
        OtherStep(s, e, store, policy);
        SeenSame(blob, s, next, want, pending, store);
        SequentialSettles(blob, next, rest, want, pending, store, policy);
        assert FilePaths(events) == FilePaths(rest);
      }
    }
  }

  lemma SeenSame(blob: Blob, s: SequentialState, t: SequentialState, want: Want, pending: set<Path>,
    store: Option<SlabSource>)
    requires SeenWants(blob, s, want, pending, store) && t.seen == s.seen
    ensures SeenWants(blob, t, want, pending, store)
  {
  }

  /** Sequential extraction binds no name anew, even when it fails. */
  lemma {:induction false} SequentialKeepsNames(s: SequentialState, events: seq<Event>, store: Option<SlabSource>,
    policy: LinkPolicy)
    requires s.fs.Valid()
    ensures NamesKept(s.fs, Feed(FilesystemSteps(store, policy), s, events).0.fs)
    decreases |events|
  {
    hide Streamed, Delivered;
    if events != [] {
      var (next, ok) := FilesystemStep(store, policy, s, events[0]);
      assert next.fs.Valid() && NamesKept(s.fs, next.fs);
      hide FilesystemStep;
      if ok { SequentialKeepsNames(next, events[1..], store, policy); }
    }
  }

  ghost function SequentialResult(events: seq<Event>, fs: Fs, store: Option<SlabSource>, policy: LinkPolicy)
    : (SequentialState, bool)
  {
    Feed(FilesystemSteps(store, policy), SequentialState(fs, map[], [], []), events)
  }

  /**
   * Sequential extraction leaves every reported file's bytes at its path and every other path alone
   * iff names that share an object in the destination want the same bytes.
   */
  lemma SequentialEndsWellIff(blob: Blob, events: seq<Event>, fs: Fs, store: Option<SlabSource>, policy: LinkPolicy)
    requires fs.Valid() && Extractable(blob, events, store)
    ensures EndsWell(fs, SequentialResult(events, fs, store, policy).0.fs, events, store) <==> Agree(fs, events, store)
    ensures Agree(fs, events, store) ==> SequentialResult(events, fs, store, policy).1
  {
    hide Streamed, Wanted, FilesystemSteps;
    var want, start := WantedBy(fs, events, store), SequentialState(fs, map[], [], []);
    SequentialKeepsNames(start, events, store, policy);
    if Agree(fs, events, store) {
      StartsReady(fs, events, store);
      forall e | e in events && e.inode.IsFile() ensures want(e.path) == Streamed(e.inode, store) {
        WantedFile(fs, events, store, e);
      }
      SequentialSettles(blob, start, events, want, FilePaths(events), store, policy);
      assert FilePaths(events) - FilePaths(events) == {};
    }
    var after := SequentialResult(events, fs, store, policy).0.fs;
    if EndsWell(fs, after, events, store) { EndsWellMeansUniform(fs, after, want); }
  }

  // ----- Parallel extraction -----

  ghost function PhaseOne(events: seq<Event>): ParallelState { Feed(ParallelStep, EMPTY_PARALLEL, events).0 }

  ghost function ParallelResult(events: seq<Event>, fs: Fs, order: seq<(Path, Inode)>,
    store: Option<SlabSource>, policy: LinkPolicy): Fs
  {
    MakeLinks(RunTasks(fs, order, store), PhaseOne(events).links, policy)
  }

  ghost predicate SameTasks(order: seq<(Path, Inode)>, tasks: seq<(Path, Inode)>) { multiset(order) == multiset(tasks) }

  lemma SameTasksMembers(order: seq<(Path, Inode)>, tasks: seq<(Path, Inode)>)
    requires SameTasks(order, tasks)
    ensures forall t :: t in order <==> t in tasks
    ensures WrittenPaths(order) == WrittenPaths(tasks)
  {
    forall t ensures t in order <==> t in tasks {
      assert t in multiset(order) <==> t in multiset(tasks);
    }
  }

  /** What phase one hands on fits what is wanted. */
  lemma PlanWants(blob: Blob, events: seq<Event>, fs: Fs, store: Option<SlabSource>)
    requires Extractable(blob, events, store)
    ensures var s, want := PhaseOne(events), WantedBy(fs, events, store);
      && Planned(blob, events, s) && LinksRunnable(s.links)
      && TasksWant(s.tasks, want, store) && LinksWant(s.links, want)
      && (forall t :: t in s.tasks ==> t.0 in FilePaths(events) && t.0 !in LinkNames(s.links))
      && FilePaths(events) <= LinkNames(s.links) + TaskPaths(s.tasks)
  {
    assert [] + events == events;
    PlanRun(blob, [], EMPTY_PARALLEL, events);
    PlanRunnable(blob, events, PhaseOne(events));
    PlannedWants(blob, events, PhaseOne(events), fs, store);
  }

  lemma PlannedWants(blob: Blob, events: seq<Event>, s: ParallelState, fs: Fs, store: Option<SlabSource>)
    requires Extractable(blob, events, store) && Planned(blob, events, s)
    ensures TasksWant(s.tasks, WantedBy(fs, events, store), store) && LinksWant(s.links, WantedBy(fs, events, store))
    ensures forall t :: t in s.tasks ==> t.0 in FilePaths(events) && t.0 !in LinkNames(s.links)
    ensures FilePaths(events) <= LinkNames(s.links) + TaskPaths(s.tasks)
  {
    var want := WantedBy(fs, events, store);
    PlanCovers(blob, events, s);
    hide Planned, Streamed, Wanted, Canonical;
    forall t | t in s.tasks
      ensures t.0 in FilePaths(events) && Streamed(t.1, store).Some? && want(t.0) == Streamed(t.1, store)
    {
      TaskIsEvent(blob, events, s, t);
      WantedFile(fs, events, store, Event(t.0, t.1));
    }
    forall l | l in s.links ensures want(l.1).Some? && want(l.0) == want(l.1) {
      var e := LinkIsEvent(blob, events, s, l);
      WantedFile(fs, events, store, e);
      assert want(l.1) == Streamed(e.inode, store) by { assert (l.1, e.inode) in s.tasks; }
    }
    forall t, l | t in s.tasks && l in s.links ensures t.0 != l.0 {
      LinkNameIsNoTask(blob, events, s, l);
    }
  }

  /** Parallel extraction binds no name anew, and binds no path that is neither written nor linked. */
  lemma ParallelBinds(events: seq<Event>, fs: Fs, order: seq<(Path, Inode)>, store: Option<SlabSource>,
    policy: LinkPolicy)
    requires fs.Valid()
    ensures var after := ParallelResult(events, fs, order, store, policy);
      && NamesKept(fs, after)
      && forall p :: p in after.names && p !in fs.names ==> p in WrittenPaths(order) + LinkNames(PhaseOne(events).links)
  {
    TasksBind(SharingOf(fs), order);
    TasksShare(fs, order, store);
    hide RunTasks, BindTasks;
    LinksBind(RunTasks(fs, order, store), PhaseOne(events).links, policy);
  }

  /** After the tasks, the skipped paths' wrong objects are all that is wrong. */
  lemma TasksTrack(blob: Blob, events: seq<Event>, fs: Fs, order: seq<(Path, Inode)>, store: Option<SlabSource>)
    requires fs.Valid() && Extractable(blob, events, store) && Agree(fs, events, store)
    requires SameTasks(order, PhaseOne(events).tasks) && SkippedBound(fs, PhaseOne(events).tasks)
    ensures var s, want := PhaseOne(events), WantedBy(fs, events, store);
      Tracked(RunTasks(fs, order, store), want, LinkNames(s.links), SkippedWrong(fs, s.tasks, want))
  {
    PlanWants(blob, events, fs, store);
    StartsReady(fs, events, store);
    SameTasksMembers(order, PhaseOne(events).tasks);
    TasksKeep(fs, order, store);
    var s, want := PhaseOne(events), WantedBy(fs, events, store);
    TasksSettle(fs, order, want, FilePaths(events), store);
    hide PhaseOne, WantedBy, RunTasks, BindTasks, Streamed, Writes, Planned, Agree, LinksRunnable, Extractable, Uniform;
    var mid, wrong := RunTasks(fs, order, store), SkippedWrong(fs, s.tasks, want);
    forall p | p !in LinkNames(s.links) ensures mid.Read(p) == want(p) <==> !(p in mid.names && mid.names[p] in wrong) {
      TracksPath(fs, order, s.tasks, want, FilePaths(events), store, p);
    }
    forall c | c in wrong ensures exists p :: p !in LinkNames(s.links) && SharingOf(mid).Names(p, c) {
      var t :| t in s.tasks && t.0 in fs.names && fs.names[t.0] == c;
      assert SharingOf(mid).Names(t.0, c);
    }
  }

  lemma TracksPath(fs: Fs, order: seq<(Path, Inode)>, tasks: seq<(Path, Inode)>, want: Want, pending: set<Path>,
    store: Option<SlabSource>, p: Path)
    requires Ready(fs, want, pending) && TasksWant(order, want, store) && WrittenPaths(order) == WrittenPaths(tasks)
    requires (forall t :: t in order <==> t in tasks) && SkippedBound(fs, tasks)
    requires p in pending ==> p in TaskPaths(tasks)
    ensures var mid, wrong := RunTasks(fs, order, store), SkippedWrong(fs, tasks, want);
      mid.Read(p) == want(p) <==> !(p in mid.names && mid.names[p] in wrong)
  {
    TasksSettle(fs, order, want, pending, store);
    TasksBind(SharingOf(fs), order);
    TasksShare(fs, order, store);
    var mid, wrong := RunTasks(fs, order, store), SkippedWrong(fs, tasks, want);
    hide RunTasks, BindTasks, Writes, Streamed;
    assert Refreshed(fs, order, p) <==> Refreshed(fs, tasks, p);
    if p in fs.names {
      SkippedReads(fs, order, want, pending, store, p);
      if fs.names[p] in wrong {
        var t :| t in tasks && t.0 in fs.names && fs.Read(t.0) != want(t.0) && !Refreshed(fs, tasks, t.0)
          && fs.names[t.0] == fs.names[p];
        assert fs.Same(t.0, p) && want(t.0) == want(p) && fs.Read(t.0) == fs.Read(p);
        assert !Refreshed(fs, tasks, p);
      } else if p in pending && p !in WrittenPaths(tasks) {
        var t :| t in tasks && t.0 == p;
        assert fs.Read(p) == want(p) || Refreshed(fs, tasks, p);
      }
    } else {
      assert p in mid.names ==> mid.names[p] !in wrong;
    }
  }

  /**
   * The exact condition on the destination, the plan and the link policy, which can be checked beforehand: a
   * skipped path is there already, and following which names share objects, copying them onto themselves or
   * from skipped paths leaves nothing wrong. Any one order of the tasks serves.
   */
  ghost predicate PlanSound(fs: Fs, events: seq<Event>, store: Option<SlabSource>, policy: LinkPolicy) {
    var s, want := PhaseOne(events), WantedBy(fs, events, store);
    && SkippedBound(fs, s.tasks)
    && LeftWrong(BindTasks(SharingOf(fs), s.tasks), s.links, policy, want, SkippedWrong(fs, s.tasks, want)) == {}
  }

  /** Whatever order the workers finish in, names share objects alike. */
  lemma OrdersAlike(fs: Fs, order: seq<(Path, Inode)>, tasks: seq<(Path, Inode)>, want: Want)
    requires fs.Valid() && SameTasks(order, tasks)
    ensures Alike(BindTasks(SharingOf(fs), order), BindTasks(SharingOf(fs), tasks),
      SkippedWrong(fs, tasks, want), SkippedWrong(fs, tasks, want))
  {
    SameTasksMembers(order, tasks);
    var s, wrong := SharingOf(fs), SkippedWrong(fs, tasks, want);
    TasksBind(s, order);
    TasksBind(s, tasks);
    var a, b := BindTasks(s, order), BindTasks(s, tasks);
    hide BindTasks, Writes;
    forall p, q ensures a.Same(p, q) <==> b.Same(p, q) {
      assert s.Same(p, q) ==> a.Same(p, q) && b.Same(p, q);
    }
    forall c | c in wrong ensures exists p :: s.Names(p, c) && a.Names(p, c) && b.Names(p, c) {
      var t :| t in tasks && t.0 in fs.names && fs.names[t.0] == c;
      assert s.Names(t.0, c) && a.Names(t.0, c) && b.Names(t.0, c);
    }
  }

  /** Parallel extraction leaves the right bytes everywhere iff names sharing an object agree and the plan is sound. */
  lemma ParallelEndsWellIff(blob: Blob, events: seq<Event>, fs: Fs, order: seq<(Path, Inode)>,
    store: Option<SlabSource>, policy: LinkPolicy)
    requires fs.Valid() && Extractable(blob, events, store) && SameTasks(order, PhaseOne(events).tasks)
    ensures EndsWell(fs, ParallelResult(events, fs, order, store, policy), events, store)
      <==> Agree(fs, events, store) && PlanSound(fs, events, store, policy)
  {
    var s, want := PhaseOne(events), WantedBy(fs, events, store);
    var after, wrong := ParallelResult(events, fs, order, store, policy), SkippedWrong(fs, s.tasks, want);
    PlanWants(blob, events, fs, store);
    SameTasksMembers(order, s.tasks);
    ParallelBinds(events, fs, order, store, policy);
    if Agree(fs, events, store) && SkippedBound(fs, s.tasks) {
      TasksTrack(blob, events, fs, order, store);
      LinksEndWellIff(RunTasks(fs, order, store), s.links, want, wrong, policy);
      TasksShare(fs, order, store);
      OrdersAlike(fs, order, s.tasks, want);
      var a, b := BindTasks(SharingOf(fs), order), BindTasks(SharingOf(fs), s.tasks);
      LinksAlike(a, b, s.links, policy, want, wrong, wrong);
    }
    hide RunTasks, BindTasks, MakeLinks, Streamed, Planned, WantedBy, PhaseOne, LinksRunnable;
    if EndsWell(fs, after, events, store) {
      EndsWellMeansUniform(fs, after, want);
      forall t | t in s.tasks && !Writes(t.1) ensures t.0 in fs.names {
        SkippedIsBound(blob, events, s, fs, after, want, t);
      }
    }
  }

  lemma SkippedIsBound(blob: Blob, events: seq<Event>, s: ParallelState, fs: Fs, after: Fs, want: Want,
    t: (Path, Inode))
    requires Planned(blob, events, s) && t in s.tasks && !Writes(t.1) && t.0 !in LinkNames(s.links)
    requires want(t.0).Some? && Settled(after, want, {})
    requires forall p :: p in after.names && p !in fs.names ==> p in WrittenPaths(s.tasks) || p in LinkNames(s.links)
    ensures t.0 in fs.names
  {
    hide Writes;
    assert after.Read(t.0).Some?;
    forall u | u in s.tasks && u.0 == t.0 ensures u == t {
      OneTaskPerPath(blob, events, s, t, u);
    }
  }

  // ----- A simple condition for the plan to be sound -----

  /** The writing guard admits every reported file. */
  ghost predicate NoneSkipped(events: seq<Event>) {
    forall e :: e in events && e.inode.IsFile() ==> Writes(e.inode)
  }

  /** No link's name shares its target's object in the destination, unless its file is empty. */
  ghost predicate NoLinkedPairs(fs: Fs, events: seq<Event>, store: Option<SlabSource>) {
    NoSelfCopies(SharingOf(fs), PhaseOne(events).links, WantedBy(fs, events, store))
  }

  /** Reported later sights that share an object in the destination are sights of one inode. */
  ghost predicate InodesApart(fs: Fs, events: seq<Event>) {
    Unmixed(SharingOf(fs), PhaseOne(events).links)
  }

  /** With nothing skipped and no linked pairs the plan is sound under any policy. */
  lemma PlanIsSound(blob: Blob, events: seq<Event>, fs: Fs, store: Option<SlabSource>, policy: LinkPolicy)
    requires fs.Valid() && Extractable(blob, events, store)
    requires NoneSkipped(events) && NoLinkedPairs(fs, events, store)
    ensures PlanSound(fs, events, store, policy)
  {
    var s, want := PhaseOne(events), WantedBy(fs, events, store);
    var mid := BindTasks(SharingOf(fs), s.tasks);
    PlanWants(blob, events, fs, store);
    TasksBind(SharingOf(fs), s.tasks);
    hide PhaseOne, WantedBy, BindTasks, Writes, Planned, LinksRunnable, Extractable;
    forall t | t in s.tasks ensures Writes(t.1) { TaskIsEvent(blob, events, s, t); }
    assert SkippedWrong(fs, s.tasks, want) == {};
    forall l | l in s.links && mid.Same(l.1, l.0) ensures want(l.0) == Some([]) {
      assert l.0 in LinkNames(s.links);
      assert l.0 in fs.names && SharingOf(fs).Same(l.1, l.0);
    }
    NoSelfCopiesNothingWrong(mid, s.links, want, policy);
  }

  /** Conversely a sound plan has no linked pairs, unless sights of different inodes share an object. */
  lemma SoundMeansNoLinkedPairs(blob: Blob, events: seq<Event>, fs: Fs, store: Option<SlabSource>, policy: LinkPolicy)
    requires fs.Valid() && Extractable(blob, events, store)
    requires InodesApart(fs, events) && PlanSound(fs, events, store, policy)
    ensures NoLinkedPairs(fs, events, store)
  {
    var s, want := PhaseOne(events), WantedBy(fs, events, store);
    var mid := BindTasks(SharingOf(fs), s.tasks);
    PlanWants(blob, events, fs, store);
    TasksBind(SharingOf(fs), s.tasks);
    hide PhaseOne, WantedBy, BindTasks, Writes, Planned, Extractable;
    hide LinksRunnable, LinksWant;
    forall l, m | l in s.links && m in s.links && mid.Same(l.0, m.0) ensures l.1 == m.1 {
      assert l.0 == m.0 || SharingOf(fs).Same(l.0, m.0);
    }
    forall l | l in s.links && SharingOf(fs).Same(l.1, l.0) ensures want(l.0) == Some([]) {
      if want(l.0) != Some([]) {
        SelfCopyLeavesWrong(mid, s.links, policy, want, SkippedWrong(fs, s.tasks, want), l);
      }
    }
  }
}
