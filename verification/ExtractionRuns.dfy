/** Extraction end to end: the walk, the sinks, the two outcomes, and inputs at which they part. */
module ExtractionRuns {
  import opened Bytes
  import opened Metadata
  import opened TreePaths
  import opened Walk
  import opened WalkProperties
  import opened ReportedPaths
  import opened FileReaders
  import opened Sinks
  import opened ExtractionPlan
  import opened Destinations
  import opened Extraction
  import DirectoryNode
  import ContentHandles

  // ----- Both ways over a whole walk -----

  /** Sequential extraction writes while the walk is under way, so a failed walk leaves what was reported before. */
  ghost function SequentialExtract(blob: Blob, windows: bool, root: u64, fs: Fs, store: Option<SlabSource>,
    policy: LinkPolicy)
    : (SequentialState, bool)
  {
    var (state, ok) := SequentialResult(Reports(blob, windows, root), fs, store, policy);
    (state, ok && WalkTree(blob, windows, root).error.None?)
  }

  /** The error that is looked at after the tasks. */
  ghost predicate FirstTaskFails(tasks: seq<(Path, Inode)>, store: Option<SlabSource>) {
    tasks != [] && TaskFails(tasks[0], store)
  }

  /** Parallel extraction returns on a failed walk before any task runs, and on a failed first task before the links. */
  ghost function ParallelExtract(blob: Blob, windows: bool, root: u64, fs: Fs, order: seq<(Path, Inode)>,
    store: Option<SlabSource>, policy: LinkPolicy): (Fs, bool)
  {
    var events := Reports(blob, windows, root);
    if WalkTree(blob, windows, root).error.Some? then (fs, false)
    else if FirstTaskFails(PhaseOne(events).tasks, store) then (RunTasks(fs, order, store), false)
    else (ParallelResult(events, fs, order, store, policy), true)
  }

  /** The same bytes at every path. */
  ghost predicate SameFiles(a: Fs, b: Fs) { forall p :: a.Read(p) == b.Read(p) }

  /** The paths handed to the sinks are the names followed, and no two are the same. */
  ghost predicate Placeable(blob: Blob, windows: bool, root: u64) {
    BlobHasUniqueNames(blob) && NoDrives(windows, WalkTree(blob, windows, root).events)
  }

  lemma ReportsPlaceable(blob: Blob, windows: bool, root: u64)
    requires Placeable(blob, windows, root)
    ensures DistinctPaths(Reports(blob, windows, root))
    ensures forall e :: e in Reports(blob, windows, root) ==> Canonical(blob, e.inode)
  {
    ReportsAsNamed(blob, windows, root);
    PathsDistinct(blob, windows, root);
    if InodeByNumber(blob, root).Some? {
      DirSound(blob, windows, InodeByNumber(blob, root).value, InodeByNumber(blob, root).value, [], []);
    }
  }

  lemma WalkExtractable(blob: Blob, windows: bool, root: u64, store: Option<SlabSource>)
    requires Placeable(blob, windows, root) && Readable(Reports(blob, windows, root), store)
    ensures Extractable(blob, Reports(blob, windows, root), store)
  {
    hide Streamed;
    ReportsPlaceable(blob, windows, root);
  }

  function DirectoryPath(e: Event): seq<Path> { if e.inode.content.Directory? then [e.path] else [] }

  function LinkTarget(e: Event): seq<(Path, seq<byte>)> {
    match e.inode.content
    case Symlink(target) => [(e.path, target)]
    case _ => []
  }

  /** The paths of the directories reported, in order. */
  function DirectoryPaths(events: seq<Event>): seq<Path> {
    if events == [] then [] else DirectoryPath(events[0]) + DirectoryPaths(events[1..])
  }

  /** The paths and targets of the symbolic links reported, in order. */
  function LinkTargets(events: seq<Event>): seq<(Path, seq<byte>)> {
    if events == [] then [] else LinkTarget(events[0]) + LinkTargets(events[1..])
  }

  lemma StepRecords(e: Event, s: SequentialState, store: Option<SlabSource>, policy: LinkPolicy)
    ensures var t := FilesystemStep(store, policy, s, e).0;
      t.dirs == s.dirs + DirectoryPath(e) && t.symlinks == s.symlinks + LinkTarget(e)
  {
    hide Delivered, Streamed;
  }

  /** Sequential extraction creates the directories and symbolic links reported, in order, with their targets. */
  lemma {:induction false} SequentialRecords(
    events: seq<Event>, s: SequentialState, store: Option<SlabSource>, policy: LinkPolicy)
    requires Feed(FilesystemSteps(store, policy), s, events).1
    ensures var t := Feed(FilesystemSteps(store, policy), s, events).0;
      t.dirs == s.dirs + DirectoryPaths(events) && t.symlinks == s.symlinks + LinkTargets(events)
    decreases |events|
  {
    hide FilesystemStep, DirectoryPath, LinkTarget;
    if events != [] {
      StepRecords(events[0], s, store, policy);
      SequentialRecords(events[1..], FilesystemStep(store, policy, s, events[0]).0, store, policy);
    }
  }

  /** So does phase one of parallel extraction. */
  lemma {:induction false} ParallelRecords(events: seq<Event>, s: ParallelState)
    ensures var t := Feed(ParallelStep, s, events).0;
      t.dirs == s.dirs + DirectoryPaths(events) && t.symlinks == s.symlinks + LinkTargets(events)
    decreases |events|
  {
    hide ParallelStep, DirectoryPath, LinkTarget;
    if events != [] {
      ParallelStepRecords(events[0], s);
      ParallelRecords(events[1..], ParallelStep(s, events[0]).0);
    }
  }

  lemma ParallelStepRecords(e: Event, s: ParallelState)
    ensures ParallelStep(s, e).1
    ensures var t := ParallelStep(s, e).0;
      t.dirs == s.dirs + DirectoryPath(e) && t.symlinks == s.symlinks + LinkTarget(e)
  {
  }

  /** Of readable files no task fails. */
  lemma ReadableTasks(blob: Blob, events: seq<Event>, store: Option<SlabSource>)
    requires DistinctPaths(events) && (forall e :: e in events ==> Canonical(blob, e.inode))
    ensures Readable(events, store) ==> forall t :: t in PhaseOne(events).tasks ==> !TaskFails(t, store)
    ensures NoneSkipped(events) && (forall t :: t in PhaseOne(events).tasks ==> !TaskFails(t, store)) ==>
      Readable(events, store)
  {
    var s := PhaseOne(events);
    assert [] + events == events;
    PlanRun(blob, [], EMPTY_PARALLEL, events);
    hide Streamed, Writes, Canonical, PhaseOne;
    forall t | t in s.tasks && Readable(events, store) ensures !TaskFails(t, store) {
      TaskIsEvent(blob, events, s, t);
      assert Streamed(Event(t.0, t.1).inode, store).Some?;
    }
    if NoneSkipped(events) && forall t :: t in s.tasks ==> !TaskFails(t, store) {
      forall e | e in events && e.inode.IsFile() ensures Streamed(e.inode, store).Some? {
        TaskOfFile(blob, events, s, e);
      }
    }
  }

  /** The task that writes a reported file's inode. */
  lemma TaskOfFile(blob: Blob, events: seq<Event>, s: ParallelState, e: Event)
    requires Planned(blob, events, s) && e in events && e.inode.IsFile()
    ensures e.inode.number in s.seen && (s.seen[e.inode.number], e.inode) in s.tasks
  {
    assert IsTask(s, e) || IsLink(s, e);
  }

  /**
   * Over a destination in which names that share an object agree, parallel extraction leaves the same bytes
   * as sequential extraction at every path: after a successful walk iff the plan is sound, after a failed
   * one iff the destination already held every file reported before the failure.
   */
  lemma ParallelRefinesSequential(blob: Blob, windows: bool, root: u64, fs: Fs, store: Option<SlabSource>,
    order: seq<(Path, Inode)>, policy: LinkPolicy, otherPolicy: LinkPolicy)
    requires Placeable(blob, windows, root) && fs.Valid() && Readable(Reports(blob, windows, root), store)
    requires Agree(fs, Reports(blob, windows, root), store)
    requires SameTasks(order, PhaseOne(Reports(blob, windows, root)).tasks)
    ensures var events, walked := Reports(blob, windows, root), WalkTree(blob, windows, root).error.None?;
      var sequential, ok := SequentialExtract(blob, windows, root, fs, store, policy).0,
                            SequentialExtract(blob, windows, root, fs, store, policy).1;
      var parallel, alsoOk := ParallelExtract(blob, windows, root, fs, order, store, otherPolicy).0,
                              ParallelExtract(blob, windows, root, fs, order, store, otherPolicy).1;
      && ok == walked && alsoOk == walked
      && EndsWell(fs, sequential.fs, events, store)
      && sequential.dirs == DirectoryPaths(events) == PhaseOne(events).dirs
      && sequential.symlinks == LinkTargets(events) == PhaseOne(events).symlinks
      && (SameFiles(parallel, sequential.fs) <==>
            if walked then PlanSound(fs, events, store, otherPolicy) else HoldsFiles(fs, events, store))
  {
    hide Streamed, Agree, PlanSound, ParallelResult, WantedBy, SequentialResult, Readable, SameFiles;
    var events := Reports(blob, windows, root);
    WalkExtractable(blob, windows, root, store);
    ParallelOutcome(blob, windows, root, fs, order, store, otherPolicy);
    SequentialEndsWellIff(blob, events, fs, store, policy);
    ParallelEndsWellIff(blob, events, fs, order, store, otherPolicy);
    EndsWellIff(fs, fs, events, store);
    RecordsBoth(events, fs, store, policy);
    hide Reports, PhaseOne, Placeable, EndsWell, WalkTree, HoldsFiles, Extractable, ParallelExtract;
    var sequential := SequentialResult(events, fs, store, policy).0.fs;
    SameAsWell(fs, sequential, fs, events, store);
    SameAsWell(fs, sequential, ParallelResult(events, fs, order, store, otherPolicy), events, store);
  }

  /** Of readable files parallel extraction runs through once the walk has. */
  lemma ParallelOutcome(blob: Blob, windows: bool, root: u64, fs: Fs, order: seq<(Path, Inode)>,
    store: Option<SlabSource>, policy: LinkPolicy)
    requires Placeable(blob, windows, root) && Readable(Reports(blob, windows, root), store)
    ensures ParallelExtract(blob, windows, root, fs, order, store, policy) ==
      if WalkTree(blob, windows, root).error.Some? then (fs, false)
      else (ParallelResult(Reports(blob, windows, root), fs, order, store, policy), true)
  {
    hide Readable, ParallelResult, TaskFails;
    ReportsPlaceable(blob, windows, root);
    ReadableTasks(blob, Reports(blob, windows, root), store);
  }

  lemma RecordsBoth(events: seq<Event>, fs: Fs, store: Option<SlabSource>, policy: LinkPolicy)
    requires SequentialResult(events, fs, store, policy).1
    ensures var s, t := SequentialResult(events, fs, store, policy).0, PhaseOne(events);
      && s.dirs == DirectoryPaths(events) == t.dirs
      && s.symlinks == LinkTargets(events) == t.symlinks
  {
    hide Feed, DirectoryPaths, LinkTargets, FilesystemSteps;
    var start := SequentialState(fs, map[], [], []);
    SequentialRecords(events, start, store, policy);
    ParallelRecords(events, EMPTY_PARALLEL);
    assert [] + DirectoryPaths(events) == DirectoryPaths(events);
    assert [] + LinkTargets(events) == LinkTargets(events);
  }

  lemma SameAsWell(before: Fs, good: Fs, other: Fs, events: seq<Event>, store: Option<SlabSource>)
    requires EndsWell(before, good, events, store)
    ensures SameFiles(other, good) <==> EndsWell(before, other, events, store)
  {
    hide Wanted;
    var want := WantedBy(before, events, store);
    assert forall p :: good.Read(p) == want(p);
  }

  // ----- Images that came out of the parsers -----

  /** Files of a parsed image are regular, so the writing guard skips none of them. */
  lemma ParsedNoneSkipped(blob: Blob, windows: bool, root: u64)
    requires ContentHandles.InodesParsed(blob)
    ensures NoneSkipped(Reports(blob, windows, root))
  {
    var events, reports := WalkTree(blob, windows, root).events, Reports(blob, windows, root);
    if InodeByNumber(blob, root).Some? {
      DirSound(blob, windows, InodeByNumber(blob, root).value, InodeByNumber(blob, root).value, [], []);
    }
    hide WalkTree, FindInode;
    forall e | e in reports && e.inode.IsFile() ensures Writes(e.inode) {
      var i :| 0 <= i < |reports| && reports[i] == e;
      assert events[i] in events && events[i].inode == e.inode;
      assert Canonical(blob, e.inode) && e.inode in blob.inodes;
      ContentHandles.ParsedFitsType(e.inode);
    }
  }

  /**
   * Of a parsed image whose walk succeeds and passes no drive, both extractions leave the same, right bytes at
   * every path, in any task order and under any link policies, if names sharing an object agree and no link's
   * name is already linked to its target; and only if, unless sights of different inodes share an object.
   */
  lemma ParsedExtractionsAgree(blob: Blob, windows: bool, root: u64, fs: Fs, store: Option<SlabSource>,
    order: seq<(Path, Inode)>, policy: LinkPolicy, otherPolicy: LinkPolicy)
    requires DirectoryNode.NodesParsed(blob) && ContentHandles.InodesParsed(blob)
    requires WalkTree(blob, windows, root).error.None? && NoDrives(windows, WalkTree(blob, windows, root).events)
    requires fs.Valid() && Readable(Reports(blob, windows, root), store)
    requires SameTasks(order, PhaseOne(Reports(blob, windows, root)).tasks)
    ensures var events := Reports(blob, windows, root);
      var sequential := SequentialExtract(blob, windows, root, fs, store, policy).0.fs;
      var parallel := ParallelExtract(blob, windows, root, fs, order, store, otherPolicy).0;
      && (Agree(fs, events, store) && NoLinkedPairs(fs, events, store) ==>
        EndsWell(fs, sequential, events, store) && SameFiles(parallel, sequential))
      && (InodesApart(fs, events) && EndsWell(fs, sequential, events, store) && SameFiles(parallel, sequential) ==>
        Agree(fs, events, store) && NoLinkedPairs(fs, events, store))
  {
    hide Streamed, Agree, PlanSound, ParallelResult, InodesApart, SequentialResult, NoLinkedPairs;
    hide WantedBy, ParallelExtract, DirectoryNode.NodesParsed, ContentHandles.InodesParsed;
    var events := Reports(blob, windows, root);
    DirectoryNode.ParsedPathsDistinct(blob, windows, root);
    ParsedNoneSkipped(blob, windows, root);
    WalkExtractable(blob, windows, root, store);
    hide Reports, NoDrives, WalkTree;
    SequentialEndsWellIff(blob, events, fs, store, policy);
    if Agree(fs, events, store) {
      ParallelRefinesSequential(blob, windows, root, fs, store, order, policy, otherPolicy);
      if NoLinkedPairs(fs, events, store) {
        PlanIsSound(blob, events, fs, store, otherPolicy);
      } else if InodesApart(fs, events) && PlanSound(fs, events, store, otherPolicy) {
        SoundMeansNoLinkedPairs(blob, events, fs, store, otherPolicy);
      }
    }
  }

  /** A destination that holds none of the reported files meets both conditions. */
  lemma FreshDestination(blob: Blob, events: seq<Event>, fs: Fs, store: Option<SlabSource>)
    requires Extractable(blob, events, store) && forall p :: p in FilePaths(events) ==> p !in fs.names
    ensures Agree(fs, events, store) && NoLinkedPairs(fs, events, store)
  {
    PlanWants(blob, events, fs, store);
    hide Wanted, PhaseOne, Planned, Extractable;
    forall p, q | fs.Same(p, q) ensures Wanted(fs, events, store, p) == Wanted(fs, events, store, q) {
      WantedElsewhere(fs, events, store, p);
      WantedElsewhere(fs, events, store, q);
    }
    forall l | l in PhaseOne(events).links ensures l.0 !in fs.names {
      var e := LinkIsEvent(blob, events, PhaseOne(events), l);
      assert e.path in FilePaths(events);
    }
  }

  // ----- The programs -----

  /** The tree walk with a `FilesystemSink`. */
  method ExtractSequentially(blob: Blob, windows: bool, root: u64, fs: Fs, store: Option<SlabSource>,
    policy: LinkPolicy)
    returns (after: Fs, ok: bool)
    requires fs.Valid()
    ensures (after, ok) == (SequentialExtract(blob, windows, root, fs, store, policy).0.fs,
                            SequentialExtract(blob, windows, root, fs, store, policy).1)
    ensures var events := Reports(blob, windows, root);
      Placeable(blob, windows, root) && Readable(events, store) ==>
        && (EndsWell(fs, after, events, store) <==> Agree(fs, events, store))
        && (Agree(fs, events, store) ==> (ok <==> WalkTree(blob, windows, root).error.None?))
  {
    hide Streamed, Agree, EndsWell, Placeable;
    var events, walked := Callbacks(blob, windows, root);
    var sink := new FilesystemSink(fs, store, policy);
    ok := sink.Consume(events);
    if Placeable(blob, windows, root) && Readable(events, store) {
      WalkExtractable(blob, windows, root, store);
      SequentialEndsWellIff(blob, events, fs, store, policy);
    }
    return sink.fs, ok && walked;
  }

  /** The order in which a pool of workers happens to finish. */
  method AnyOrder(tasks: seq<(Path, Inode)>) returns (order: seq<(Path, Inode)>)
    ensures SameTasks(order, tasks)
  {
    order := [];
    var left := tasks;
    while left != []
      invariant multiset(order) + multiset(left) == multiset(tasks)
      decreases |left|
    {
      var i :| 0 <= i < |left|;
      assert left == left[..i] + [left[i]] + left[i + 1..];
      order := order + [left[i]];
      left := left[..i] + left[i + 1..];
    }
  }

  /** Every file could be read and is there, and nothing else has changed. */
  ghost predicate Complete(before: Fs, after: Fs, events: seq<Event>, store: Option<SlabSource>) {
    Readable(events, store) && EndsWell(before, after, events, store)
  }

  ghost predicate LaterTasksRun(tasks: seq<(Path, Inode)>, store: Option<SlabSource>) {
    forall i :: 0 < i < |tasks| ==> !TaskFails(tasks[i], store)
  }

  /** What a success says: all is there iff in addition no later task failed, and the destination was fit. */
  lemma SuccessIsCompleteIff(blob: Blob, windows: bool, root: u64, fs: Fs, order: seq<(Path, Inode)>,
    store: Option<SlabSource>, policy: LinkPolicy)
    requires Placeable(blob, windows, root) && NoneSkipped(Reports(blob, windows, root)) && fs.Valid()
    requires SameTasks(order, PhaseOne(Reports(blob, windows, root)).tasks)
    requires ParallelExtract(blob, windows, root, fs, order, store, policy).1
    ensures var events := Reports(blob, windows, root);
      Complete(fs, ParallelExtract(blob, windows, root, fs, order, store, policy).0, events, store) <==>
        && LaterTasksRun(PhaseOne(events).tasks, store)
        && Agree(fs, events, store) && PlanSound(fs, events, store, policy)
  {
    hide Streamed, Agree, PlanSound, ParallelResult, WantedBy, TaskFails, NoneSkipped;
    var events := Reports(blob, windows, root);
    ReportsPlaceable(blob, windows, root);
    ReadableTasks(blob, events, store);
    hide Reports, PhaseOne, Placeable, WalkTree;
    var tasks := PhaseOne(events).tasks;
    assert LaterTasksRun(tasks, store) <==> forall t :: t in tasks ==> !TaskFails(t, store) by {
      if LaterTasksRun(tasks, store) {
        forall t | t in tasks ensures !TaskFails(t, store) {
          var i :| 0 <= i < |tasks| && tasks[i] == t;
        }
      }
    }
    if Readable(events, store) { ParallelEndsWellIff(blob, events, fs, order, store, policy); }
  }

  /** `extract`: phase one, and only after a successful walk the tasks and the links. */
  method ExtractInParallel(blob: Blob, windows: bool, root: u64, fs: Fs, store: Option<SlabSource>, policy: LinkPolicy)
    returns (after: Fs, ok: bool)
    requires fs.Valid()
    ensures ok <==>
      && WalkTree(blob, windows, root).error.None?
      && !FirstTaskFails(PhaseOne(Reports(blob, windows, root)).tasks, store)
    ensures exists order ::
      && SameTasks(order, PhaseOne(Reports(blob, windows, root)).tasks)
      && (after, ok) == ParallelExtract(blob, windows, root, fs, order, store, policy)
    ensures var events := Reports(blob, windows, root);
      ok && Placeable(blob, windows, root) && NoneSkipped(events) ==>
        (Complete(fs, after, events, store) <==>
          && LaterTasksRun(PhaseOne(events).tasks, store)
          && Agree(fs, events, store) && PlanSound(fs, events, store, policy))
  {
    hide Streamed, Agree, PlanSound, Writes, RunTasks, MakeLinks;
    hide Placeable, NoneSkipped, Complete, LaterTasksRun, TaskFails;
    var events, walked := Callbacks(blob, windows, root);
    var sink := new ParallelExtractSink();
    sink.Consume(events);
    var order := AnyOrder(sink.tasks);
    if walked {
      after, ok := FinishExtraction(fs, sink.tasks, order, sink.links, store, policy);
    } else {
      after, ok := fs, false;
    }
    hide Reports;
    assert (after, ok) == ParallelExtract(blob, windows, root, fs, order, store, policy);
    if ok && Placeable(blob, windows, root) && NoneSkipped(events) {
      SuccessIsCompleteIff(blob, windows, root, fs, order, store, policy);
    }
  }

  // ----- Inputs at which the two part, or both go wrong -----

  lemma InlineStreams(inode: Inode, data: seq<byte>, store: Option<SlabSource>)
    requires inode.content == InlineData(data)
    ensures Streamed(inode, store) == Some(data) && Delivered(ItemsOf(inode, store)) == data
  {
    var items := ItemsOf(inode, store);
    assert items == [Some(data)] && AllOk(items);
    var none: Items := [];
    assert items[1..] == none && Concat(none) == [] && Delivered(none) == [];
    assert Concat(items) == data + Concat(none) && data + Concat(none) == data;
    assert Delivered(items) == data + Delivered(none);
  }

  const FILE_A: Name := [0x61]
  const FILE_B: Name := [0x62]

  function AnyHash(): Digest { seq(32, _ => 0) }

  const CORRUPT_ROOT := Inode(1, S_IFDIR, Directory(AnyHash()))
  const CORRUPT_FILE := Inode(2, S_IFREG, InlineData([42]))

  /** A root with a file `a` and an entry `b` that leads nowhere. */
  function CorruptBlob(): Blob {
    Blob([CORRUPT_ROOT, CORRUPT_FILE], [[DirEntry(FILE_A, 2, 1), DirEntry(FILE_B, 99, 1)]], _ => AnyHash())
  }

  lemma CorruptWalk(windows: bool)
    ensures WalkTree(CorruptBlob(), windows, 1)
         == Walked([Event([], CORRUPT_ROOT), Event([FILE_A], CORRUPT_FILE)], [1], Some(InodeMissing(99)))
  {
    var blob := CorruptBlob();
    var node := blob.dirNodes[0];
    assert blob.inodes[1..] == [CORRUPT_FILE] && blob.inodes[1..][1..] == [];
    assert InodeByNumber(blob, 1) == Some(CORRUPT_ROOT) && InodeByNumber(blob, 2) == Some(CORRUPT_FILE);
    assert InodeByNumber(blob, 99) == None;
    assert NodeByHash(blob, AnyHash()) == Some(node);
    assert ValidTreeName(FILE_A, windows) && ValidTreeName(FILE_B, windows);
    assert node[1..] == [DirEntry(FILE_B, 99, 1)];
    hide FindInode, FindNode, ValidTreeName;
    RootEntries(blob, windows, 1);
    FileEntry(blob, windows, node, [], [1]);
    assert [] + [FILE_A] == [FILE_A];
    assert WalkEntries(blob, windows, node[1..], [], [1]) == Walked([], [1], Some(InodeMissing(99)));
  }

  /** Top-level names without a drive are handed over as they are. */
  lemma TopLevelSpelled(windows: bool, name: Name)
    requires !DrivePrefixed(name)
    ensures Spelled(windows, []) == [] && Spelled(windows, [name]) == [name]
  {
    assert Parent([name]) == [] && [] + [name] == [name];
  }

  /** On a corrupt tree sequential extraction leaves files behind and parallel extraction leaves none. */
  lemma CorruptTreeParts(windows: bool, order: seq<(Path, Inode)>, store: Option<SlabSource>, policy: LinkPolicy)
    ensures var empty := Fs(map[], []);
      && SequentialExtract(CorruptBlob(), windows, 1, empty, store, policy).0.fs.Read([FILE_A]) == Some([42])
      && ParallelExtract(CorruptBlob(), windows, 1, empty, order, store, policy).0.Read([FILE_A]) == None
  {
    CorruptWalk(windows);
    TopLevelSpelled(windows, FILE_A);
    InlineStreams(CORRUPT_FILE, [42], store);
    hide WalkTree;
    var events := [Event([], CORRUPT_ROOT), Event([FILE_A], CORRUPT_FILE)];
    assert Reports(CorruptBlob(), windows, 1) == events;
    var sink, start := FilesystemSteps(store, policy), SequentialState(Fs(map[], []), map[], [], []);
    assert events[1..] == [Event([FILE_A], CORRUPT_FILE)] && events[1..][1..] == [];
    var mid := sink(start, events[0]).0;
    assert sink(start, events[0]).1 && mid.fs == start.fs && mid.seen == start.seen;
    var end := sink(mid, events[1]);
    assert end.1 && end.0.fs.Read([FILE_A]) == Some([42]);
    assert Feed(sink, mid, events[1..]) == Feed(sink, end.0, []);
  }

  // ----- Two files below a root -----

  /** Two files, possibly one inode twice, apart from the root by number. */
  ghost predicate Pair(first: Inode, second: Inode) {
    && first.IsFile() && second.IsFile() && first.number != 1 && second.number != 1
    && (first.number == second.number ==> first == second)
  }

  /** A root with the files `a` and `b`. */
  function PairBlob(first: Inode, second: Inode): Blob {
    Blob([CORRUPT_ROOT, first, second],
      [[DirEntry(FILE_A, first.number, 1), DirEntry(FILE_B, second.number, 1)]], _ => AnyHash())
  }

  function PairEvents(first: Inode, second: Inode): seq<Event> {
    [Event([], CORRUPT_ROOT), Event([FILE_A], first), Event([FILE_B], second)]
  }

  lemma PairLookups(first: Inode, second: Inode, windows: bool)
    requires Pair(first, second)
    ensures var blob := PairBlob(first, second);
      && InodeByNumber(blob, 1) == Some(CORRUPT_ROOT) && NodeByHash(blob, AnyHash()) == Some(blob.dirNodes[0])
      && InodeByNumber(blob, first.number) == Some(first) && InodeByNumber(blob, second.number) == Some(second)
    ensures ValidTreeName(FILE_A, windows) && ValidTreeName(FILE_B, windows)
  {
    var blob := PairBlob(first, second);
    assert blob.inodes[1..] == [first, second] && blob.inodes[1..][1..] == [second];
  }

  lemma PairWalk(first: Inode, second: Inode, windows: bool)
    requires Pair(first, second)
    ensures WalkTree(PairBlob(first, second), windows, 1) == Walked(PairEvents(first, second), [1], None)
    ensures Reports(PairBlob(first, second), windows, 1) == PairEvents(first, second)
  {
    PairLookups(first, second, windows);
    var blob := PairBlob(first, second);
    var node := [DirEntry(FILE_A, first.number, 1), DirEntry(FILE_B, second.number, 1)];
    assert blob.dirNodes[0] == node;
    hide FindInode, FindNode, ValidTreeName, PairBlob, WalkEntries, WalkTree, AnyHash;
    RootEntries(blob, windows, 1);
    PairEntries(blob, first, second, node, windows);
    TopLevelSpelled(windows, FILE_A);
    TopLevelSpelled(windows, FILE_B);
  }

  lemma PairEntries(blob: Blob, first: Inode, second: Inode, node: seq<DirEntry>, windows: bool)
    requires Pair(first, second) && ValidTreeName(FILE_A, windows) && ValidTreeName(FILE_B, windows)
    requires InodeByNumber(blob, first.number) == Some(first) && InodeByNumber(blob, second.number) == Some(second)
    requires node == [DirEntry(FILE_A, first.number, 1), DirEntry(FILE_B, second.number, 1)]
    ensures WalkEntries(blob, windows, node, [], [1])
      == Walked([Event([FILE_A], first), Event([FILE_B], second)], [1], None)
  {
    hide FindInode, FindNode, ValidTreeName;
    assert node[1..] == [node[1]] && node[1..][1..] == [];
    assert WalkEntries(blob, windows, node[1..][1..], [], [1]) == Walked([], [1], None);
    hide WalkEntries;
    FileEntry(blob, windows, node, [], [1]);
    FileEntry(blob, windows, node[1..], [], [1]);
    assert [] + [FILE_A] == [FILE_A] && [] + [FILE_B] == [FILE_B];
  }

  lemma FeedThree<S>(sink: Sink<S>, s: S, e: Event, f: Event, g: Event)
    requires sink(s, e).1 && sink(sink(s, e).0, f).1
    ensures Feed(sink, s, [e, f, g]) == sink(sink(sink(s, e).0, f).0, g)
  {
    var events := [e, f, g];
    assert events[1..] == [f, g] && events[1..][1..] == [g] && events[1..][1..][1..] == [];
    var two := sink(sink(s, e).0, f).0;
    var end := sink(two, g);
    assert Feed(sink, end.0, []) == (end.0, true) && end == (end.0, end.1);
    assert Feed(sink, two, events[1..][1..]) == end;
    assert Feed(sink, sink(s, e).0, events[1..]) == end;
  }

  /** Sequential extraction of both over a destination that has both names. */
  lemma PairSequential(first: Inode, second: Inode, fs: Fs, store: Option<SlabSource>, policy: LinkPolicy)
    requires Pair(first, second) && [FILE_A] in fs.names && [FILE_B] in fs.names
    requires Streamed(first, store).Some? && Streamed(second, store).Some?
    ensures SequentialResult(PairEvents(first, second), fs, store, policy).0.fs
         == fs.Create([FILE_A], Streamed(first, store).value).Create([FILE_B], Streamed(second, store).value)
  {
    StreamedIsDelivered(first, store);
    StreamedIsDelivered(second, store);
    hide Streamed, Delivered;
    var events, sink := PairEvents(first, second), FilesystemSteps(store, policy);
    var start := SequentialState(fs, map[], [], []);
    var top := sink(start, events[0]).0;
    assert sink(start, events[0]).1 && top.fs == fs && top.seen == map[];
    var mid := sink(top, events[1]).0;
    assert sink(top, events[1]).1 && mid.fs == fs.Create([FILE_A], Streamed(first, store).value);
    var end := sink(mid, events[2]);
    assert end.0.fs == mid.fs.Create([FILE_B], Streamed(second, store).value);
    FeedThree(sink, start, events[0], events[1], events[2]);
  }

  lemma PairPlan(first: Inode, second: Inode)
    requires Pair(first, second)
    ensures var s := PhaseOne(PairEvents(first, second));
      if first.number == second.number then s.tasks == [([FILE_A], first)] && s.links == [([FILE_B], [FILE_A])]
      else s.tasks == [([FILE_A], first), ([FILE_B], second)] && s.links == []
  {
    var events := PairEvents(first, second);
    FeedThree(ParallelStep, EMPTY_PARALLEL, events[0], events[1], events[2]);
  }

  lemma PairWanted(first: Inode, second: Inode, fs: Fs, store: Option<SlabSource>)
    requires Pair(first, second)
    ensures Wanted(fs, PairEvents(first, second), store, [FILE_A]) == Streamed(first, store)
    ensures Wanted(fs, PairEvents(first, second), store, [FILE_B]) == Streamed(second, store)
  {
    hide Streamed;
    var events := PairEvents(first, second);
    assert events[1..] == [events[1], events[2]] && events[1..][1..] == [events[2]];
    assert Wanted(fs, events[1..][1..], store, [FILE_B]) == Streamed(second, store);
    assert Wanted(fs, events[1..], store, [FILE_B]) == Streamed(second, store);
    assert Wanted(fs, events[1..], store, [FILE_A]) == Streamed(first, store);
  }

  lemma TwoTasks(fs: Fs, t: (Path, Inode), u: (Path, Inode), store: Option<SlabSource>)
    ensures RunTasks(fs, [t], store) == RunTask(fs, t, store)
    ensures RunTasks(fs, [t, u], store) == RunTask(RunTask(fs, t, store), u, store)
  {
    assert [t][1..] == [] && [t, u][1..] == [u] && [u][1..] == [];
    assert RunTasks(RunTask(fs, t, store), [u], store) == RunTask(RunTask(fs, t, store), u, store);
  }

  /** Two files whose paths were hard links to one object beforehand end up with the second one's bytes. */
  lemma SharedDestinationBreaks(a: seq<byte>, b: seq<byte>, before: seq<byte>, windows: bool,
    store: Option<SlabSource>, policy: LinkPolicy)
    requires a != b
    ensures var blob := PairBlob(Inode(2, S_IFREG, InlineData(a)), Inode(3, S_IFREG, InlineData(b)));
      var fs := Fs(map[[FILE_A] := 0, [FILE_B] := 0], [before]);
      && !Agree(fs, Reports(blob, windows, 1), store)
      && SequentialExtract(blob, windows, 1, fs, store, policy).0.fs.Read([FILE_A]) == Some(b)
  {
    var first, second := Inode(2, S_IFREG, InlineData(a)), Inode(3, S_IFREG, InlineData(b));
    var events, fs := PairEvents(first, second), Fs(map[[FILE_A] := 0, [FILE_B] := 0], [before]);
    PairWalk(first, second, windows);
    InlineStreams(first, a, store);
    InlineStreams(second, b, store);
    PairSequential(first, second, fs, store, policy);
    hide WalkTree, Reports, PairBlob, Streamed, SequentialResult;
    PairWanted(first, second, fs, store);
    assert fs.Same([FILE_A], [FILE_B]);
  }

  /**
   * Extracting again over an earlier extraction: the linked pair is rightly rewritten one way and emptied the other.
   */
  lemma ReextractionEmpties(data: seq<byte>, windows: bool, store: Option<SlabSource>, policy: LinkPolicy)
    requires data != []
    ensures var inode := Inode(2, S_IFREG, InlineData(data));
      var blob, fs := PairBlob(inode, inode), Fs(map[[FILE_A] := 0, [FILE_B] := 0], [data]);
      var parallel := ParallelExtract(blob, windows, 1, fs, [([FILE_A], inode)], store, policy);
      && PhaseOne(Reports(blob, windows, 1)).tasks == [([FILE_A], inode)] && Agree(fs, Reports(blob, windows, 1), store)
      && SequentialExtract(blob, windows, 1, fs, store, policy).0.fs.Read([FILE_A]) == Some(data)
      && parallel.1 && parallel.0.Read([FILE_A]) == Some([])
  {
    var inode := Inode(2, S_IFREG, InlineData(data));
    var fs := Fs(map[[FILE_A] := 0, [FILE_B] := 0], [data]);
    PairWalk(inode, inode, windows);
    InlineStreams(inode, data, store);
    PairSequential(inode, inode, fs, store, policy);
    PairPlan(inode, inode);
    TwoTasks(fs, ([FILE_A], inode), ([FILE_A], inode), store);
    hide WalkTree, Reports, PairBlob, Streamed, SequentialResult, PhaseOne, RunTasks;
    var links: seq<(Path, Path)> := [([FILE_B], [FILE_A])];
    assert links[1..] == [];
    assert [data][0 := data] == [data];
    assert MakeLinks(fs, links, policy) == MakeLink(fs, links[0], policy);
    PairWanted(inode, inode, fs, store);
  }

  /** An empty file under a mode that is not regular, which no parser yields: written one way, skipped the other. */
  lemma SkippedFileDiffers(windows: bool, data: seq<byte>, store: Option<SlabSource>, policy: LinkPolicy)
    ensures var skipped, other := Inode(2, 0, InlineData([])), Inode(3, S_IFREG, InlineData(data));
      var blob, fs := PairBlob(skipped, other), Fs(map[[FILE_A] := 0, [FILE_B] := 1], [[1], [1]]);
      var order := [([FILE_A], skipped), ([FILE_B], other)];
      && PhaseOne(Reports(blob, windows, 1)).tasks == order
      && SequentialExtract(blob, windows, 1, fs, store, policy).0.fs.Read([FILE_A]) == Some([])
      && ParallelExtract(blob, windows, 1, fs, order, store, policy).0.Read([FILE_A]) == Some([1])
  {
    var skipped, other := Inode(2, 0, InlineData([])), Inode(3, S_IFREG, InlineData(data));
    var fs := Fs(map[[FILE_A] := 0, [FILE_B] := 1], [[1], [1]]);
    PairWalk(skipped, other, windows);
    InlineStreams(skipped, [], store);
    InlineStreams(other, data, store);
    PairSequential(skipped, other, fs, store, policy);
    PairPlan(skipped, other);
    TwoTasks(fs, ([FILE_A], skipped), ([FILE_B], other), store);
    hide WalkTree, Reports, PairBlob, Streamed, SequentialResult, PhaseOne, RunTasks;
  }

  /** A later file that cannot be read: extraction succeeds and leaves it empty. */
  lemma LaterFailureIgnored(drop: Digest, windows: bool, policy: LinkPolicy)
    ensures var good := Inode(2, S_IFREG, InlineData([42]));
      var bad := Inode(3, S_IFREG, SliceMap([SliceRef(0, 1, drop, 0, 1)]));
      var blob, empty := PairBlob(good, bad), Fs(map[], []);
      var order := [([FILE_A], good), ([FILE_B], bad)];
      var parallel := ParallelExtract(blob, windows, 1, empty, order, None, policy);
      && PhaseOne(Reports(blob, windows, 1)).tasks == order && TaskFails(order[1], None)
      && parallel.1 && parallel.0.Read([FILE_B]) == Some([])
  {
    var good, bad := Inode(2, S_IFREG, InlineData([42])), Inode(3, S_IFREG, SliceMap([SliceRef(0, 1, drop, 0, 1)]));
    var empty := Fs(map[], []);
    PairWalk(good, bad, windows);
    InlineStreams(good, [42], None);
    PairPlan(good, bad);
    TwoTasks(empty, ([FILE_A], good), ([FILE_B], bad), None);
    hide WalkTree, Reports, PairBlob, PhaseOne, RunTasks;
    var items := ItemsOf(bad, None);
    assert items == [None] && Delivered(items) == [];
  }
}
