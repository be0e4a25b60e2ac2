/** Names of one inode stay names of one file: both extractions restore hard links wherever they may. */
module HardLinks {
  import opened Bytes
  import opened Metadata
  import opened Walk
  import opened WalkProperties
  import opened FileReaders
  import opened Sinks
  import opened ExtractionPlan
  import opened Destinations
  import opened Extraction

  // ----- Sequential extraction -----

  /** The recorded first paths are bound. */
  ghost predicate SeenBound(s: SequentialState) {
    s.fs.Valid() && forall n :: n in s.seen ==> s.seen[n] in s.fs.names
  }

  /** One callback binds at most its own path, and does not forget a first path. */
  lemma StepKeeps(s: SequentialState, e: Event, store: Option<SlabSource>, policy: LinkPolicy)
    requires SeenBound(s)
    ensures var t := FilesystemStep(store, policy, s, e).0;
      && SeenBound(t) && NamesKept(s.fs, t.fs)
      && (forall p :: p in t.fs.names && p != e.path ==> p in s.fs.names)
      && (forall n :: n in s.seen ==> n in t.seen && t.seen[n] == s.seen[n])
      && (forall n :: n in t.seen && !(e.inode.IsFile() && n == e.inode.number) ==> n in s.seen)
      && (e.inode.IsFile() && e.inode.number !in s.seen ==>
            e.inode.number in t.seen && t.seen[e.inode.number] == e.path)
  {
    hide Streamed, Delivered;
  }

  /** A later sight is linked to the first path where the name is free and the link permitted. */
  lemma SecondSight(s: SequentialState, e: Event, store: Option<SlabSource>, policy: LinkPolicy)
    requires SeenBound(s) && e.inode.IsFile() && e.inode.number in s.seen
    requires e.path !in s.fs.names && policy(e.path)
    ensures FilesystemStep(store, policy, s, e).0.fs.Same(s.seen[e.inode.number], e.path)
  {
    hide Streamed, Delivered;
  }

  lemma {:induction false} LaterSightShares(s: SequentialState, events: seq<Event>, store: Option<SlabSource>,
    policy: LinkPolicy, k: nat)
    requires SeenBound(s) && k < |events| && events[k].inode.IsFile() && events[k].inode.number in s.seen
    requires DistinctPaths(events) && events[k].path !in s.fs.names && policy(events[k].path)
    requires Feed(FilesystemSteps(store, policy), s, events).1
    ensures Feed(FilesystemSteps(store, policy), s, events).0.fs.Same(s.seen[events[k].inode.number], events[k].path)
    decreases k
  {
    var next := FilesystemStep(store, policy, s, events[0]).0;
    StepKeeps(s, events[0], store, policy);
    if k == 0 {
      SecondSight(s, events[0], store, policy);
      SequentialKeepsNames(next, events[1..], store, policy);
    } else {
      DistinctRest(events);
      assert events[0].path != events[k].path;
      hide FilesystemStep, SeenBound;
      LaterSightShares(next, events[1..], store, policy, k - 1);
    }
  }

  lemma {:induction false} FirstSightShares(s: SequentialState, events: seq<Event>, store: Option<SlabSource>,
    policy: LinkPolicy, i: nat, k: nat)
    requires SeenBound(s) && i < k < |events| && events[i].inode.IsFile() && events[k].inode.IsFile()
    requires events[i].inode.number == events[k].inode.number && events[k].inode.number !in s.seen
    requires forall j :: 0 <= j < i && events[j].inode.IsFile() ==> events[j].inode.number != events[i].inode.number
    requires DistinctPaths(events) && events[k].path !in s.fs.names && policy(events[k].path)
    requires Feed(FilesystemSteps(store, policy), s, events).1
    ensures Feed(FilesystemSteps(store, policy), s, events).0.fs.Same(events[i].path, events[k].path)
    decreases i
  {
    var next := FilesystemStep(store, policy, s, events[0]).0;
    StepKeeps(s, events[0], store, policy);
    DistinctRest(events);
    assert events[0].path != events[k].path;
    hide FilesystemStep, SeenBound;
    if i == 0 {
      LaterSightShares(next, events[1..], store, policy, k - 1);
    } else {
      FirstSightShares(next, events[1..], store, policy, i - 1, k - 1);
    }
  }

  /**
   * After sequential extraction the path of a later sight of an inode names the same file as the path of its
   * first sight, if it was free and the operating system permits the link.
   */
  lemma SequentialKeepsLinks(events: seq<Event>, fs: Fs, store: Option<SlabSource>, policy: LinkPolicy, i: nat, k: nat)
    requires fs.Valid() && DistinctPaths(events) && SequentialResult(events, fs, store, policy).1
    requires i < k < |events| && events[i].inode.IsFile() && events[k].inode.IsFile()
    requires events[i].inode.number == events[k].inode.number
    requires forall j :: 0 <= j < i && events[j].inode.IsFile() ==> events[j].inode.number != events[i].inode.number
    requires events[k].path !in fs.names && policy(events[k].path)
    ensures SequentialResult(events, fs, store, policy).0.fs.Same(events[i].path, events[k].path)
  {
    FirstSightShares(SequentialState(fs, map[], [], []), events, store, policy, i, k);
  }

  // ----- Parallel extraction -----

  lemma {:induction false} LinkedNamesShare(s: Sharing, links: seq<(Path, Path)>, policy: LinkPolicy, l: (Path, Path))
    returns (after: Sharing)
    requires s.Valid() && DistinctLinks(links) && l in links
    requires l.1 in s.names && l.0 !in s.names && policy(l.0)
    ensures after == BindLinks(s, links, policy) && after.Same(l.1, l.0)
    decreases |links|
  {
    after := BindLinks(s, links, policy);
    var first, rest, next := links[0], links[1..], BindLink(s, links[0], policy);
    assert links == [first] + rest;
    LinkBinds(s, first, policy);
    forall i, j | 0 <= i < j < |rest| ensures rest[i].0 != rest[j].0 {
      assert links[i + 1].0 != links[j + 1].0;
    }
    if first == l {
      BindLinksKeeps(next, rest, policy);
    } else {
      assert l in rest;
      var i :| 0 <= i < |rest| && rest[i] == l;
      assert links[0].0 != links[i + 1].0;
      var same := LinkedNamesShare(next, rest, policy, l);
    }
  }

  /** Which names share an object after all the links. */
  function BindLinks(s: Sharing, links: seq<(Path, Path)>, policy: LinkPolicy): Sharing
    decreases |links|
  {
    if links == [] then s else BindLinks(BindLink(s, links[0], policy), links[1..], policy)
  }

  lemma {:induction false} BindLinksKeeps(s: Sharing, links: seq<(Path, Path)>, policy: LinkPolicy)
    requires s.Valid()
    ensures forall p :: p in s.names ==> p in BindLinks(s, links, policy).names
    ensures forall p :: p in s.names ==> BindLinks(s, links, policy).names[p] == s.names[p]
    decreases |links|
  {
    hide BindLink;
    if links != [] {
      LinkBinds(s, links[0], policy);
      BindLinksKeeps(BindLink(s, links[0], policy), links[1..], policy);
    }
  }

  lemma {:induction false} LinksAreBound(fs: Fs, links: seq<(Path, Path)>, policy: LinkPolicy)
    requires fs.Valid()
    ensures SharingOf(MakeLinks(fs, links, policy)) == BindLinks(SharingOf(fs), links, policy)
    decreases |links|
  {
    hide MakeLink, BindLink;
    if links != [] {
      LinkShares(fs, links[0], policy);
      LinksAreBound(MakeLink(fs, links[0], policy), links[1..], policy);
    }
  }

  /** The same after parallel extraction, of every link and its target, unless the target's inode is skipped. */
  lemma ParallelKeepsLinks(blob: Blob, events: seq<Event>, fs: Fs, order: seq<(Path, Inode)>,
    store: Option<SlabSource>, policy: LinkPolicy, l: (Path, Path))
    requires fs.Valid() && DistinctPaths(events) && (forall e :: e in events ==> Canonical(blob, e.inode))
    requires SameTasks(order, PhaseOne(events).tasks) && NoneSkipped(events)
    requires l in PhaseOne(events).links && l.0 !in fs.names && policy(l.0)
    ensures ParallelResult(events, fs, order, store, policy).Same(l.1, l.0)
  {
    var s := PhaseOne(events);
    assert [] + events == events;
    PlanRun(blob, [], EMPTY_PARALLEL, events);
    var e := LinkIsEvent(blob, events, s, l);
    LinkNameIsNoTask(blob, events, s, l);
    SameTasksMembers(order, s.tasks);
    TasksShare(fs, order, store);
    TasksBind(SharingOf(fs), order);
    hide PhaseOne, RunTasks, BindTasks, Writes, Canonical;
    var mid := RunTasks(fs, order, store);
    assert (l.1, e.inode) in order && Writes(e.inode);
    assert l.1 in WrittenPaths(order) && l.0 !in WrittenPaths(order);
    LinksAreBound(mid, s.links, policy);
    var after := LinkedNamesShare(SharingOf(mid), s.links, policy, l);
  }
}
