/** Phase one of parallel extraction: every reported file becomes one task or one link. */
module ExtractionPlan {
  import opened Bytes
  import opened Metadata
  import opened Walk
  import opened WalkProperties
  import opened Sinks

  /** The file event became its inode's task. */
  ghost predicate IsTask(s: ParallelState, e: Event) {
    e.inode.number in s.seen && s.seen[e.inode.number] == e.path && (e.path, e.inode) in s.tasks
  }

  /** The file event became a link to the path of its inode's task. */
  ghost predicate IsLink(s: ParallelState, e: Event) {
    && e.inode.number in s.seen
    && s.seen[e.inode.number] != e.path
    && (e.path, s.seen[e.inode.number]) in s.links
    && (s.seen[e.inode.number], e.inode) in s.tasks
  }

  ghost predicate Covered(events: seq<Event>, s: ParallelState) {
    forall e :: e in events && e.inode.IsFile() ==> IsTask(s, e) || IsLink(s, e)
  }

  ghost predicate TasksCome(events: seq<Event>, s: ParallelState) {
    forall t :: t in s.tasks ==> Event(t.0, t.1) in events && t.1.IsFile() && IsTask(s, Event(t.0, t.1))
  }

  ghost predicate LinkComes(events: seq<Event>, s: ParallelState, l: (Path, Path)) {
    exists e :: e in events && e.inode.IsFile() && IsLink(s, e) && l == (e.path, s.seen[e.inode.number])
  }

  ghost predicate LinksCome(events: seq<Event>, s: ParallelState) {
    forall l :: l in s.links ==> LinkComes(events, s, l)
  }

  ghost predicate SeenAreTasks(blob: Blob, s: ParallelState) {
    forall n :: n in s.seen ==>
      InodeByNumber(blob, n).Some? && (s.seen[n], InodeByNumber(blob, n).value) in s.tasks
  }

  ghost predicate DistinctTasks(tasks: seq<(Path, Inode)>) {
    forall i, j :: 0 <= i < j < |tasks| ==> tasks[i].0 != tasks[j].0 && tasks[i].1.number != tasks[j].1.number
  }

  ghost predicate DistinctLinks(links: seq<(Path, Path)>) {
    forall i, j :: 0 <= i < j < |links| ==> links[i].0 != links[j].0
  }

  /** What phase one has established once it has seen `events`. */
  ghost predicate Planned(blob: Blob, events: seq<Event>, s: ParallelState) {
    && Covered(events, s) && TasksCome(events, s) && LinksCome(events, s)
    && SeenAreTasks(blob, s) && DistinctTasks(s.tasks) && DistinctLinks(s.links)
  }

  ghost predicate NewPath(events: seq<Event>, path: Path) {
    forall e :: e in events ==> e.path != path
  }

  /** Earlier tasks and links stay what they were when the state only grows. */
  lemma PlanGrows(events: seq<Event>, s: ParallelState, t: ParallelState)
    requires Covered(events, s) && LinksCome(events, s)
    requires forall n :: n in s.seen ==> n in t.seen && t.seen[n] == s.seen[n]
    requires s.tasks <= t.tasks && s.links <= t.links
    ensures forall e :: IsTask(s, e) ==> IsTask(t, e)
    ensures Covered(events, t)
    ensures forall l :: l in s.links ==> LinkComes(events, t, l)
  {
    assert forall e :: IsLink(s, e) ==> IsLink(t, e);
    forall l | l in s.links ensures LinkComes(events, t, l) {
      assert LinkComes(events, s, l);
      var f :| f in events && f.inode.IsFile() && IsLink(s, f) && l == (f.path, s.seen[f.inode.number]);
      assert IsLink(t, f);
    }
  }

  lemma LinkComesMore(events: seq<Event>, e: Event, s: ParallelState, l: (Path, Path))
    requires LinkComes(events, s, l)
    ensures LinkComes(events + [e], s, l)
  {
    var f :| f in events && f.inode.IsFile() && IsLink(s, f) && l == (f.path, s.seen[f.inode.number]);
    assert f in events + [e];
  }

  lemma PlanTask(blob: Blob, events: seq<Event>, s: ParallelState, e: Event)
    requires Planned(blob, events, s) && NewPath(events, e.path) && Canonical(blob, e.inode)
    requires e.inode.IsFile() && e.inode.number !in s.seen
    ensures Planned(blob, events + [e], ParallelFile(s, e.path, e.inode))
  {
    hide FindInode;
    var t := ParallelFile(s, e.path, e.inode);
    PlanGrows(events, s, t);
    assert IsTask(t, e);
    forall l | l in t.links ensures LinkComes(events + [e], t, l) { LinkComesMore(events, e, t, l); }
    forall x | x in s.tasks ensures x.0 != e.path && x.1.number != e.inode.number {
      assert Event(x.0, x.1) in events;
    }
  }

  lemma PlanLink(blob: Blob, events: seq<Event>, s: ParallelState, e: Event)
    requires Planned(blob, events, s) && NewPath(events, e.path) && Canonical(blob, e.inode)
    requires e.inode.IsFile() && e.inode.number in s.seen
    ensures Planned(blob, events + [e], ParallelFile(s, e.path, e.inode))
  {
    var t := ParallelFile(s, e.path, e.inode);
    PlanGrows(events, s, t);
    assert (t.seen[e.inode.number], e.inode) in s.tasks;
    assert Event(t.seen[e.inode.number], e.inode) in events;
    assert IsLink(t, e) && e in events + [e];
    forall l | l in t.links ensures LinkComes(events + [e], t, l) {
      if l in s.links { LinkComesMore(events, e, t, l); }
    }
    forall l | l in s.links ensures l.0 != e.path {
      assert LinkComes(events, s, l);
    }
  }

  lemma PlanOther(blob: Blob, events: seq<Event>, s: ParallelState, t: ParallelState, e: Event)
    requires Planned(blob, events, s) && !e.inode.IsFile()
    requires t.tasks == s.tasks && t.links == s.links && t.seen == s.seen
    ensures Planned(blob, events + [e], t)
  {
    PlanGrows(events, s, t);
    forall l | l in t.links ensures LinkComes(events + [e], t, l) { LinkComesMore(events, e, t, l); }
  }

  lemma {:induction false} PlanRun(blob: Blob, done: seq<Event>, s: ParallelState, rest: seq<Event>)
    requires Planned(blob, done, s) && DistinctPaths(done + rest)
    requires forall e :: e in rest ==> Canonical(blob, e.inode)
    ensures Feed(ParallelStep, s, rest).1 && Planned(blob, done + rest, Feed(ParallelStep, s, rest).0)
    decreases |rest|
  {
    if rest == [] {
      assert done + rest == done;
    } else {
      var e := rest[0];
      forall f | f in done ensures f.path != e.path {
        var i :| 0 <= i < |done| && done[i] == f;
        assert (done + rest)[i].path != (done + rest)[|done|].path;
      }
      var next := ParallelStep(s, e).0;
      if !e.inode.IsFile() {
        PlanOther(blob, done, s, next, e);
      } else if e.inode.number in s.seen {
        PlanLink(blob, done, s, e);
      } else {
        PlanTask(blob, done, s, e);
      }
      assert (done + [e]) + rest[1..] == done + rest;
      PlanRun(blob, done + [e], next, rest[1..]);
    }
  }

  /**
   * Phase one partitions the reported files: each is a task or a link, never both; task inode
   * numbers and paths are distinct; every link points at its inode's task.
   */
  lemma PhaseOnePartitions(blob: Blob, events: seq<Event>, e: Event)
    requires DistinctPaths(events) && forall f :: f in events ==> Canonical(blob, f.inode)
    requires e in events && e.inode.IsFile()
    ensures var s := Feed(ParallelStep, EMPTY_PARALLEL, events).0;
      && DistinctTasks(s.tasks) && DistinctLinks(s.links)
      && ((e.path, e.inode) in s.tasks <==> !exists target :: (e.path, target) in s.links)
      && (forall target :: (e.path, target) in s.links ==> (target, e.inode) in s.tasks)
  {
    assert [] + events == events;
    PlanRun(blob, [], EMPTY_PARALLEL, events);
    var s := Feed(ParallelStep, EMPTY_PARALLEL, events).0;
    forall target | (e.path, target) in s.links ensures IsLink(s, e) && target == s.seen[e.inode.number] {
      assert LinkComes(events, s, (e.path, target));
      var f :| f in events && f.inode.IsFile() && IsLink(s, f) && f.path == e.path && target == s.seen[f.inode.number];
      SamePathSameEvent(events, e, f);
    }
    assert IsTask(s, e) || IsLink(s, e);
  }

  // ----- Names of tasks and links -----

  ghost function FilePaths(events: seq<Event>): set<Path> {
    set e | e in events && e.inode.IsFile() :: e.path
  }

  ghost function TaskPaths(tasks: seq<(Path, Inode)>): set<Path> {
    set t | t in tasks :: t.0
  }

  ghost function LinkNames(links: seq<(Path, Path)>): set<Path> {
    set l | l in links :: l.0
  }

  /** Link targets are not themselves link names, so they are settled before any link is made. */
  ghost predicate LinksRunnable(links: seq<(Path, Path)>) {
    DistinctLinks(links) && forall l :: l in links ==> l.1 !in LinkNames(links)
  }

  lemma TaskIsEvent(blob: Blob, events: seq<Event>, s: ParallelState, t: (Path, Inode))
    requires Planned(blob, events, s) && t in s.tasks
    ensures Event(t.0, t.1) in events && t.1.IsFile() && t.1.number in s.seen && s.seen[t.1.number] == t.0
  {
    assert IsTask(s, Event(t.0, t.1));
  }

  lemma OneTaskPerPath(blob: Blob, events: seq<Event>, s: ParallelState, t: (Path, Inode), u: (Path, Inode))
    requires Planned(blob, events, s) && t in s.tasks && u in s.tasks && t.0 == u.0
    ensures t == u
  {
    var i :| 0 <= i < |s.tasks| && s.tasks[i] == t;
    var j :| 0 <= j < |s.tasks| && s.tasks[j] == u;
  }

  lemma PlanCovers(blob: Blob, events: seq<Event>, s: ParallelState)
    requires Planned(blob, events, s)
    ensures FilePaths(events) <= LinkNames(s.links) + TaskPaths(s.tasks)
  {
    forall e | e in events && e.inode.IsFile() ensures e.path in LinkNames(s.links) + TaskPaths(s.tasks) {
      assert IsTask(s, e) || IsLink(s, e);
    }
  }

  /** A link is a reported file whose inode has its task at the target. */
  lemma LinkIsEvent(blob: Blob, events: seq<Event>, s: ParallelState, l: (Path, Path)) returns (e: Event)
    requires Planned(blob, events, s) && l in s.links
    ensures e in events && e.inode.IsFile() && e.path == l.0 && (l.1, e.inode) in s.tasks
  {
    assert LinkComes(events, s, l);
    e :| e in events && e.inode.IsFile() && IsLink(s, e) && l == (e.path, s.seen[e.inode.number]);
  }

  lemma LinkNameIsNoTask(blob: Blob, events: seq<Event>, s: ParallelState, l: (Path, Path))
    requires DistinctPaths(events) && Planned(blob, events, s) && l in s.links
    ensures l.0 !in TaskPaths(s.tasks)
  {
    assert LinkComes(events, s, l);
    var e :| e in events && e.inode.IsFile() && IsLink(s, e) && l == (e.path, s.seen[e.inode.number]);
    forall t | t in s.tasks ensures t.0 != l.0 {
      TaskIsEvent(blob, events, s, t);
      if t.0 == l.0 { SamePathSameEvent(events, e, Event(t.0, t.1)); }
    }
  }

  lemma PlanRunnable(blob: Blob, events: seq<Event>, s: ParallelState)
    requires DistinctPaths(events) && Planned(blob, events, s)
    ensures LinksRunnable(s.links)
  {
    forall l, m | l in s.links && m in s.links ensures l.1 != m.0 {
      var e := LinkIsEvent(blob, events, s, l);
      LinkNameIsNoTask(blob, events, s, m);
    }
  }
}
