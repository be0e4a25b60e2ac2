/** The three sinks of the live-tree walk, as the state each keeps and as classes updating it. */
module Sinks {
  import opened Bytes
  import opened Metadata
  import opened Walk
  import opened FileReaders
  import opened SliceMaps

  // ----- A file system small enough to tell links from copies -----

  /** Names bound to file objects; a hard link binds a second name to the same object. */
  datatype Fs = Fs(names: map<Path, nat>, objects: seq<seq<byte>>)
  {
    ghost predicate Valid() { forall p :: p in names ==> names[p] < |objects| }

    function Read(p: Path): Option<seq<byte>> {
      if p in names && names[p] < |objects| then Some(objects[names[p]]) else None
    }

    /** `File::create` and a full write: truncates the object a bound name already has. */
    function Create(p: Path, data: seq<byte>): Fs {
      if p in names && names[p] < |objects| then Fs(names, objects[names[p] := data])
      else Fs(names[p := |objects|], objects + [data])
    }

    /** `hard_link`; `allowed` is the operating system's say. */
    function HardLink(target: Path, link: Path, allowed: bool): Option<Fs> {
      if allowed && target in names && link !in names then Some(Fs(names[link := names[target]], objects)) else None
    }

    /** Two names for one object. */
    predicate Same(p: Path, q: Path) { p in names && q in names && names[p] == names[q] }

    /** `fs::copy`, its error ignored; the destination is truncated first, also where it is the source itself. */
    function Copy(target: Path, link: Path): Fs {
      if Read(target).None? then this
      else Create(link, if Same(target, link) then [] else Read(target).value)
    }
  }

  /** Which hard links the operating system permits, by new name. */
  type LinkPolicy = Path -> bool

  // ----- Drop collection -----

  function DropsOf(inode: Inode): set<Digest> {
    if inode.content.SliceMap? then set s | s in inode.content.slices :: s.dropId else {}
  }

  function Collect(drops: set<Digest>, e: Event): (set<Digest>, bool) {
    (drops + DropsOf(e.inode), true)
  }

  /** `DropIdCollectorSink`; directories and symlinks reference no drops and leave it unchanged. */
  class DropIdCollectorSink {
    var dropIds: set<Digest>

    constructor ()
      ensures dropIds == {}
    {
      dropIds := {};
    }

    method OnRegularFile(path: Path, inode: Inode)
      modifies this
      ensures dropIds == Collect(old(dropIds), Event(path, inode)).0
    {
      if inode.content.SliceMap? {
        var slices := inode.content.slices;
        var i := 0;
        while i < |slices|
          invariant 0 <= i <= |slices|
          invariant dropIds == old(dropIds) + set s | s in slices[..i] :: s.dropId
        {
          dropIds := dropIds + {slices[i].dropId};
          assert slices[..i + 1] == slices[..i] + [slices[i]];
          i := i + 1;
        }
        assert slices[..i] == slices;
      }
    }

    method Consume(events: seq<Event>)
      modifies this
      ensures (dropIds, true) == Feed(Collect, old(dropIds), events)
    {
      var i := 0;
      while i < |events|
        invariant 0 <= i <= |events|
        invariant Feed(Collect, dropIds, events[i..]) == Feed(Collect, old(dropIds), events)
      {
        var e := events[i];
        assert events[i..][1..] == events[i + 1..];
        if e.inode.IsFile() {
          OnRegularFile(e.path, e.inode);
        } else {
          assert Collect(dropIds, e).0 == dropIds;
        }
        i := i + 1;
      }
    }
  }

  // ----- Sequential extraction -----

  datatype SequentialState = SequentialState(
    fs: Fs, seen: map<u64, Path>, dirs: seq<Path>, symlinks: seq<(Path, seq<byte>)>)

  /** Stream the file's chunks to `path`; a chunk that fails leaves the ones before it. */
  function WriteFile(s: SequentialState, path: Path, inode: Inode, store: Option<SlabSource>): (SequentialState, bool) {
    (s.(fs := s.fs.Create(path, Delivered(ItemsOf(inode, store)))), Streamed(inode, store).Some?)
  }

  function FilesystemFile(s: SequentialState, path: Path, inode: Inode, store: Option<SlabSource>, policy: LinkPolicy)
    : (SequentialState, bool)
  {
    if inode.number in s.seen then
      match s.fs.HardLink(s.seen[inode.number], path, policy(path))
      case Some(fs) => (s.(fs := fs), true)
      case None => WriteFile(s, path, inode, store)
    else WriteFile(s.(seen := s.seen[inode.number := path]), path, inode, store)
  }

  /** One event handled by `FilesystemSink`. */
  function FilesystemStep(store: Option<SlabSource>, policy: LinkPolicy, s: SequentialState, e: Event)
    : (SequentialState, bool)
  {
    if e.inode.IsDirectory() then (s.(dirs := s.dirs + [e.path]), true)
    else if e.inode.IsFile() then FilesystemFile(s, e.path, e.inode, store, policy)
    else if e.inode.content.Symlink? then (s.(symlinks := s.symlinks + [(e.path, e.inode.content.target)]), true)
    else (s, true)
  }

  function FilesystemSteps(store: Option<SlabSource>, policy: LinkPolicy): Sink<SequentialState> {
    (s, e) => FilesystemStep(store, policy, s, e)
  }

  class FilesystemSink {
    const store: Option<SlabSource>
    const policy: LinkPolicy
    var fs: Fs
    var seen: map<u64, Path>
    var dirs: seq<Path>
    var symlinks: seq<(Path, seq<byte>)>

    ghost function State(): SequentialState reads this { SequentialState(fs, seen, dirs, symlinks) }

    constructor (fs: Fs, store: Option<SlabSource>, policy: LinkPolicy)
      ensures this.store == store && this.policy == policy && State() == SequentialState(fs, map[], [], [])
    {
      this.store, this.policy, this.fs := store, policy, fs;
      this.seen, this.dirs, this.symlinks := map[], [], [];
    }

    method OnRegularFile(path: Path, inode: Inode) returns (ok: bool)
      requires inode.IsFile()
      modifies this
      ensures (State(), ok) == FilesystemStep(store, policy, old(State()), Event(path, inode))
    {
      if inode.number in seen {
        var linked := fs.HardLink(seen[inode.number], path, policy(path));
        if linked.Some? {
          fs := linked.value;
          return true;
        }
      } else {
        seen := seen[inode.number := path];
      }
      var data, whole := StreamFile(inode, store);
      fs := fs.Create(path, data);
      return whole;
    }

    method OnDirectory(path: Path, inode: Inode)
      requires inode.IsDirectory()
      modifies this
      ensures (State(), true) == FilesystemStep(store, policy, old(State()), Event(path, inode))
    {
      dirs := dirs + [path];
    }

    method OnSymlink(path: Path, inode: Inode)
      requires inode.content.Symlink?
      modifies this
      ensures (State(), true) == FilesystemStep(store, policy, old(State()), Event(path, inode))
    {
      symlinks := symlinks + [(path, inode.content.target)];
    }

    /** The walk's callbacks, one after the other until one fails. */
    method Consume(events: seq<Event>) returns (ok: bool)
      modifies this
      ensures (State(), ok) == Feed(FilesystemSteps(store, policy), old(State()), events)
    {
      ok := true;
      var i := 0;
      while i < |events|
        invariant 0 <= i <= |events|
        invariant Feed(FilesystemSteps(store, policy), State(), events[i..])
               == Feed(FilesystemSteps(store, policy), old(State()), events)
      {
        var e := events[i];
        assert events[i..][1..] == events[i + 1..];
        if e.inode.IsDirectory() {
          OnDirectory(e.path, e.inode);
        } else if e.inode.IsFile() {
          ok := OnRegularFile(e.path, e.inode);
          if !ok { return; }
        } else if e.inode.content.Symlink? {
          OnSymlink(e.path, e.inode);
        }
        i := i + 1;
      }
      return true;
    }
  }

  // ----- Parallel extraction, phase one -----

  datatype ParallelState = ParallelState(
    tasks: seq<(Path, Inode)>, links: seq<(Path, Path)>, seen: map<u64, Path>,
    dirs: seq<Path>, symlinks: seq<(Path, seq<byte>)>)

  function ParallelFile(s: ParallelState, path: Path, inode: Inode): ParallelState {
    if inode.number in s.seen then s.(links := s.links + [(path, s.seen[inode.number])])
    else s.(seen := s.seen[inode.number := path], tasks := s.tasks + [(path, inode)])
  }

  /** One event handled by `ParallelExtractSink`. */
  function ParallelStep(s: ParallelState, e: Event): (ParallelState, bool) {
    if e.inode.IsDirectory() then (s.(dirs := s.dirs + [e.path]), true)
    else if e.inode.IsFile() then (ParallelFile(s, e.path, e.inode), true)
    else if e.inode.content.Symlink? then (s.(symlinks := s.symlinks + [(e.path, e.inode.content.target)]), true)
    else (s, true)
  }

  const EMPTY_PARALLEL := ParallelState([], [], map[], [], [])

  class ParallelExtractSink {
    var tasks: seq<(Path, Inode)>
    var links: seq<(Path, Path)>
    var seen: map<u64, Path>
    var dirs: seq<Path>
    var symlinks: seq<(Path, seq<byte>)>

    ghost function State(): ParallelState reads this { ParallelState(tasks, links, seen, dirs, symlinks) }

    constructor ()
      ensures State() == EMPTY_PARALLEL
    {
      tasks, links, seen, dirs, symlinks := [], [], map[], [], [];
    }

    method OnRegularFile(path: Path, inode: Inode)
      requires inode.IsFile()
      modifies this
      ensures (State(), true) == ParallelStep(old(State()), Event(path, inode))
    {
      if inode.number in seen {
        links := links + [(path, seen[inode.number])];
        return;
      }
      seen := seen[inode.number := path];
      tasks := tasks + [(path, inode)];
    }

    method OnDirectory(path: Path, inode: Inode)
      requires inode.IsDirectory()
      modifies this
      ensures (State(), true) == ParallelStep(old(State()), Event(path, inode))
    {
      dirs := dirs + [path];
    }

    method OnSymlink(path: Path, inode: Inode)
      requires inode.content.Symlink?
      modifies this
      ensures (State(), true) == ParallelStep(old(State()), Event(path, inode))
    {
      symlinks := symlinks + [(path, inode.content.target)];
    }

    method Consume(events: seq<Event>)
      modifies this
      ensures (State(), true) == Feed(ParallelStep, old(State()), events)
    {
      var i := 0;
      while i < |events|
        invariant 0 <= i <= |events|
        invariant Feed(ParallelStep, State(), events[i..]) == Feed(ParallelStep, old(State()), events)
      {
        var e := events[i];
        assert events[i..][1..] == events[i + 1..];
        if e.inode.IsDirectory() {
          OnDirectory(e.path, e.inode);
        } else if e.inode.IsFile() {
          OnRegularFile(e.path, e.inode);
        } else if e.inode.content.Symlink? {
          OnSymlink(e.path, e.inode);
        }
        i := i + 1;
      }
    }
  }

  // ----- Parallel extraction, phases two and three -----

  /** The guard of `extract_file`: other inodes are skipped without creating the file. */
  predicate Writes(inode: Inode) {
    inode.IsRegular() || FileLen(inode) > 0
  }

  /** One task, which like sequential extraction leaves the chunks before a failing one. */
  function RunTask(fs: Fs, task: (Path, Inode), store: Option<SlabSource>): Fs {
    if Writes(task.1) then fs.Create(task.0, Delivered(ItemsOf(task.1, store))) else fs
  }

  predicate TaskFails(task: (Path, Inode), store: Option<SlabSource>) {
    Writes(task.1) && Streamed(task.1, store).None?
  }

  function RunTasks(fs: Fs, tasks: seq<(Path, Inode)>, store: Option<SlabSource>): Fs
    decreases |tasks|
  {
    if tasks == [] then fs else RunTasks(RunTask(fs, tasks[0], store), tasks[1..], store)
  }

  function MakeLink(fs: Fs, link: (Path, Path), policy: LinkPolicy): Fs {
    match fs.HardLink(link.1, link.0, policy(link.0))
    case Some(linked) => linked
    case None => fs.Copy(link.1, link.0)
  }

  function MakeLinks(fs: Fs, links: seq<(Path, Path)>, policy: LinkPolicy): Fs
    decreases |links|
  {
    if links == [] then fs else MakeLinks(MakeLink(fs, links[0], policy), links[1..], policy)
  }

  /**
   * Phases two and three of `extract`: the tasks in the order the workers finish them, then the links.
   * Of the tasks' errors only that of the first in the list is looked at.
   */
  method FinishExtraction(start: Fs, tasks: seq<(Path, Inode)>, order: seq<(Path, Inode)>, links: seq<(Path, Path)>,
                          store: Option<SlabSource>, policy: LinkPolicy)
    returns (fs: Fs, ok: bool)
    ensures ok <==> tasks == [] || !TaskFails(tasks[0], store)
    ensures ok ==> fs == MakeLinks(RunTasks(start, order, store), links, policy)
    ensures !ok ==> fs == RunTasks(start, order, store)
  {
    fs := start;
    var i := 0;
    while i < |order|
      invariant 0 <= i <= |order|
      invariant RunTasks(fs, order[i..], store) == RunTasks(start, order, store)
    {
      assert order[i..][1..] == order[i + 1..];
      fs := RunTask(fs, order[i], store);
      i := i + 1;
    }
    if tasks != [] && TaskFails(tasks[0], store) { return fs, false; }
    ghost var written := fs;
    i := 0;
    while i < |links|
      invariant 0 <= i <= |links|
      invariant MakeLinks(fs, links[i..], policy) == MakeLinks(written, links, policy)
    {
      assert links[i..][1..] == links[i + 1..];
      fs := MakeLink(fs, links[i], policy);
      i := i + 1;
    }
    return fs, true;
  }
}
