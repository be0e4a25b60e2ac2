/** `walk_live_tree`: depth-first traversal of a possibly cyclic directory graph. */
module Walk {
  import opened Bytes
  import opened Metadata
  import opened TreePaths

  /** One sink callback. Which callback it is follows from the inode's content handle. */
  datatype Event = Event(path: Path, inode: Inode)

  /** The callback for an event whose path lists the names followed: they are handed over joined. */
  function SpelledEvent(windows: bool, e: Event): Event { Event(Spelled(windows, e.path), e.inode) }

  function SpelledEvents(windows: bool, events: seq<Event>): seq<Event> {
    seq(|events|, i requires 0 <= i < |events| => SpelledEvent(windows, events[i]))
  }

  datatype WalkError = RootMissing | NodeMissing(hash: Digest) | BadName(name: Name) | InodeMissing(number: u64)

  datatype Walked = Walked(events: seq<Event>, visited: seq<u64>, error: Option<WalkError>)

  /** `validate_tree_name`; `windows` is the build target's `cfg!(windows)`. */
  predicate ValidTreeName(name: Name, windows: bool) {
    && name != []
    && name != [DOT]
    && name != [DOT, DOT]
    && SLASH !in name
    && NUL !in name
    && !(windows && BACKSLASH in name)
  }

  ghost function Unvisited(blob: Blob, visited: seq<u64>): set<u64> {
    set i | i in blob.inodes && i.number !in visited :: i.number
  }

  /**
   * What `walk_dir` reports and in which order, whether it fails, and the final visited list; paths list
   * the names followed from the root. Unvisited inode numbers are the termination measure.
   */
  ghost function WalkDir(blob: Blob, windows: bool, inode: Inode, path: Path, visited: seq<u64>): (r: Walked)
    requires Canonical(blob, inode)
    ensures visited <= r.visited
    decreases Unvisited(blob, visited), 0
  {
    if !inode.IsDirectory() || inode.number in visited then Walked([], visited, None)
    else
      var here := Event(path, inode);
      var seen := visited + [inode.number];
      assert inode.number in Unvisited(blob, visited) && inode.number !in Unvisited(blob, seen);
      match NodeByHash(blob, inode.content.hash)
      case None => Walked([here], seen, Some(NodeMissing(inode.content.hash)))
      case Some(entries) =>
        var below := WalkEntries(blob, windows, entries, path, seen);
        Walked([here] + below.events, below.visited, below.error)
  }

  ghost function WalkEntries(blob: Blob, windows: bool, entries: seq<DirEntry>, path: Path, visited: seq<u64>)
    : (r: Walked)
    ensures visited <= r.visited
    decreases Unvisited(blob, visited), |entries| + 1
  {
    if entries == [] then Walked([], visited, None)
    else if !ValidTreeName(entries[0].name, windows) then Walked([], visited, Some(BadName(entries[0].name)))
    else
      match InodeByNumber(blob, entries[0].inodeNumber)
      case None => Walked([], visited, Some(InodeMissing(entries[0].inodeNumber)))
      case Some(child) =>
        var first := WalkChild(blob, windows, child, path + [entries[0].name], visited);
        if first.error.Some? then first
        else
          var rest := WalkEntries(blob, windows, entries[1..], path, first.visited);
          Walked(first.events + rest.events, rest.visited, rest.error)
  }

  /** The `match &child.content_handle` of the loop body. */
  ghost function WalkChild(blob: Blob, windows: bool, child: Inode, path: Path, visited: seq<u64>): (r: Walked)
    requires Canonical(blob, child)
    ensures visited <= r.visited
    decreases Unvisited(blob, visited), 1
  {
    if child.IsDirectory() then WalkDir(blob, windows, child, path, visited)
    else Walked([Event(path, child)], visited, None)
  }

  ghost function WalkTree(blob: Blob, windows: bool, root: u64): Walked {
    match InodeByNumber(blob, root)
    case None => Walked([], [], Some(RootMissing))
    case Some(inode) => WalkDir(blob, windows, inode, [], [])
  }

  /** The callbacks of one walk. */
  ghost function Reports(blob: Blob, windows: bool, root: u64): seq<Event> {
    SpelledEvents(windows, WalkTree(blob, windows, root).events)
  }

  /** A sink consumes one event, returning its new state and whether it succeeded. */
  type Sink<!S> = (S, Event) -> (S, bool)

  /** Feeding events to a sink, stopping at the first one it fails on. */
  function Feed<S>(sink: Sink<S>, state: S, events: seq<Event>): (S, bool) {
    if events == [] then (state, true)
    else
      var (next, ok) := sink(state, events[0]);
      if ok then Feed(sink, next, events[1..]) else (next, false)
  }

  lemma {:induction false} FeedConcat<S>(sink: Sink<S>, state: S, a: seq<Event>, b: seq<Event>)
    ensures Feed(sink, state, a + b)
         == var (mid, ok) := Feed(sink, state, a); if ok then Feed(sink, mid, b) else (mid, false)
  {
    if a == [] {
      assert a + b == b;
    } else {
      var (next, ok) := sink(state, a[0]);
      assert (a + b)[0] == a[0] && (a + b)[1..] == a[1..] + b;
      if ok { FeedConcat(sink, next, a[1..], b); }
    }
  }

  /** The walker with the `visited` list and the sink it drives, both updated in place. */
  class LiveTreeWalker<S> {
    const blob: Blob
    const windows: bool
    const sink: Sink<S>
    var visited: seq<u64>
    var state: S

    constructor (blob: Blob, windows: bool, sink: Sink<S>, state: S)
      ensures this.blob == blob && this.windows == windows && this.sink == sink
      ensures this.visited == [] && this.state == state
    {
      this.blob, this.windows, this.sink := blob, windows, sink;
      this.visited, this.state := [], state;
    }

    method Emit(event: Event) returns (ok: bool)
      modifies `state
      ensures (state, ok) == sink(old(state), event)
    {
      var r := sink(state, event);
      state := r.0;
      ok := r.1;
    }

    /** Feeding the callbacks for events that list the names followed. */
    ghost function Fed(before: S, events: seq<Event>): (S, bool) { Feed(sink, before, SpelledEvents(windows, events)) }

    lemma FedConcat(before: S, a: seq<Event>, b: seq<Event>)
      ensures Fed(before, a + b) == var (mid, ok) := Fed(before, a); if ok then Fed(mid, b) else (mid, false)
    {
      assert SpelledEvents(windows, a + b) == SpelledEvents(windows, a) + SpelledEvents(windows, b);
      FeedConcat(sink, before, SpelledEvents(windows, a), SpelledEvents(windows, b));
    }

    lemma FedOne(before: S, e: Event)
      ensures Fed(before, [e]) == sink(before, SpelledEvent(windows, e))
    {
      var one := SpelledEvents(windows, [e]);
      assert one == [SpelledEvent(windows, e)] && one[1..] == [];
      var next := sink(before, one[0]);
      assert Feed(sink, next.0, one[1..]) == (next.0, true) && next == (next.0, next.1);
    }

    /**
     * The walk turned sink state `before` into `after` as specified by `w`: the sink
     * holds exactly what feeding it the specified callbacks leaves, and the walk fails
     * exactly when the sink refuses one of them or the tree is corrupt.
     */
    ghost predicate Realises(w: Walked, before: S, after: S, nowVisited: seq<u64>, ok: bool) {
      && after == Fed(before, w.events).0
      && ok == (Fed(before, w.events).1 && w.error.None?)
      && (ok ==> nowVisited == w.visited)
    }

    /** `walk_dir` up to its loop; `path` is what joining `names` has given. */
    method Dir(inode: Inode, path: Path, ghost names: Path) returns (ok: bool)
      requires Canonical(blob, inode) && path == Spelled(windows, names)
      modifies `visited, `state
      ensures Realises(WalkDir(blob, windows, inode, names, old(visited)), old(state), state, visited, ok)
      ensures old(visited) <= visited
      decreases Unvisited(blob, visited), 0
    {
      hide Spelled;
      if !inode.IsDirectory() || inode.number in visited { return true; }
      ghost var w := WalkDir(blob, windows, inode, names, visited);
      ghost var here := Event(names, inode);
      assert w.events == [here] + w.events[1..];
      FedConcat(state, [here], w.events[1..]);
      FedOne(state, here);
      assert inode.number in Unvisited(blob, visited);
      visited := visited + [inode.number];
      assert inode.number !in Unvisited(blob, visited);
      ok := Emit(Event(path, inode));
      if !ok { return; }
      var node := NodeByHash(blob, inode.content.hash);
      if node.None? { return false; }
      ok := Entries(node.value, path, names);
    }

    /** The loop of `walk_dir` over one node's entries. */
    method Entries(entries: seq<DirEntry>, path: Path, ghost names: Path) returns (ok: bool)
      requires path == Spelled(windows, names)
      modifies `visited, `state
      ensures Realises(WalkEntries(blob, windows, entries, names, old(visited)), old(state), state, visited, ok)
      ensures old(visited) <= visited
      decreases Unvisited(blob, visited), |entries| + 1
    {
      hide JoinName, ValidTreeName;
      ghost var all := WalkEntries(blob, windows, entries, names, visited);
      var i := 0;
      assert entries[i..] == entries;
      while i < |entries|
        invariant 0 <= i <= |entries|
        invariant old(visited) <= visited
        invariant Amounts(all, old(state), WalkEntries(blob, windows, entries[i..], names, visited), state)
      {
        var entry := entries[i];
        if !ValidTreeName(entry.name, windows) { return false; }
        var childPath := JoinName(windows, path, entry.name);
        var child := InodeByNumber(blob, entry.inodeNumber);
        if child.None? { return false; }
        FirstEntry(entries[i..], names, visited, state);
        assert Parent(names + [entry.name]) == names;
        ok := Child(child.value, childPath, names + [entry.name]);
        if !ok { return; }
        assert entries[i..][1..] == entries[i + 1..];
        i := i + 1;
      }
      return true;
    }

    /** Running `all` from `start` comes to the same as running `rest` from `now`. */
    ghost predicate Amounts(all: Walked, start: S, rest: Walked, now: S) {
      && Fed(start, all.events) == Fed(now, rest.events)
      && all.visited == rest.visited
      && all.error == rest.error
    }

    /** Feeding the events of a non-empty entry list is feeding the first child, then the others. */
    lemma FirstEntry(entries: seq<DirEntry>, names: Path, seen: seq<u64>, now: S)
      requires entries != [] && ValidTreeName(entries[0].name, windows)
      requires InodeByNumber(blob, entries[0].inodeNumber).Some?
      ensures var child := InodeByNumber(blob, entries[0].inodeNumber).value;
        var first := WalkChild(blob, windows, child, names + [entries[0].name], seen);
        var all := WalkEntries(blob, windows, entries, names, seen);
        var (mid, ok) := Fed(now, first.events);
        if first.error.Some? then all == first
        else if !ok then Fed(now, all.events) == (mid, false)
        else Amounts(all, now, WalkEntries(blob, windows, entries[1..], names, first.visited), mid)
    {
      var child := InodeByNumber(blob, entries[0].inodeNumber).value;
      var first := WalkChild(blob, windows, child, names + [entries[0].name], seen);
      if first.error.None? {
        FedConcat(now, first.events, WalkEntries(blob, windows, entries[1..], names, first.visited).events);
      }
    }

    /** Dispatch on the child's content handle. */
    method Child(child: Inode, path: Path, ghost names: Path) returns (ok: bool)
      requires Canonical(blob, child) && path == Spelled(windows, names)
      modifies `visited, `state
      ensures Realises(WalkChild(blob, windows, child, names, old(visited)), old(state), state, visited, ok)
      ensures old(visited) <= visited
      decreases Unvisited(blob, visited), 1
    {
      if child.IsDirectory() {
        ok := Dir(child, path, names);
      } else {
        FedOne(state, Event(names, child));
        ok := Emit(Event(path, child));
      }
    }

    /** `walk_live_tree`. */
    method Tree(root: u64) returns (ok: bool)
      requires visited == []
      modifies `visited, `state
      ensures Realises(WalkTree(blob, windows, root), old(state), state, visited, ok)
    {
      var inode := InodeByNumber(blob, root);
      if inode.None? { return false; }
      ok := Dir(inode.value, [], []);
    }
  }

  // ----- The callbacks as a list -----

  function Record(events: seq<Event>, e: Event): (seq<Event>, bool) { (events + [e], true) }

  lemma {:induction false} FeedRecord(before: seq<Event>, events: seq<Event>)
    ensures Feed(Record, before, events) == (before + events, true)
    decreases |events|
  {
    if events == [] {
      assert before + events == before;
    } else {
      FeedRecord(before + [events[0]], events[1..]);
      assert (before + [events[0]]) + events[1..] == before + events;
    }
  }

  /** The callbacks of one walk, in order, and whether it succeeds. */
  method Callbacks(blob: Blob, windows: bool, root: u64) returns (events: seq<Event>, ok: bool)
    ensures events == Reports(blob, windows, root) && ok == WalkTree(blob, windows, root).error.None?
  {
    var walker := new LiveTreeWalker<seq<Event>>(blob, windows, Record, []);
    ok := walker.Tree(root);
    FeedRecord([], Reports(blob, windows, root));
    assert [] + Reports(blob, windows, root) == Reports(blob, windows, root);
    return walker.state, ok;
  }
}
