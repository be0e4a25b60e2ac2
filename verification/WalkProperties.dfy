/**
 * What every walk does, measured against reachability defined without the walk:
 * exact reachability, each directory once, parents first, distinct paths.
 */
module WalkProperties {
  import opened Bytes
  import opened Metadata
  import opened TreePaths
  import opened Walk

  // ----- Reachability, independent of any traversal order -----

  /** Directory `d` has an entry `name` that resolves to inode `child`. */
  ghost predicate Edge(blob: Blob, d: Inode, name: Name, child: Inode) {
    && d.IsDirectory()
    && NodeByHash(blob, d.content.hash).Some?
    && exists e :: e in NodeByHash(blob, d.content.hash).value && e.name == name
         && InodeByNumber(blob, e.inodeNumber) == Some(child)
  }

  /** Following the names of `path` from `root`, one entry per name, can end at `inode`. */
  ghost predicate Leads(blob: Blob, root: Inode, path: Path, inode: Inode) {
    if path == [] then inode == root
    else exists d :: Leads(blob, root, Parent(path), d) && Edge(blob, d, Last(path), inode)
  }

  ghost predicate Reachable(blob: Blob, root: Inode, inode: Inode) {
    exists path :: Leads(blob, root, path, inode)
  }

  /** What a directory must look like for the walk to get past it. */
  ghost predicate Sound(blob: Blob, windows: bool, d: Inode) {
    d.IsDirectory() ==>
      && NodeByHash(blob, d.content.hash).Some?
      && SoundEntries(blob, windows, NodeByHash(blob, d.content.hash).value)
  }

  ghost predicate SoundEntries(blob: Blob, windows: bool, entries: seq<DirEntry>) {
    forall e :: e in entries ==> ValidTreeName(e.name, windows) && InodeByNumber(blob, e.inodeNumber).Some?
  }

  lemma LeadsStep(blob: Blob, root: Inode, path: Path, d: Inode, e: DirEntry, child: Inode)
    requires Leads(blob, root, path, d) && d.IsDirectory() && NodeByHash(blob, d.content.hash).Some?
    requires e in NodeByHash(blob, d.content.hash).value && InodeByNumber(blob, e.inodeNumber) == Some(child)
    ensures Leads(blob, root, path + [e.name], child)
  {
    var p := path + [e.name];
    assert Parent(p) == path;
    assert Edge(blob, d, Last(p), child);
  }

  // ----- Soundness: only reachable inodes are reported, failures have a cause -----

  ghost predicate AllLead(blob: Blob, root: Inode, events: seq<Event>) {
    forall e :: e in events ==> Leads(blob, root, e.path, e.inode) && Canonical(blob, e.inode)
  }

  ghost predicate SomeUnsound(blob: Blob, windows: bool, root: Inode) {
    exists d :: Reachable(blob, root, d) && !Sound(blob, windows, d)
  }

  lemma {:induction false} DirSound(blob: Blob, windows: bool, root: Inode, inode: Inode, path: Path, visited: seq<u64>)
    requires Canonical(blob, inode) && Leads(blob, root, path, inode)
    ensures var w := WalkDir(blob, windows, inode, path, visited);
      AllLead(blob, root, w.events) && (w.error.Some? ==> SomeUnsound(blob, windows, root))
    decreases Unvisited(blob, visited), 0
  {
    if inode.IsDirectory() && inode.number !in visited {
      assert inode.number in Unvisited(blob, visited);
      var seen := visited + [inode.number];
      assert inode.number !in Unvisited(blob, seen);
      assert Reachable(blob, root, inode);
      var node := NodeByHash(blob, inode.content.hash);
      if node.Some? {
        EntriesSound(blob, windows, root, inode, node.value, path, seen);
      }
    }
  }

  lemma {:induction false} EntriesSound(
    blob: Blob, windows: bool, root: Inode, d: Inode, entries: seq<DirEntry>, path: Path, visited: seq<u64>)
    requires Canonical(blob, d) && Leads(blob, root, path, d) && d.IsDirectory()
    requires NodeByHash(blob, d.content.hash).Some?
    requires forall e :: e in entries ==> e in NodeByHash(blob, d.content.hash).value
    ensures var w := WalkEntries(blob, windows, entries, path, visited);
      AllLead(blob, root, w.events) && (w.error.Some? ==> SomeUnsound(blob, windows, root))
    decreases Unvisited(blob, visited), |entries| + 1
  {
    assert Reachable(blob, root, d);
    if entries != [] {
      var e := entries[0];
      assert e in NodeByHash(blob, d.content.hash).value;
      var child := InodeByNumber(blob, e.inodeNumber);
      if ValidTreeName(e.name, windows) && child.Some? {
        LeadsStep(blob, root, path, d, e, child.value);
        if child.value.IsDirectory() {
          DirSound(blob, windows, root, child.value, path + [e.name], visited);
        }
        var first := WalkChild(blob, windows, child.value, path + [e.name], visited);
        if first.error.None? {
          EntriesSound(blob, windows, root, d, entries[1..], path, first.visited);
        }
      } else {
        assert !Sound(blob, windows, d);
      }
    }
  }

  // ----- Each directory once: the visited list is the list of reported directories -----

  ghost function DirNumbers(events: seq<Event>): seq<u64> {
    if events == [] then []
    else (if events[0].inode.IsDirectory() then [events[0].inode.number] else []) + DirNumbers(events[1..])
  }

  lemma {:induction false} DirNumbersConcat(a: seq<Event>, b: seq<Event>)
    ensures DirNumbers(a + b) == DirNumbers(a) + DirNumbers(b)
  {
    if a == [] {
      assert a + b == b;
    } else {
      assert (a + b)[1..] == a[1..] + b;
      DirNumbersConcat(a[1..], b);
      var x := if a[0].inode.IsDirectory() then [a[0].inode.number] else [];
      assert DirNumbers(a + b) == x + (DirNumbers(a[1..]) + DirNumbers(b));
      assert x + (DirNumbers(a[1..]) + DirNumbers(b)) == (x + DirNumbers(a[1..])) + DirNumbers(b);
    }
  }

  lemma {:induction false} DirNumbersMember(events: seq<Event>, n: u64)
    requires n in DirNumbers(events)
    ensures exists e :: e in events && e.inode.IsDirectory() && e.inode.number == n
  {
    if events[0].inode.IsDirectory() && events[0].inode.number == n {
      assert events[0] in events;
    } else {
      DirNumbersMember(events[1..], n);
    }
  }

  lemma {:induction false} DirNumbersIndex(events: seq<Event>, i: nat, j: nat)
    requires i < j < |events| && events[i].inode.IsDirectory() && events[j].inode.IsDirectory()
    requires Distinct(DirNumbers(events))
    ensures events[i].inode.number != events[j].inode.number
  {
    var tail := DirNumbers(events[1..]);
    if events[0].inode.IsDirectory() {
      DistinctTail(events[0].inode.number, tail);
    } else {
      assert [] + tail == tail;
    }
    if i == 0 {
      DirNumbersHas(events[1..], j - 1);
    } else {
      DirNumbersIndex(events[1..], i - 1, j - 1);
    }
  }

  lemma DistinctTail<T>(x: T, tail: seq<T>)
    requires Distinct([x] + tail)
    ensures Distinct(tail) && x !in tail
  {
    var all := [x] + tail;
    forall i, j | 0 <= i < j < |tail| ensures tail[i] != tail[j] {
      assert all[i + 1] != all[j + 1];
    }
    forall i | 0 <= i < |tail| ensures tail[i] != x {
      assert all[0] != all[i + 1];
    }
  }

  lemma {:induction false} DirNumbersHas(events: seq<Event>, i: nat)
    requires i < |events| && events[i].inode.IsDirectory()
    ensures events[i].inode.number in DirNumbers(events)
  {
    if i > 0 { DirNumbersHas(events[1..], i - 1); }
  }

  lemma {:induction false} DirVisits(blob: Blob, windows: bool, inode: Inode, path: Path, visited: seq<u64>)
    requires Canonical(blob, inode)
    ensures var w := WalkDir(blob, windows, inode, path, visited); w.visited == visited + DirNumbers(w.events)
    decreases Unvisited(blob, visited), 0
  {
    hide FindInode, FindNode;
    if inode.IsDirectory() && inode.number !in visited {
      assert inode.number in Unvisited(blob, visited);
      var seen := visited + [inode.number];
      assert inode.number !in Unvisited(blob, seen);
      var here := [Event(path, inode)];
      assert here[1..] == [];
      assert DirNumbers(here) == [inode.number];
      var node := NodeByHash(blob, inode.content.hash);
      if node.Some? {
        var below := WalkEntries(blob, windows, node.value, path, seen).events;
        EntriesVisit(blob, windows, node.value, path, seen);
        DirNumbersConcat(here, below);
        assert visited + ([inode.number] + DirNumbers(below)) == seen + DirNumbers(below);
      }
    }
  }

  lemma {:induction false} EntriesVisit(blob: Blob, windows: bool, entries: seq<DirEntry>, path: Path,
    visited: seq<u64>)
    ensures var w := WalkEntries(blob, windows, entries, path, visited); w.visited == visited + DirNumbers(w.events)
    decreases Unvisited(blob, visited), |entries| + 1
  {
    hide ValidTreeName, FindInode;
    if entries != [] && ValidTreeName(entries[0].name, windows) {
      var child := InodeByNumber(blob, entries[0].inodeNumber);
      if child.Some? {
        var p := path + [entries[0].name];
        ChildVisits(blob, windows, child.value, p, visited);
        var first := WalkChild(blob, windows, child.value, p, visited);
        if first.error.None? {
          var rest := WalkEntries(blob, windows, entries[1..], path, first.visited).events;
          EntriesVisit(blob, windows, entries[1..], path, first.visited);
          DirNumbersConcat(first.events, rest);
          Assoc(visited, DirNumbers(first.events), DirNumbers(rest));
        }
      }
    }
  }

  lemma {:induction false} ChildVisits(blob: Blob, windows: bool, child: Inode, path: Path, visited: seq<u64>)
    requires Canonical(blob, child)
    ensures var w := WalkChild(blob, windows, child, path, visited); w.visited == visited + DirNumbers(w.events)
    decreases Unvisited(blob, visited), 1
  {
    if child.IsDirectory() {
      DirVisits(blob, windows, child, path, visited);
    } else {
      assert [Event(path, child)][1..] == [];
      assert DirNumbers([Event(path, child)]) == [];
    }
  }

  lemma {:induction false} DirVisitsDistinct(blob: Blob, windows: bool, inode: Inode, path: Path, visited: seq<u64>)
    requires Canonical(blob, inode) && Distinct(visited)
    ensures Distinct(WalkDir(blob, windows, inode, path, visited).visited)
    decreases Unvisited(blob, visited), 0
  {
    if inode.IsDirectory() && inode.number !in visited {
      assert inode.number in Unvisited(blob, visited);
      var seen := visited + [inode.number];
      assert inode.number !in Unvisited(blob, seen);
      var node := NodeByHash(blob, inode.content.hash);
      if node.Some? {
        EntriesVisitDistinct(blob, windows, node.value, path, seen);
      }
    }
  }

  lemma {:induction false} EntriesVisitDistinct(
    blob: Blob, windows: bool, entries: seq<DirEntry>, path: Path, visited: seq<u64>)
    requires Distinct(visited)
    ensures Distinct(WalkEntries(blob, windows, entries, path, visited).visited)
    decreases Unvisited(blob, visited), |entries| + 1
  {
    if entries != [] && ValidTreeName(entries[0].name, windows) {
      var child := InodeByNumber(blob, entries[0].inodeNumber);
      if child.Some? {
        var p := path + [entries[0].name];
        if child.value.IsDirectory() {
          DirVisitsDistinct(blob, windows, child.value, p, visited);
        }
        var first := WalkChild(blob, windows, child.value, p, visited);
        if first.error.None? {
          EntriesVisitDistinct(blob, windows, entries[1..], path, first.visited);
        }
      }
    }
  }

  // ----- Completeness: a successful walk skips nothing below what it reports -----

  /** Every entry of the directory reported by `e` was handled: files under their own path, directories visited. */
  ghost predicate Handled(blob: Blob, e: Event, events: seq<Event>, visited: seq<u64>)
    requires e.inode.IsDirectory()
  {
    && NodeByHash(blob, e.inode.content.hash).Some?
    && EntriesHandled(blob, NodeByHash(blob, e.inode.content.hash).value, e.path, events, visited)
  }

  ghost predicate EntriesHandled(
    blob: Blob, entries: seq<DirEntry>, path: Path, events: seq<Event>, visited: seq<u64>)
  {
    forall c :: c in entries ==>
      var child := InodeByNumber(blob, c.inodeNumber);
      && child.Some?
      && (if child.value.IsDirectory() then child.value.number in visited
          else Event(path + [c.name], child.value) in events)
  }

  ghost predicate AllHandled(blob: Blob, windows: bool, reported: seq<Event>, events: seq<Event>, visited: seq<u64>) {
    forall e :: e in reported && e.inode.IsDirectory() ==>
      Handled(blob, e, events, visited) && Sound(blob, windows, e.inode)
  }

  lemma {:induction false} DirComplete(blob: Blob, windows: bool, inode: Inode, path: Path, visited: seq<u64>)
    requires Canonical(blob, inode)
    requires WalkDir(blob, windows, inode, path, visited).error.None?
    ensures var w := WalkDir(blob, windows, inode, path, visited);
      && AllHandled(blob, windows, w.events, w.events, w.visited)
      && (inode.IsDirectory() ==> inode.number in w.visited)
    decreases Unvisited(blob, visited), 0
  {
    if inode.IsDirectory() && inode.number !in visited {
      assert inode.number in Unvisited(blob, visited);
      var seen := visited + [inode.number];
      assert inode.number !in Unvisited(blob, seen);
      var entries := NodeByHash(blob, inode.content.hash).value;
      EntriesComplete(blob, windows, entries, path, seen);
      var below := WalkEntries(blob, windows, entries, path, seen);
      var w := WalkDir(blob, windows, inode, path, visited);
      assert forall e :: e in below.events ==> e in w.events;
      assert inode.number == w.visited[|visited|];
    }
  }

  lemma {:induction false} EntriesComplete(
    blob: Blob, windows: bool, entries: seq<DirEntry>, path: Path, visited: seq<u64>)
    requires WalkEntries(blob, windows, entries, path, visited).error.None?
    ensures var w := WalkEntries(blob, windows, entries, path, visited);
      && AllHandled(blob, windows, w.events, w.events, w.visited)
      && EntriesHandled(blob, entries, path, w.events, w.visited)
      && SoundEntries(blob, windows, entries)
    decreases Unvisited(blob, visited), |entries| + 1
  {
    hide ValidTreeName, FindInode, FindNode;
    if entries != [] {
      var child := InodeByNumber(blob, entries[0].inodeNumber).value;
      var p := path + [entries[0].name];
      var first := WalkChild(blob, windows, child, p, visited);
      if child.IsDirectory() {
        DirComplete(blob, windows, child, p, visited);
      } else {
        assert Event(p, child) in first.events;
      }
      EntriesComplete(blob, windows, entries[1..], path, first.visited);
      var rest := WalkEntries(blob, windows, entries[1..], path, first.visited);
      var w := WalkEntries(blob, windows, entries, path, visited);
      HandledGrows(blob, windows, first.events, first.events, first.visited, w.events, w.visited);
      HandledGrows(blob, windows, rest.events, rest.events, rest.visited, w.events, w.visited);
      assert entries == [entries[0]] + entries[1..];
    }
  }

  lemma HandledGrows(blob: Blob, windows: bool, reported: seq<Event>,
    events: seq<Event>, visited: seq<u64>, more: seq<Event>, moreVisited: seq<u64>)
    requires AllHandled(blob, windows, reported, events, visited)
    requires forall e :: e in events ==> e in more
    requires visited <= moreVisited
    ensures AllHandled(blob, windows, reported, more, moreVisited)
  {
    assert forall n :: n in visited ==> n in moreVisited;
    forall e | e in reported && e.inode.IsDirectory() ensures Handled(blob, e, more, moreVisited) {
      assert Handled(blob, e, events, visited);
    }
  }

  /** A walk whose root directory has its node. */
  lemma RootEntries(blob: Blob, windows: bool, root: u64)
    requires InodeByNumber(blob, root).Some? && InodeByNumber(blob, root).value.IsDirectory()
    requires NodeByHash(blob, InodeByNumber(blob, root).value.content.hash).Some?
    ensures var r := InodeByNumber(blob, root).value;
      var below := WalkEntries(blob, windows, NodeByHash(blob, r.content.hash).value, [], [r.number]);
      WalkTree(blob, windows, root) == Walked([Event([], r)] + below.events, below.visited, below.error)
  {
    hide ValidTreeName, FindInode, FindNode, WalkEntries;
    assert [] + [root] == [root];
  }

  /** One turn of the loop over a node's entries, at a file. */
  lemma FileEntry(blob: Blob, windows: bool, entries: seq<DirEntry>, path: Path, visited: seq<u64>)
    requires entries != [] && ValidTreeName(entries[0].name, windows)
    requires InodeByNumber(blob, entries[0].inodeNumber).Some?
    requires !InodeByNumber(blob, entries[0].inodeNumber).value.IsDirectory()
    ensures var child := InodeByNumber(blob, entries[0].inodeNumber).value;
      var rest := WalkEntries(blob, windows, entries[1..], path, visited);
      WalkEntries(blob, windows, entries, path, visited)
        == Walked([Event(path + [entries[0].name], child)] + rest.events, rest.visited, rest.error)
  {
    hide ValidTreeName, FindInode, FindNode;
  }

  /** The last turn, at a directory whose walk is known. */
  lemma LastDirectory(blob: Blob, windows: bool, entries: seq<DirEntry>, path: Path, visited: seq<u64>, below: Walked)
    requires |entries| == 1 && ValidTreeName(entries[0].name, windows)
    requires InodeByNumber(blob, entries[0].inodeNumber).Some?
    requires InodeByNumber(blob, entries[0].inodeNumber).value.IsDirectory()
    requires WalkDir(blob, windows, InodeByNumber(blob, entries[0].inodeNumber).value, path + [entries[0].name],
      visited) == below
    ensures WalkEntries(blob, windows, entries, path, visited) == below
  {
    hide ValidTreeName, FindInode, FindNode, WalkDir;
    assert entries[1..] == [] && below.events + [] == below.events;
    assert WalkEntries(blob, windows, entries[1..], path, below.visited) == Walked([], below.visited, None);
  }

  // ----- Main theorem 1: success and coverage are exactly reachability -----

  /** On success every reachable directory is reported, and every entry of it is handled. */
  lemma {:induction false} ReachableIsReported(blob: Blob, windows: bool, root: Inode, path: Path, d: Inode)
    requires Canonical(blob, root) && root.IsDirectory()
    requires WalkDir(blob, windows, root, [], []).error.None?
    requires Leads(blob, root, path, d) && d.IsDirectory()
    ensures exists e :: e in WalkDir(blob, windows, root, [], []).events && e.inode == d
    decreases |path|
  {
    var w := WalkDir(blob, windows, root, [], []);
    DirComplete(blob, windows, root, [], []);
    DirVisits(blob, windows, root, [], []);
    DirSound(blob, windows, root, root, [], []);
    assert d.number in w.visited && Canonical(blob, d) by {
      if path != [] {
        var parent :| Leads(blob, root, Parent(path), parent) && Edge(blob, parent, Last(path), d);
        ReachableIsReported(blob, windows, root, Parent(path), parent);
      }
    }
    DirNumbersMember(w.events, d.number);
  }

  /**
   * `walk_live_tree` succeeds exactly when the root exists and no reachable directory
   * lacks its node, holds a refused name or points at a missing inode.
   */
  lemma WalkSucceedsIff(blob: Blob, windows: bool, root: u64)
    ensures WalkTree(blob, windows, root).error.None? <==>
      && InodeByNumber(blob, root).Some?
      && forall d :: Reachable(blob, InodeByNumber(blob, root).value, d) ==> Sound(blob, windows, d)
  {
    if InodeByNumber(blob, root).Some? {
      var r := InodeByNumber(blob, root).value;
      var w := WalkDir(blob, windows, r, [], []);
      DirSound(blob, windows, r, r, [], []);
      if w.error.None? {
        forall d | Reachable(blob, r, d) ensures Sound(blob, windows, d) {
          var path :| Leads(blob, r, path, d);
          if d.IsDirectory() {
            if r.IsDirectory() {
              ReachableIsReported(blob, windows, r, path, d);
              DirComplete(blob, windows, r, [], []);
            } else {
              NothingBelowNonDirectory(blob, r, path, d);
            }
          }
        }
      }
    }
  }

  lemma {:induction false} NothingBelowNonDirectory(blob: Blob, root: Inode, path: Path, inode: Inode)
    requires !root.IsDirectory() && Leads(blob, root, path, inode)
    ensures path == [] && inode == root
    decreases |path|
  {
    if path != [] {
      var d :| Leads(blob, root, Parent(path), d) && Edge(blob, d, Last(path), inode);
      NothingBelowNonDirectory(blob, root, Parent(path), d);
    }
  }

  /** An inode is reported by a successful walk iff it is reachable, a non-directory root aside. */
  lemma ReportedIffReachable(blob: Blob, windows: bool, root: u64, inode: Inode)
    requires WalkTree(blob, windows, root).error.None?
    ensures var r := InodeByNumber(blob, root).value;
      (exists e :: e in WalkTree(blob, windows, root).events && e.inode == inode)
      <==> r.IsDirectory() && Reachable(blob, r, inode)
  {
    var r := InodeByNumber(blob, root).value;
    var w := WalkDir(blob, windows, r, [], []);
    DirSound(blob, windows, r, r, [], []);
    if r.IsDirectory() && Reachable(blob, r, inode) {
      var path :| Leads(blob, r, path, inode);
      if inode.IsDirectory() {
        ReachableIsReported(blob, windows, r, path, inode);
      } else {
        var d :| Leads(blob, r, Parent(path), d) && Edge(blob, d, Last(path), inode);
        ReachableIsReported(blob, windows, r, Parent(path), d);
        DirComplete(blob, windows, r, [], []);
        var e :| e in w.events && e.inode == d;
        assert Handled(blob, e, w.events, w.visited);
      }
    }
  }

  // ----- Main theorem 2: each directory at most once -----

  /** No two directory events of one walk, failed or not, carry the same inode number. */
  lemma DirectoriesReportedOnce(blob: Blob, windows: bool, root: u64, i: nat, j: nat)
    requires i < j < |WalkTree(blob, windows, root).events|
    requires WalkTree(blob, windows, root).events[i].inode.IsDirectory()
    requires WalkTree(blob, windows, root).events[j].inode.IsDirectory()
    ensures WalkTree(blob, windows, root).events[i].inode.number != WalkTree(blob, windows, root).events[j].inode.number
  {
    var r := InodeByNumber(blob, root).value;
    var w := WalkDir(blob, windows, r, [], []);
    DirVisits(blob, windows, r, [], []);
    DirVisitsDistinct(blob, windows, r, [], []);
    assert [] + DirNumbers(w.events) == DirNumbers(w.events);
    DirNumbersIndex(w.events, i, j);
  }

  // ----- Main theorem 3: pre-order -----

  /** Event `e` is what directory event `d` has under the last name of its path. */
  ghost predicate ChildOf(blob: Blob, e: Event, d: Event) {
    && e.path != []
    && d.path == Parent(e.path)
    && Edge(blob, d.inode, Last(e.path), e.inode)
  }

  /** Some event before position `i` is the parent of event `i`. */
  ghost predicate HasParent(blob: Blob, events: seq<Event>, i: nat)
    requires i < |events|
  {
    exists j :: 0 <= j < i && ChildOf(blob, events[i], events[j])
  }

  ghost predicate ParentsFirst(blob: Blob, base: Event, events: seq<Event>) {
    forall i :: 0 <= i < |events| ==> ChildOf(blob, events[i], base) || HasParent(blob, events, i)
  }

  /** A parent found inside a list is still there when the list is part of a longer one. */
  lemma HasParentShift(blob: Blob, events: seq<Event>, i: nat, all: seq<Event>, offset: nat)
    requires i < |events| && HasParent(blob, events, i) && offset + |events| <= |all|
    requires all[offset..offset + |events|] == events
    ensures HasParent(blob, all, offset + i)
  {
    var j :| 0 <= j < i && ChildOf(blob, events[i], events[j]);
    assert all[offset + i] == events[i] && all[offset + j] == events[j];
  }

  lemma ParentsFirstAt(blob: Blob, base: Event, a: seq<Event>, b: seq<Event>, i: nat)
    requires ParentsFirst(blob, base, a) && ParentsFirst(blob, base, b) && i < |a + b|
    ensures ChildOf(blob, (a + b)[i], base) || HasParent(blob, a + b, i)
  {
    var ab := a + b;
    if i < |a| {
      assert ab[i] == a[i];
      if HasParent(blob, a, i) {
        assert ab[0..0 + |a|] == a;
        HasParentShift(blob, a, i, ab, 0);
      }
    } else {
      assert ab[i] == b[i - |a|];
      if HasParent(blob, b, i - |a|) {
        assert ab[|a|..|a| + |b|] == b;
        HasParentShift(blob, b, i - |a|, ab, |a|);
      }
    }
  }

  lemma ParentsFirstConcat(blob: Blob, base: Event, a: seq<Event>, b: seq<Event>)
    requires ParentsFirst(blob, base, a) && ParentsFirst(blob, base, b)
    ensures ParentsFirst(blob, base, a + b)
  {
    forall i | 0 <= i < |a + b| ensures ChildOf(blob, (a + b)[i], base) || HasParent(blob, a + b, i) {
      ParentsFirstAt(blob, base, a, b, i);
    }
  }

  /** A directory followed by everything below it: all but the first have their parent in the list. */
  lemma ParentsFirstBelow(blob: Blob, here: Event, below: seq<Event>, i: nat)
    requires i < |below| && (ChildOf(blob, below[i], here) || HasParent(blob, below, i))
    ensures HasParent(blob, [here] + below, i + 1)
  {
    var all := [here] + below;
    if HasParent(blob, below, i) {
      assert all[1..1 + |below|] == below;
      HasParentShift(blob, below, i, all, 1);
    } else {
      assert ChildOf(blob, all[i + 1], all[0]);
    }
  }

  lemma ParentsFirstNested(blob: Blob, base: Event, here: Event, below: seq<Event>)
    requires ChildOf(blob, here, base) && ParentsFirst(blob, here, below)
    ensures ParentsFirst(blob, base, [here] + below)
  {
    forall i | 0 < i < |[here] + below| ensures HasParent(blob, [here] + below, i) {
      ParentsFirstBelow(blob, here, below, i - 1);
    }
  }

  lemma {:induction false} EntriesParentsFirst(
    blob: Blob, windows: bool, d: Inode, entries: seq<DirEntry>, path: Path, visited: seq<u64>)
    requires d.IsDirectory() && NodeByHash(blob, d.content.hash).Some?
    requires forall e :: e in entries ==> e in NodeByHash(blob, d.content.hash).value
    ensures ParentsFirst(blob, Event(path, d), WalkEntries(blob, windows, entries, path, visited).events)
    decreases Unvisited(blob, visited), |entries| + 1
  {
    if entries != [] && ValidTreeName(entries[0].name, windows) {
      var found := InodeByNumber(blob, entries[0].inodeNumber);
      if found.Some? {
        var child, p := found.value, path + [entries[0].name];
        var first := WalkChild(blob, windows, child, p, visited);
        assert entries[0] in NodeByHash(blob, d.content.hash).value;
        assert Edge(blob, d, entries[0].name, child);
        assert Parent(p) == path;
        ChildParentsFirst(blob, windows, Event(path, d), child, p, visited);
        if first.error.None? {
          EntriesParentsFirst(blob, windows, d, entries[1..], path, first.visited);
          ParentsFirstConcat(blob, Event(path, d), first.events,
            WalkEntries(blob, windows, entries[1..], path, first.visited).events);
        }
      }
    }
  }

  lemma {:induction false} ChildParentsFirst(
    blob: Blob, windows: bool, base: Event, child: Inode, path: Path, visited: seq<u64>)
    requires Canonical(blob, child) && ChildOf(blob, Event(path, child), base)
    ensures ParentsFirst(blob, base, WalkChild(blob, windows, child, path, visited).events)
    decreases Unvisited(blob, visited), 1
  {
    if child.IsDirectory() && child.number !in visited {
      assert child.number in Unvisited(blob, visited);
      var seen := visited + [child.number];
      assert child.number !in Unvisited(blob, seen);
      var node := NodeByHash(blob, child.content.hash);
      if node.Some? {
        EntriesParentsFirst(blob, windows, child, node.value, path, seen);
        ParentsFirstNested(blob, base, Event(path, child), WalkEntries(blob, windows, node.value, path, seen).events);
      }
    }
  }

  lemma ParentReported(blob: Blob, windows: bool, root: u64, i: nat)
    requires 0 < i < |WalkTree(blob, windows, root).events|
    ensures WalkTree(blob, windows, root).events[0] == Event([], InodeByNumber(blob, root).value)
    ensures HasParent(blob, WalkTree(blob, windows, root).events, i)
  {
    hide FindInode, FindNode, ValidTreeName;
    var r := InodeByNumber(blob, root).value;
    RootEntries(blob, windows, root);
    EntriesParentsFirst(blob, windows, r, NodeByHash(blob, r.content.hash).value, [], [r.number]);
    hide WalkTree, WalkEntries, Edge;
    var events := WalkTree(blob, windows, root).events;
    ParentsFirstBelow(blob, events[0], events[1..], i - 1);
    assert [events[0]] + events[1..] == events;
  }

  /**
   * Every event but the root's follows the event of the directory that holds it, and its path is handed over
   * as that directory's path joined with its name.
   */
  lemma PreOrder(blob: Blob, windows: bool, root: u64, i: nat)
    requires i < |WalkTree(blob, windows, root).events|
    ensures var events, reports := WalkTree(blob, windows, root).events, Reports(blob, windows, root);
      if i == 0 then events[0] == Event([], InodeByNumber(blob, root).value)
      else exists j ::
        && 0 <= j < i && ChildOf(blob, events[i], events[j])
        && reports[i].path == JoinName(windows, reports[j].path, Last(events[i].path))
  {
    if i > 0 {
      ParentReported(blob, windows, root, i);
      hide WalkTree, Edge;
      var events := WalkTree(blob, windows, root).events;
      var j :| 0 <= j < i && ChildOf(blob, events[i], events[j]);
      assert Reports(blob, windows, root)[i].path == Spelled(windows, events[i].path);
    }
  }

  // ----- Main theorem 4: distinct paths -----

  /** All paths of `events` extend `path` by a name used in `entries`. */
  ghost predicate Under(path: Path, entries: seq<DirEntry>, events: seq<Event>) {
    forall i :: 0 <= i < |events| ==>
      && path < events[i].path
      && exists k :: 0 <= k < |entries| && entries[k].name == events[i].path[|path|]
  }

  ghost predicate DistinctPaths(events: seq<Event>) {
    forall i, j :: 0 <= i < j < |events| ==> events[i].path != events[j].path
  }

  lemma SamePathSameEvent(events: seq<Event>, e: Event, f: Event)
    requires DistinctPaths(events) && e in events && f in events && e.path == f.path
    ensures e == f
  {
    var i :| 0 <= i < |events| && events[i] == e;
    var j :| 0 <= j < |events| && events[j] == f;
  }

  lemma {:induction false} EntriesDistinct(
    blob: Blob, windows: bool, entries: seq<DirEntry>, path: Path, visited: seq<u64>)
    requires BlobHasUniqueNames(blob) && UniqueNames(entries)
    ensures var w := WalkEntries(blob, windows, entries, path, visited);
      Under(path, entries, w.events) && DistinctPaths(w.events)
    decreases Unvisited(blob, visited), |entries| + 1
  {
    hide ValidTreeName, FindInode, BlobHasUniqueNames;
    if entries != [] && ValidTreeName(entries[0].name, windows) {
      var found := InodeByNumber(blob, entries[0].inodeNumber);
      if found.Some? {
        var child, p := found.value, path + [entries[0].name];
        var first := WalkChild(blob, windows, child, p, visited);
        ChildDistinct(blob, windows, child, p, visited);
        assert forall e :: e in first.events ==> e.path[|path|] == entries[0].name;
        if first.error.None? {
          var rest := WalkEntries(blob, windows, entries[1..], path, first.visited);
          EntriesDistinct(blob, windows, entries[1..], path, first.visited);
          forall i, j | 0 <= i < |first.events| && 0 <= j < |rest.events|
            ensures first.events[i].path != rest.events[j].path
          {
            assert first.events[i] in first.events;
            var k :| 0 <= k < |entries[1..]| && entries[1..][k].name == rest.events[j].path[|path|];
            assert entries[k + 1].name != entries[0].name;
          }
          UnderConcat(path, entries, first.events, rest.events);
        }
      }
    }
  }

  lemma UnderConcat(path: Path, entries: seq<DirEntry>, a: seq<Event>, b: seq<Event>)
    requires entries != []
    requires forall e :: e in a ==> path < e.path && e.path[|path|] == entries[0].name
    requires Under(path, entries[1..], b)
    ensures Under(path, entries, a + b)
  {
    var ab := a + b;
    forall i | 0 <= i < |ab|
      ensures path < ab[i].path && exists k :: 0 <= k < |entries| && entries[k].name == ab[i].path[|path|]
    {
      if i < |a| {
        assert ab[i] in a;
        assert entries[0].name == ab[i].path[|path|];
      } else {
        var k :| 0 <= k < |entries[1..]| && entries[1..][k].name == b[i - |a|].path[|path|];
        assert entries[k + 1].name == ab[i].path[|path|];
      }
    }
  }

  lemma {:induction false} ChildDistinct(blob: Blob, windows: bool, child: Inode, path: Path, visited: seq<u64>)
    requires Canonical(blob, child) && BlobHasUniqueNames(blob)
    ensures var w := WalkChild(blob, windows, child, path, visited);
      (forall e :: e in w.events ==> path <= e.path) && DistinctPaths(w.events)
    decreases Unvisited(blob, visited), 1
  {
    if child.IsDirectory() && child.number !in visited {
      assert child.number in Unvisited(blob, visited);
      var seen := visited + [child.number];
      assert child.number !in Unvisited(blob, seen);
      var node := NodeByHash(blob, child.content.hash);
      if node.Some? {
        EntriesDistinct(blob, windows, node.value, path, seen);
      }
    }
  }

  /** With the names the directory-node parser admits, no list of names is followed twice in the whole tree. */
  lemma PathsDistinct(blob: Blob, windows: bool, root: u64)
    requires BlobHasUniqueNames(blob)
    ensures DistinctPaths(WalkTree(blob, windows, root).events)
  {
    if InodeByNumber(blob, root).Some? {
      ChildDistinct(blob, windows, InodeByNumber(blob, root).value, [], []);
    }
  }
}
