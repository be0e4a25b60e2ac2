/**
 * The paths a walk hands to its sink, against the names it followed: on Windows a name that starts with a
 * drive makes the path forget the names before it and the destination in front.
 */
module ReportedPaths {
  import opened Bytes
  import opened Metadata
  import opened TreePaths
  import opened Walk
  import opened WalkProperties

  // ----- Reported paths are made of accepted names -----

  ghost predicate Named(windows: bool, path: Path) {
    forall c :: c in path ==> ValidTreeName(c, windows)
  }

  lemma {:induction false} DirNamed(blob: Blob, windows: bool, inode: Inode, path: Path, visited: seq<u64>)
    requires Canonical(blob, inode) && Named(windows, path)
    ensures forall e :: e in WalkDir(blob, windows, inode, path, visited).events ==> Named(windows, e.path)
    decreases Unvisited(blob, visited), 0
  {
    if inode.IsDirectory() && inode.number !in visited {
      assert inode.number in Unvisited(blob, visited);
      var seen := visited + [inode.number];
      assert inode.number !in Unvisited(blob, seen);
      var node := NodeByHash(blob, inode.content.hash);
      if node.Some? { EntriesNamed(blob, windows, node.value, path, seen); }
    }
  }

  lemma {:induction false} EntriesNamed(blob: Blob, windows: bool, entries: seq<DirEntry>, path: Path,
    visited: seq<u64>)
    requires Named(windows, path)
    ensures forall e :: e in WalkEntries(blob, windows, entries, path, visited).events ==> Named(windows, e.path)
    decreases Unvisited(blob, visited), |entries| + 1
  {
    if entries != [] && ValidTreeName(entries[0].name, windows) {
      var child := InodeByNumber(blob, entries[0].inodeNumber);
      if child.Some? {
        var p := path + [entries[0].name];
        if child.value.IsDirectory() { DirNamed(blob, windows, child.value, p, visited); }
        var first := WalkChild(blob, windows, child.value, p, visited);
        if first.error.None? { EntriesNamed(blob, windows, entries[1..], path, first.visited); }
      }
    }
  }

  // ----- Reported paths stay below the extraction root -----

  predicate Separator(b: byte, windows: bool) { b == SLASH || (windows && b == BACKSLASH) }

  /** Where names lead lexically from `at`: empty and `.` stay, `..` goes up, and above the root there is nothing. */
  function Lexical(at: Path, names: Path): Option<Path>
    decreases |names|
  {
    if names == [] then Some(at)
    else if names[0] == [] || names[0] == [DOT] then Lexical(at, names[1..])
    else if names[0] == [DOT, DOT] then if at == [] then None else Lexical(Parent(at), names[1..])
    else Lexical(at + [names[0]], names[1..])
  }

  /** An accepted name is exactly one without NUL and separators that leads one component down. */
  lemma ValidTreeNameIff(name: Name, windows: bool)
    ensures ValidTreeName(name, windows) <==>
      && NUL !in name && (forall b :: b in name ==> !Separator(b, windows))
      && Lexical([], [name]) == Some([name])
  {
    assert [name][1..] == [] && [] + [name] == [name];
  }

  lemma {:induction false} NamedIsLexical(windows: bool, at: Path, path: Path)
    requires Named(windows, path)
    ensures Lexical(at, path) == Some(at + path)
    decreases |path|
  {
    if path == [] {
      assert at + path == at;
    } else {
      assert path[0] in path && path == [path[0]] + path[1..];
      NamedIsLexical(windows, at + [path[0]], path[1..]);
      assert (at + [path[0]]) + path[1..] == at + path;
    }
  }

  lemma NamesFollowed(blob: Blob, windows: bool, root: u64, e: Event)
    requires e in WalkTree(blob, windows, root).events
    ensures Named(windows, e.path) && NonEmpty(e.path)
  {
    DirNamed(blob, windows, InodeByNumber(blob, root).value, [], []);
    hide WalkTree, ValidTreeName;
    forall i | 0 <= i < |e.path| ensures e.path[i] != [] {
      assert e.path[i] in e.path && ValidTreeName(e.path[i], windows);
      NoEmptyName(e.path[i], windows);
    }
  }

  lemma NoEmptyName(name: Name, windows: bool)
    requires ValidTreeName(name, windows)
    ensures name != []
  {
  }

  /**
   * The names followed never go up, and hold no separator; what is reported is put below the destination
   * `base` under those names iff none of them is a drive, and otherwise at a place `base` plays no part in.
   */
  lemma ReportedStaysInside(blob: Blob, windows: bool, root: u64, e: Event, base: Path)
    requires e in WalkTree(blob, windows, root).events
    requires base != [] && NonEmpty(base) && Merged(windows, base) == base
    ensures Lexical([], e.path) == Some(e.path)
    ensures forall c, b :: c in e.path && b in c ==> !Separator(b, windows)
    ensures var placed := Joined(windows, base, SpelledEvent(windows, e).path);
      && (placed == Merged(windows, base + e.path) <==> !Driven(windows, e.path))
      && (Driven(windows, e.path) ==> placed == SpelledEvent(windows, e).path)
  {
    NamesFollowed(blob, windows, root, e);
    NamedIsLexical(windows, [], e.path);
    assert [] + e.path == e.path;
    PlacedInsideIff(windows, base, e.path);
  }

  // ----- When the paths handed over are the names followed -----

  /** No name followed starts with a drive, or drives mean nothing. */
  ghost predicate NoDrives(windows: bool, events: seq<Event>) {
    forall e :: e in events ==> !Driven(windows, e.path)
  }

  lemma ReportsAsNamed(blob: Blob, windows: bool, root: u64)
    requires NoDrives(windows, WalkTree(blob, windows, root).events)
    ensures Reports(blob, windows, root) == WalkTree(blob, windows, root).events
  {
    var events := WalkTree(blob, windows, root).events;
    forall i | 0 <= i < |events| ensures SpelledEvent(windows, events[i]) == events[i] {
      assert events[i] in events;
      NamesFollowed(blob, windows, root, events[i]);
      SpelledIs(windows, events[i].path);
    }
  }

  ghost predicate DriveEntry(blob: Blob, d: Inode) {
    exists name, child :: Edge(blob, d, name, child) && DrivePrefixed(name)
  }

  /** A drive among the names followed is an entry of a reachable directory. */
  lemma {:induction false} DriveFollowed(blob: Blob, root: Inode, path: Path, inode: Inode)
    requires Leads(blob, root, path, inode) && Driven(true, path)
    ensures exists d :: Reachable(blob, root, d) && DriveEntry(blob, d)
    decreases |path|
  {
    var d :| Leads(blob, root, Parent(path), d) && Edge(blob, d, Last(path), inode);
    DrivenSnoc(true, path);
    if DrivePrefixed(Last(path)) {
      assert Reachable(blob, root, d) && DriveEntry(blob, d);
    } else {
      DriveFollowed(blob, root, Parent(path), d);
    }
  }

  /** If no reachable directory has an entry that starts with a drive, every path is handed over as named. */
  lemma DrivelessReports(blob: Blob, windows: bool, root: u64)
    requires InodeByNumber(blob, root).Some?
    requires windows ==> forall d :: Reachable(blob, InodeByNumber(blob, root).value, d) ==> !DriveEntry(blob, d)
    ensures NoDrives(windows, WalkTree(blob, windows, root).events)
  {
    var r := InodeByNumber(blob, root).value;
    DirSound(blob, windows, r, r, [], []);
    forall e | e in WalkTree(blob, windows, root).events ensures !Driven(windows, e.path) {
      if Driven(windows, e.path) { DriveFollowed(blob, r, e.path, e.inode); }
    }
  }

  // ----- When they are distinct -----

  /** Both paths pass a drive, and from there on they are the same. */
  ghost predicate MeetAtDrive(windows: bool, p: Path, q: Path) {
    Driven(windows, p) && Driven(windows, q) && Merged(windows, FromDrive(p)) == Merged(windows, FromDrive(q))
  }

  /** With unique names in every node, the paths handed over are distinct iff no two meet at a drive. */
  lemma ReportsDistinctIff(blob: Blob, windows: bool, root: u64)
    requires BlobHasUniqueNames(blob)
    ensures var events := WalkTree(blob, windows, root).events;
      DistinctPaths(Reports(blob, windows, root)) <==>
        forall i, j :: 0 <= i < j < |events| ==> !MeetAtDrive(windows, events[i].path, events[j].path)
  {
    PathsDistinct(blob, windows, root);
    var events, reports := WalkTree(blob, windows, root).events, Reports(blob, windows, root);
    forall i, j | 0 <= i < j < |events|
      ensures reports[i].path == reports[j].path <==> MeetAtDrive(windows, events[i].path, events[j].path)
    {
      assert events[i] in events && events[j] in events;
      NamesFollowed(blob, windows, root, events[i]);
      NamesFollowed(blob, windows, root, events[j]);
      SpelledAlikeIff(windows, events[i].path, events[j].path);
    }
  }

  // ----- A tree that leaves its destination on Windows -----

  const DRIVE_NAME: Name := [0x43, 0x3A, 0x78]
  const PLAIN_NAME: Name := [0x61]

  function HashOf(b: byte): Digest { seq(32, _ => b) }

  const DRIVE_ROOT := Inode(1, S_IFDIR, Directory(HashOf(2)))
  const DRIVE_DIR := Inode(2, S_IFDIR, Directory(HashOf(1)))

  const TOP: seq<DirEntry> := [DirEntry(DRIVE_NAME, 3, 1), DirEntry(PLAIN_NAME, 2, 2)]
  const LOW: seq<DirEntry> := [DirEntry(DRIVE_NAME, 4, 1)]

  /** A root with a file `C:x` and a directory `a`, which holds another file `C:x`. */
  function DriveBlob(first: Inode, second: Inode): Blob {
    Blob([DRIVE_ROOT, DRIVE_DIR, first, second], [TOP, LOW],
      entries => HashOf(if |entries| == 2 then 2 else 1))
  }

  ghost predicate DriveFiles(first: Inode, second: Inode) {
    first.number == 3 && second.number == 4 && first.IsFile() && second.IsFile()
  }

  lemma DriveInodes(first: Inode, second: Inode)
    requires DriveFiles(first, second)
    ensures var blob := DriveBlob(first, second);
      && InodeByNumber(blob, 1) == Some(DRIVE_ROOT) && InodeByNumber(blob, 2) == Some(DRIVE_DIR)
      && InodeByNumber(blob, 3) == Some(first) && InodeByNumber(blob, 4) == Some(second)
  {
    var inodes := DriveBlob(first, second).inodes;
    assert inodes[1..] == [DRIVE_DIR, first, second] && inodes[1..][1..] == [first, second];
    assert inodes[1..][1..][1..] == [second];
  }

  lemma DriveNodes(first: Inode, second: Inode, windows: bool)
    ensures var blob := DriveBlob(first, second);
      NodeByHash(blob, HashOf(2)) == Some(TOP) && NodeByHash(blob, HashOf(1)) == Some(LOW)
    ensures ValidTreeName(DRIVE_NAME, windows) && ValidTreeName(PLAIN_NAME, windows)
  {
    hide FindInode;
    var blob := DriveBlob(first, second);
    assert HashOf(1)[0] != HashOf(2)[0];
    assert blob.dirNodes[1..] == [LOW] && blob.nodeHash(TOP) == HashOf(2) && blob.nodeHash(LOW) == HashOf(1);
  }

  lemma DriveBelow(blob: Blob, second: Inode, windows: bool)
    requires InodeByNumber(blob, 2) == Some(DRIVE_DIR) && InodeByNumber(blob, 4) == Some(second)
    requires NodeByHash(blob, HashOf(1)) == Some(LOW) && ValidTreeName(DRIVE_NAME, windows) && second.IsFile()
    ensures WalkDir(blob, windows, DRIVE_DIR, [PLAIN_NAME], [1]) == Walked(
      [Event([PLAIN_NAME], DRIVE_DIR), Event([PLAIN_NAME, DRIVE_NAME], second)], [1, 2], None)
  {
    hide ValidTreeName, FindInode, FindNode, HashOf;
    assert LOW[1..] == [] && [PLAIN_NAME] + [DRIVE_NAME] == [PLAIN_NAME, DRIVE_NAME] && [1] + [2] == [1, 2];
    FileEntry(blob, windows, LOW, [PLAIN_NAME], [1, 2]);
    assert WalkEntries(blob, windows, LOW[1..], [PLAIN_NAME], [1, 2]) == Walked([], [1, 2], None);
  }

  lemma DriveWalk(first: Inode, second: Inode, windows: bool)
    requires DriveFiles(first, second)
    ensures WalkTree(DriveBlob(first, second), windows, 1) == Walked(
      [Event([], DRIVE_ROOT), Event([DRIVE_NAME], first), Event([PLAIN_NAME], DRIVE_DIR),
       Event([PLAIN_NAME, DRIVE_NAME], second)], [1, 2], None)
  {
    DriveInodes(first, second);
    DriveNodes(first, second, windows);
    hide ValidTreeName, FindInode, FindNode, DriveBlob, HashOf;
    var blob := DriveBlob(first, second);
    DriveEntries(blob, first, second, windows);
    RootEntries(blob, windows, 1);
    hide WalkEntries, WalkTree;
  }

  lemma DriveEntries(blob: Blob, first: Inode, second: Inode, windows: bool)
    requires InodeByNumber(blob, 2) == Some(DRIVE_DIR) && InodeByNumber(blob, 3) == Some(first)
    requires InodeByNumber(blob, 4) == Some(second) && DriveFiles(first, second)
    requires NodeByHash(blob, HashOf(1)) == Some(LOW)
    requires ValidTreeName(DRIVE_NAME, windows) && ValidTreeName(PLAIN_NAME, windows)
    ensures WalkEntries(blob, windows, TOP, [], [1]) == Walked(
      [Event([DRIVE_NAME], first), Event([PLAIN_NAME], DRIVE_DIR), Event([PLAIN_NAME, DRIVE_NAME], second)],
      [1, 2], None)
  {
    hide ValidTreeName, FindInode, FindNode, HashOf, WalkEntries, WalkDir;
    DriveBelow(blob, second, windows);
    var below := Walked([Event([PLAIN_NAME], DRIVE_DIR), Event([PLAIN_NAME, DRIVE_NAME], second)], [1, 2], None);
    assert TOP[1..] == [DirEntry(PLAIN_NAME, 2, 2)];
    assert [] + [DRIVE_NAME] == [DRIVE_NAME] && [] + [PLAIN_NAME] == [PLAIN_NAME];
    FileEntry(blob, windows, TOP, [], [1]);
    LastDirectory(blob, windows, TOP[1..], [], [1], below);
  }

  /** On Windows both files are handed over as `C:x`, and neither is put below the destination. */
  lemma DriveNamesCollide(first: Inode, second: Inode, base: Path)
    requires DriveFiles(first, second)
    ensures var reports := Reports(DriveBlob(first, second), true, 1);
      && WalkTree(DriveBlob(first, second), true, 1).error.None? && |reports| == 4
      && reports[1] == Event([DRIVE_NAME], first) && reports[3] == Event([DRIVE_NAME], second)
      && Joined(true, base, reports[1].path) == [DRIVE_NAME] == Joined(true, base, reports[3].path)
  {
    DriveWalk(first, second, true);
    assert Parent([PLAIN_NAME, DRIVE_NAME]) == [PLAIN_NAME] && Parent([DRIVE_NAME]) == [];
  }
}
