/** `resolve_path`, an independent lookup over the same graph, agrees with the walk. */
module ResolvePath {
  import opened Bytes
  import opened Metadata
  import opened TreePaths
  import opened Walk
  import opened WalkProperties
  import opened ReportedPaths

  // ----- Slash-separated strings -----

  function TrimStart(s: seq<byte>): seq<byte> {
    if s != [] && s[0] == SLASH then TrimStart(s[1..]) else s
  }

  function TrimEnd(s: seq<byte>): seq<byte> {
    if s != [] && s[|s| - 1] == SLASH then TrimEnd(s[..|s| - 1]) else s
  }

  function Trim(s: seq<byte>): seq<byte> { TrimEnd(TrimStart(s)) }

  function SlashIndex(s: seq<byte>): (i: nat)
    ensures i <= |s| && (i < |s| ==> s[i] == SLASH) && SLASH !in s[..i]
  {
    if s == [] || s[0] == SLASH then 0
    else
      assert s[..SlashIndex(s[1..]) + 1] == [s[0]] + s[1..][..SlashIndex(s[1..])];
      SlashIndex(s[1..]) + 1
  }

  /** `str::split('/')`. */
  function Split(s: seq<byte>): (p: Path)
    ensures p != []
    decreases |s|
  {
    var i := SlashIndex(s);
    if i == |s| then [s] else [s[..i]] + Split(s[i + 1..])
  }

  function Join(p: Path): seq<byte> {
    if p == [] then [] else if |p| == 1 then p[0] else p[0] + [SLASH] + Join(p[1..])
  }

  ghost predicate Component(c: Name) { c != [] && SLASH !in c }

  ghost predicate Components(p: Path) { forall c :: c in p ==> Component(c) }

  lemma {:induction false} SlashIndexAfter(c: Name, rest: seq<byte>)
    requires SLASH !in c
    ensures SlashIndex(c + [SLASH] + rest) == |c|
    decreases |c|
  {
    if c != [] {
      assert c[0] != SLASH;
      assert (c + [SLASH] + rest)[1..] == c[1..] + [SLASH] + rest;
      SlashIndexAfter(c[1..], rest);
    }
  }

  lemma Sliced(c: Name, rest: seq<byte>)
    ensures (c + [SLASH] + rest)[..|c|] == c && (c + [SLASH] + rest)[|c| + 1..] == rest
  {
  }

  lemma {:induction false} SplitJoin(p: Path)
    requires p != [] && Components(p)
    ensures Split(Join(p)) == p
    decreases |p|
  {
    assert p[0] in p && Component(p[0]);
    if |p| == 1 {
      var i := SlashIndex(p[0]);
      assert i == |p[0]|;
    } else {
      SlashIndexAfter(p[0], Join(p[1..]));
      SplitJoin(p[1..]);
      Sliced(p[0], Join(p[1..]));
    }
  }

  lemma {:induction false} JoinSplit(s: seq<byte>)
    ensures Join(Split(s)) == s
    decreases |s|
  {
    var i := SlashIndex(s);
    if i < |s| {
      JoinSplit(s[i + 1..]);
      var p := Split(s);
      assert p[1..] == Split(s[i + 1..]);
      assert s == s[..i] + [SLASH] + s[i + 1..];
    }
  }

  lemma {:induction false} JoinEnds(p: Path)
    requires p != [] && Components(p)
    ensures Join(p) != [] && Join(p)[0] != SLASH && Join(p)[|Join(p)| - 1] != SLASH
    decreases |p|
  {
    assert p[0] in p && p[0] != [] && p[0][0] in p[0] && p[0][|p[0]| - 1] in p[0];
    if |p| > 1 { JoinEnds(p[1..]); }
  }

  /** Joining and splitting are inverse on component lists, trimming included. */
  lemma TrimJoin(p: Path)
    requires Components(p)
    ensures Trim(Join(p)) == Join(p)
  {
    if p != [] { JoinEnds(p); }
  }

  // ----- Trimming -----

  function Slashes(k: nat): seq<byte> { seq(k, _ => SLASH) }

  /** Neither end is a slash. */
  ghost predicate Bare(s: seq<byte>) { s != [] ==> s[0] != SLASH && s[|s| - 1] != SLASH }

  lemma {:induction false} TrimStartIs(k: nat, s: seq<byte>)
    requires s == [] || s[0] != SLASH
    ensures TrimStart(Slashes(k) + s) == s
    decreases k
  {
    if k == 0 {
      assert Slashes(k) + s == s;
    } else {
      assert (Slashes(k) + s)[0] == SLASH && (Slashes(k) + s)[1..] == Slashes(k - 1) + s;
      TrimStartIs(k - 1, s);
    }
  }

  lemma {:induction false} TrimEndIs(s: seq<byte>, m: nat)
    requires s == [] || s[|s| - 1] != SLASH
    ensures TrimEnd(s + Slashes(m)) == s
    decreases m
  {
    var t := s + Slashes(m);
    if m == 0 {
      assert t == s;
    } else {
      assert t[|t| - 1] == SLASH && t[..|t| - 1] == s + Slashes(m - 1);
      TrimEndIs(s, m - 1);
    }
  }

  /** Trimming takes off all slashes at both ends and nothing else. */
  lemma TrimIs(k: nat, s: seq<byte>, m: nat)
    requires Bare(s)
    ensures Trim(Slashes(k) + s + Slashes(m)) == s
  {
    hide TrimStart, TrimEnd;
    if s == [] {
      assert Slashes(k) + s + Slashes(m) == Slashes(k + m) + [];
      TrimStartIs(k + m, []);
      TrimEndIs([], 0);
      assert [] + Slashes(0) == [];
    } else {
      Assoc(Slashes(k), s, Slashes(m));
      TrimStartIs(k, s + Slashes(m));
      TrimEndIs(s, m);
    }
  }

  // ----- The lookup -----

  function FindEntry(entries: seq<DirEntry>, name: Name): (r: Option<DirEntry>)
    ensures r.Some? ==> r.value in entries && r.value.name == name
    ensures r.None? ==> forall e :: e in entries ==> e.name != name
  {
    if entries == [] then None
    else if entries[0].name == name then Some(entries[0])
    else FindEntry(entries[1..], name)
  }

  /** One iteration of the loop of `resolve_path`. */
  function Descend(blob: Blob, current: Inode, component: Name): Option<Inode> {
    if component == [] || NUL in component || !current.IsDirectory() then None
    else
      match NodeByHash(blob, current.content.hash)
      case None => None
      case Some(entries) =>
        match FindEntry(entries, component)
        case None => None
        case Some(e) => InodeByNumber(blob, e.inodeNumber)
  }

  function Resolve(blob: Blob, root: Inode, path: Path): Option<Inode>
    decreases |path|
  {
    if path == [] then Some(root)
    else
      match Resolve(blob, root, Parent(path))
      case None => None
      case Some(d) => Descend(blob, d, Last(path))
  }

  lemma {:induction false} ResolveStaysNone(blob: Blob, root: Inode, path: Path, n: nat)
    requires n <= |path| && Resolve(blob, root, path[..n]).None?
    ensures Resolve(blob, root, path).None?
    decreases |path|
  {
    if n == |path| {
      assert path[..n] == path;
    } else {
      assert Parent(path)[..n] == path[..n];
      ResolveStaysNone(blob, root, Parent(path), n);
    }
  }

  function ResolveString(blob: Blob, root: Inode, s: seq<byte>): Option<Inode> {
    if Trim(s) == [] then Some(root) else Resolve(blob, root, Split(Trim(s)))
  }

  /** A path resolves by its components, whatever slashes stand around it. */
  lemma SlashesResolve(blob: Blob, root: Inode, k: nat, p: Path, m: nat)
    requires Components(p)
    ensures ResolveString(blob, root, Slashes(k) + Join(p) + Slashes(m)) == Resolve(blob, root, p)
  {
    if p != [] {
      JoinEnds(p);
      SplitJoin(p);
    }
    TrimIs(k, Join(p), m);
  }

  /** `resolve_path`. */
  method ResolvePath(blob: Blob, root: Inode, s: seq<byte>) returns (r: Option<Inode>)
    ensures r == ResolveString(blob, root, s)
  {
    var trimmed := Trim(s);
    if trimmed == [] { return Some(root); }
    var components := Split(trimmed);
    var current := root;
    var i := 0;
    while i < |components|
      invariant 0 <= i <= |components|
      invariant Resolve(blob, root, components[..i]) == Some(current)
    {
      var next := Descend(blob, current, components[i]);
      assert Parent(components[..i + 1]) == components[..i] && Last(components[..i + 1]) == components[i];
      if next.None? {
        ResolveStaysNone(blob, root, components, i + 1);
        return None;
      }
      current := next.value;
      i := i + 1;
    }
    assert components[..i] == components;
    return Some(current);
  }

  // ----- The lookup is reachability by name -----

  lemma DescendIsEdge(blob: Blob, d: Inode, name: Name, child: Inode)
    requires BlobHasUniqueNames(blob)
    ensures Descend(blob, d, name) == Some(child) <==> Edge(blob, d, name, child) && name != [] && NUL !in name
  {
    if d.IsDirectory() && NodeByHash(blob, d.content.hash).Some? {
      var entries := NodeByHash(blob, d.content.hash).value;
      var found := FindEntry(entries, name);
      if found.Some? {
        forall e | e in entries && e.name == name ensures e == found.value {
          var i :| 0 <= i < |entries| && entries[i] == e;
          var j :| 0 <= j < |entries| && entries[j] == found.value;
        }
      }
    }
  }

  /** The component test of the loop. */
  ghost predicate Plain(path: Path) { forall i :: 0 <= i < |path| ==> path[i] != [] && NUL !in path[i] }

  /** With unique names a path resolves to an inode exactly when its names lead there. */
  lemma {:induction false} ResolveIffLeads(blob: Blob, root: Inode, path: Path, inode: Inode)
    requires BlobHasUniqueNames(blob)
    ensures Resolve(blob, root, path) == Some(inode) <==> Leads(blob, root, path, inode) && Plain(path)
    decreases |path|
  {
    if path != [] {
      var parent, name := Parent(path), Last(path);
      assert path == parent + [name];
      assert Plain(path) <==> Plain(parent) && name != [] && NUL !in name;
      if Resolve(blob, root, path) == Some(inode) {
        var d := Resolve(blob, root, parent).value;
        ResolveIffLeads(blob, root, parent, d);
        DescendIsEdge(blob, d, name, inode);
      } else if Leads(blob, root, path, inode) && Plain(path) {
        var d :| Leads(blob, root, parent, d) && Edge(blob, d, name, inode);
        ResolveIffLeads(blob, root, parent, d);
        DescendIsEdge(blob, d, name, inode);
      }
    }
  }

  // ----- Main theorem 1: what the walk reports, the lookup finds -----

  /** The names followed resolve to the inode reported, and so does the path handed over if it is just those names. */
  lemma ReportedResolves(blob: Blob, windows: bool, root: u64, e: Event)
    requires BlobHasUniqueNames(blob) && e in WalkTree(blob, windows, root).events
    ensures var r, handed := InodeByNumber(blob, root).value, SpelledEvent(windows, e).path;
      && ResolveString(blob, r, Join(e.path)) == Some(e.inode)
      && (!Driven(windows, e.path) ==> ResolveString(blob, r, Join(handed)) == Some(e.inode))
  {
    NamesFollowed(blob, windows, root, e);
    SpelledIs(windows, e.path);
    var r := InodeByNumber(blob, root).value;
    DirNamed(blob, windows, r, [], []);
    DirSound(blob, windows, r, r, [], []);
    assert Leads(blob, r, e.path, e.inode);
    NamedIsPlain(windows, e.path);
    ResolveIffLeads(blob, r, e.path, e.inode);
    ResolveJoined(blob, r, e.path);
  }

  lemma NamedIsPlain(windows: bool, path: Path)
    requires Named(windows, path)
    ensures Components(path) && Plain(path)
  {
    forall i | 0 <= i < |path| ensures path[i] != [] && NUL !in path[i] {
      assert path[i] in path;
    }
  }

  lemma ResolveJoined(blob: Blob, root: Inode, path: Path)
    requires Components(path)
    ensures ResolveString(blob, root, Join(path)) == Resolve(blob, root, path)
  {
    TrimJoin(path);
    if path != [] {
      JoinEnds(path);
      SplitJoin(path);
    }
  }

  // ----- Main theorem 2: the walk reports every path the lookup finds, exactly on trees -----

  /** No reachable directory is entered twice, and none holds the root. */
  ghost predicate OneParent(blob: Blob, root: Inode) {
    && (forall d, n :: Reachable(blob, root, d) ==> !Edge(blob, d, n, root))
    && (forall d, n, d', n', m: Inode ::
          (Reachable(blob, root, d) && Reachable(blob, root, d') && m.IsDirectory()
           && Edge(blob, d, n, m) && Edge(blob, d', n', m)) ==> d == d' && n == n')
  }

  ghost predicate AllReported(blob: Blob, windows: bool, root: Inode)
    requires Canonical(blob, root)
  {
    forall path, inode :: Leads(blob, root, path, inode) ==>
      Event(path, inode) in WalkDir(blob, windows, root, [], []).events
  }

  lemma SameDirectorySameEvent(blob: Blob, windows: bool, root: u64, e: Event, f: Event)
    requires e in WalkTree(blob, windows, root).events && f in WalkTree(blob, windows, root).events
    requires e.inode.IsDirectory() && e.inode == f.inode
    ensures e == f
  {
    var events := WalkTree(blob, windows, root).events;
    var i :| 0 <= i < |events| && events[i] == e;
    var j :| 0 <= j < |events| && events[j] == f;
    if i < j { DirectoriesReportedOnce(blob, windows, root, i, j); }
    if j < i { DirectoriesReportedOnce(blob, windows, root, j, i); }
  }

  lemma ReportedParent(blob: Blob, windows: bool, root: u64, f: Event) returns (g: Event)
    requires f in WalkTree(blob, windows, root).events && f.path != []
    ensures g in WalkTree(blob, windows, root).events && ChildOf(blob, f, g)
  {
    var events := WalkTree(blob, windows, root).events;
    var i :| 0 <= i < |events| && events[i] == f;
    PreOrder(blob, windows, root, i);
    var j :| 0 <= j < i && ChildOf(blob, events[i], events[j]);
    g := events[j];
  }

  /** On a tree, a directory below a reported directory was reported under exactly that path. */
  lemma DirectoryReportedHere(blob: Blob, windows: bool, root: u64, path: Path, d: Inode, m: Inode)
    requires WalkTree(blob, windows, root).error.None? && InodeByNumber(blob, root).value.IsDirectory()
    requires OneParent(blob, InodeByNumber(blob, root).value) && path != [] && m.IsDirectory()
    requires Leads(blob, InodeByNumber(blob, root).value, Parent(path), d) && Edge(blob, d, Last(path), m)
    requires Event(Parent(path), d) in WalkTree(blob, windows, root).events
    ensures Event(path, m) in WalkTree(blob, windows, root).events
  {
    var r := InodeByNumber(blob, root).value;
    assert Reachable(blob, r, d);
    assert Leads(blob, r, path, m);
    ReachableIsReported(blob, windows, r, path, m);
    var f :| f in WalkTree(blob, windows, root).events && f.inode == m;
    var g := OnlyParent(blob, windows, root, d, Last(path), f);
    SameDirectorySameEvent(blob, windows, root, g, Event(Parent(path), d));
    SamePath(f.path, path);
  }

  lemma SamePath(p: Path, q: Path)
    requires p != [] && q != [] && Parent(p) == Parent(q) && Last(p) == Last(q)
    ensures p == q
  {
    assert p == Parent(p) + [Last(p)] && q == Parent(q) + [Last(q)];
  }

  /** On a tree, the directory a reported directory was found in is the only one that holds it. */
  lemma OnlyParent(blob: Blob, windows: bool, root: u64, d: Inode, name: Name, f: Event) returns (g: Event)
    requires f in WalkTree(blob, windows, root).events && f.inode.IsDirectory()
    requires OneParent(blob, InodeByNumber(blob, root).value) && Reachable(blob, InodeByNumber(blob, root).value, d)
    requires Edge(blob, d, name, f.inode)
    ensures g in WalkTree(blob, windows, root).events && ChildOf(blob, f, g) && g.inode == d && Last(f.path) == name
  {
    var r := InodeByNumber(blob, root).value;
    DirSound(blob, windows, r, r, [], []);
    assert Leads(blob, r, f.path, f.inode);
    assert f.path != [];
    g := ReportedParent(blob, windows, root, f);
    assert Leads(blob, r, g.path, g.inode);
    assert Reachable(blob, r, g.inode);
  }

  lemma {:induction false} TreeReports(blob: Blob, windows: bool, root: u64, path: Path, inode: Inode)
    requires WalkTree(blob, windows, root).error.None? && InodeByNumber(blob, root).value.IsDirectory()
    requires OneParent(blob, InodeByNumber(blob, root).value)
    requires Leads(blob, InodeByNumber(blob, root).value, path, inode)
    ensures Event(path, inode) in WalkTree(blob, windows, root).events
    decreases |path|
  {
    var r := InodeByNumber(blob, root).value;
    var w := WalkDir(blob, windows, r, [], []);
    if path == [] {
      assert w.events[0] == Event([], r);
    } else {
      var d :| Leads(blob, r, Parent(path), d) && Edge(blob, d, Last(path), inode);
      TreeReports(blob, windows, root, Parent(path), d);
      if inode.IsDirectory() {
        DirectoryReportedHere(blob, windows, root, path, d, inode);
      } else {
        DirComplete(blob, windows, r, [], []);
        assert Handled(blob, Event(Parent(path), d), w.events, w.visited);
        SamePath(path, Parent(path) + [Last(path)]);
      }
    }
  }

  lemma RootReported(blob: Blob, windows: bool, root: u64)
    requires WalkTree(blob, windows, root).error.None? && AllReported(blob, windows, InodeByNumber(blob, root).value)
    ensures var r := InodeByNumber(blob, root).value;
      r.IsDirectory() && Event([], r) in WalkDir(blob, windows, r, [], []).events
  {
    var r := InodeByNumber(blob, root).value;
    assert Leads(blob, r, [], r);
    assert Event([], r) in WalkDir(blob, windows, r, [], []).events;
  }

  lemma ReportsMeanTree(blob: Blob, windows: bool, root: u64)
    requires WalkTree(blob, windows, root).error.None? && BlobHasUniqueNames(blob)
    requires AllReported(blob, windows, InodeByNumber(blob, root).value)
    ensures InodeByNumber(blob, root).value.IsDirectory() && OneParent(blob, InodeByNumber(blob, root).value)
  {
    RootReported(blob, windows, root);
    hide Edge, FindInode, FindNode, WalkDir, BlobHasUniqueNames, Leads;
    var r := InodeByNumber(blob, root).value;
    var events := WalkDir(blob, windows, r, [], []).events;
    forall d, n | Reachable(blob, r, d) ensures !Edge(blob, d, n, r) {
      if Edge(blob, d, n, r) {
        var p :| Leads(blob, r, p, d);
        LeadsSnoc(blob, r, p, d, n, r);
        SameDirectorySameEvent(blob, windows, root, Event(p + [n], r), Event([], r));
      }
    }
    forall d, n, d', n', m: Inode | Reachable(blob, r, d) && Reachable(blob, r, d') && m.IsDirectory()
        && Edge(blob, d, n, m) && Edge(blob, d', n', m)
      ensures d == d' && n == n'
    {
      var p :| Leads(blob, r, p, d);
      var q :| Leads(blob, r, q, d');
      LeadsSnoc(blob, r, p, d, n, m);
      LeadsSnoc(blob, r, q, d', n', m);
      SameDirectorySameEvent(blob, windows, root, Event(p + [n], m), Event(q + [n'], m));
      SnocInjective(p, n, q, n');
      PathsDistinct(blob, windows, root);
      SamePathSameEvent(events, Event(p, d), Event(p, d'));
    }
  }

  lemma SnocInjective(p: Path, n: Name, q: Path, m: Name)
    requires p + [n] == q + [m]
    ensures p == q && n == m
  {
    assert p == (p + [n])[..|p|] && q == (q + [m])[..|q|] && (p + [n])[|p|] == n && (q + [m])[|q|] == m;
  }

  lemma LeadsSnoc(blob: Blob, root: Inode, p: Path, d: Inode, n: Name, m: Inode)
    requires Leads(blob, root, p, d) && Edge(blob, d, n, m)
    ensures Leads(blob, root, p + [n], m)
  {
    assert Parent(p + [n]) == p && Last(p + [n]) == n;
  }

  /**
   * A successful walk reports every path that leads somewhere exactly when the root is a
   * directory and every reachable directory has one incoming entry, the root none.
   */
  lemma WalkReportsAllIffTree(blob: Blob, windows: bool, root: u64)
    requires WalkTree(blob, windows, root).error.None? && BlobHasUniqueNames(blob)
    ensures var r := InodeByNumber(blob, root).value;
      && (AllReported(blob, windows, r) <==> r.IsDirectory() && OneParent(blob, r))
      && (AllReported(blob, windows, r) ==> forall path, inode :: Leads(blob, r, path, inode) ==>
            Event(Spelled(windows, path), inode) in Reports(blob, windows, root))
  {
    var r := InodeByNumber(blob, root).value;
    if AllReported(blob, windows, r) { ReportsMeanTree(blob, windows, root); }
    if r.IsDirectory() && OneParent(blob, r) {
      forall path, inode | Leads(blob, r, path, inode)
        ensures Event(path, inode) in WalkDir(blob, windows, r, [], []).events
      {
        TreeReports(blob, windows, root, path, inode);
      }
    }
    if AllReported(blob, windows, r) {
      forall path, inode | Leads(blob, r, path, inode)
        ensures Event(Spelled(windows, path), inode) in Reports(blob, windows, root)
      {
        HandedOver(blob, windows, root, Event(path, inode));
      }
    }
  }

  lemma HandedOver(blob: Blob, windows: bool, root: u64, e: Event)
    requires e in WalkTree(blob, windows, root).events
    ensures SpelledEvent(windows, e) in Reports(blob, windows, root)
  {
    var events := WalkTree(blob, windows, root).events;
    var i :| 0 <= i < |events| && events[i] == e;
    assert Reports(blob, windows, root)[i] == SpelledEvent(windows, e);
  }

  /** On a tree, every path is handed over as named iff no reachable directory has an entry that starts with a drive. */
  lemma NoDrivesIff(blob: Blob, windows: bool, root: u64)
    requires WalkTree(blob, windows, root).error.None? && InodeByNumber(blob, root).value.IsDirectory()
    requires OneParent(blob, InodeByNumber(blob, root).value)
    ensures NoDrives(windows, WalkTree(blob, windows, root).events) <==>
      windows ==> forall d :: Reachable(blob, InodeByNumber(blob, root).value, d) ==> !DriveEntry(blob, d)
  {
    var r := InodeByNumber(blob, root).value;
    if windows && NoDrives(windows, WalkTree(blob, windows, root).events) {
      forall d | Reachable(blob, r, d) ensures !DriveEntry(blob, d) {
        var p :| Leads(blob, r, p, d);
        forall name, child | Edge(blob, d, name, child) ensures !DrivePrefixed(name) {
          LeadsSnoc(blob, r, p, d, name, child);
          TreeReports(blob, windows, root, p + [name], child);
          assert (p + [name])[|p|] == name;
        }
      }
    } else if windows ==> forall d :: Reachable(blob, r, d) ==> !DriveEntry(blob, d) {
      DrivelessReports(blob, windows, root);
    }
  }

  /** On a tree, every string the lookup resolves names a reported event. */
  lemma ResolvedIsReported(blob: Blob, windows: bool, root: u64, s: seq<byte>, inode: Inode)
    requires WalkTree(blob, windows, root).error.None? && BlobHasUniqueNames(blob)
    requires InodeByNumber(blob, root).value.IsDirectory() && OneParent(blob, InodeByNumber(blob, root).value)
    requires ResolveString(blob, InodeByNumber(blob, root).value, s) == Some(inode)
    ensures exists e ::
      && e in WalkTree(blob, windows, root).events && e.inode == inode && Join(e.path) == Trim(s)
      && SpelledEvent(windows, e) in Reports(blob, windows, root)
      && (!Driven(windows, e.path) ==> Join(SpelledEvent(windows, e).path) == Trim(s))
  {
    var r := InodeByNumber(blob, root).value;
    var path := if Trim(s) == [] then [] else Split(Trim(s));
    ResolveIffLeads(blob, r, path, inode);
    TreeReports(blob, windows, root, path, inode);
    JoinSplit(Trim(s));
    assert Join(path) == Trim(s);
    var e := Event(path, inode);
    HandedOver(blob, windows, root, e);
    NamesFollowed(blob, windows, root, e);
    SpelledIs(windows, path);
  }
}
