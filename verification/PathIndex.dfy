/** `build_path_index`: once its loop ends, the index finds exactly what the lookup by components finds. */
module PathIndex {
  import opened Bytes
  import opened Metadata
  import opened TreePaths
  import Walk
  import opened WalkProperties
  import opened ResolvePath
  import opened PathQueue
  import DirectoryNode

  // ----- What the index holds -----

  /** No two items give one text different numbers. */
  ghost predicate Functional(items: seq<Item>) {
    forall a, b :: a in items && b in items && a.text == b.text ==> a.number == b.number
  }

  lemma {:induction false} InsertKeys(index: Index, items: seq<Item>, key: seq<byte>)
    ensures key in Insert(index, items) <==> key in index || exists it :: it in items && it.text == key
    decreases |items|
  {
    if items != [] {
      InsertKeys(index[items[0].text := items[0].number], items[1..], key);
      assert items == [items[0]] + items[1..];
    }
  }

  lemma {:induction false} InsertKeeps(index: Index, items: seq<Item>, key: seq<byte>, number: u64)
    requires key in index && index[key] == number
    requires forall it :: it in items && it.text == key ==> it.number == number
    ensures key in Insert(index, items) && Insert(index, items)[key] == number
    decreases |items|
  {
    if items != [] {
      assert items == [items[0]] + items[1..];
      InsertKeeps(index[items[0].text := items[0].number], items[1..], key, number);
    }
  }

  lemma {:induction false} InsertValue(index: Index, items: seq<Item>, it: Item)
    requires Functional(items) && it in items
    ensures it.text in Insert(index, items) && Insert(index, items)[it.text] == it.number
    decreases |items|
  {
    var rest := items[1..];
    assert items == [items[0]] + rest;
    var next := index[items[0].text := items[0].number];
    if it == items[0] {
      InsertKeeps(next, rest, it.text, it.number);
    } else {
      InsertValue(next, rest, it);
    }
  }

  lemma {:induction false} UpToIff(blob: Blob, root: Inode, k: nat, t: Spot)
    requires Canonical(blob, root)
    ensures t in UpTo(blob, root.number, k) <==> 0 < |t.names| <= k && LeadsTo(blob, root, t.names, t.number)
    decreases k
  {
    hide Level, LeadsTo, FindInode;
    if k > 0 {
      UpToIff(blob, root, k - 1, t);
      LevelIff(blob, root, k, t);
    }
  }

  /** The names the directory-node parser lets through. */
  ghost predicate ParsedNames(blob: Blob) {
    && BlobHasUniqueNames(blob)
    && forall n, e :: n in blob.dirNodes && e in n ==> Component(e.name) && NUL !in e.name
  }

  lemma ParsedHasParsedNames(blob: Blob)
    requires DirectoryNode.NodesParsed(blob)
    ensures ParsedNames(blob)
  {
    hide DirectoryNode.ParseNode;
    forall n | n in blob.dirNodes ensures UniqueNames(n) && forall e :: e in n ==> Component(e.name) && NUL !in e.name {
      var s :| DirectoryNode.ParseNode(s).Done? && DirectoryNode.ParseNode(s).value == n;
      DirectoryNode.AcceptedHasUniqueNames(s);
      DirectoryNode.Canonical(s);
    }
  }

  lemma {:induction false} LedNames(blob: Blob, root: Inode, names: Path, inode: Inode)
    requires ParsedNames(blob) && Leads(blob, root, names, inode)
    ensures Components(names) && Plain(names)
    decreases |names|
  {
    if names != [] {
      var d :| Leads(blob, root, Parent(names), d) && Edge(blob, d, Last(names), inode);
      EdgeIsPoint(blob, d, Last(names), inode);
      PointedName(blob, d, Last(names), inode.number);
      LedNames(blob, root, Parent(names), d);
      hide Leads, Edge, Points, ParsedNames;
      assert names == Parent(names) + [Last(names)];
    }
  }

  lemma LedToNames(blob: Blob, root: Inode, names: Path, number: u64)
    requires ParsedNames(blob) && LeadsTo(blob, root, names, number)
    ensures Components(names) && Plain(names)
  {
    if names != [] {
      var d :| Leads(blob, root, Parent(names), d) && Points(blob, d, Last(names), number);
      PointedName(blob, d, Last(names), number);
      LedNames(blob, root, Parent(names), d);
      hide Leads, Points, ParsedNames;
      assert names == Parent(names) + [Last(names)];
    }
  }

  lemma PointedName(blob: Blob, d: Inode, name: Name, number: u64)
    requires ParsedNames(blob) && Points(blob, d, name, number)
    ensures Component(name) && NUL !in name
  {
  }

  /** A path leads to one number only. */
  lemma LeadsToOne(blob: Blob, root: Inode, names: Path, m: u64, n: u64)
    requires ParsedNames(blob) && LeadsTo(blob, root, names, m) && LeadsTo(blob, root, names, n)
    ensures m == n
  {
    if names != [] {
      var c :| Leads(blob, root, Parent(names), c) && Points(blob, c, Last(names), m);
      var d :| Leads(blob, root, Parent(names), d) && Points(blob, d, Last(names), n);
      LedNames(blob, root, Parent(names), c);
      ResolveIffLeads(blob, root, Parent(names), c);
      ResolveIffLeads(blob, root, Parent(names), d);
      PointsOne(blob, c, Last(names), m, n);
    }
  }

  lemma PointsOne(blob: Blob, d: Inode, name: Name, m: u64, n: u64)
    requires BlobHasUniqueNames(blob) && Points(blob, d, name, m) && Points(blob, d, name, n)
    ensures m == n
  {
    var entries := NodeByHash(blob, d.content.hash).value;
    var i :| 0 <= i < |entries| && entries[i].name == name && entries[i].inodeNumber == m;
    var j :| 0 <= j < |entries| && entries[j].name == name && entries[j].inodeNumber == n;
  }

  lemma {:induction false} JoinSnoc(p: Path, name: Name)
    requires p != []
    ensures Join(p + [name]) == Join(p) + [SLASH] + name
    decreases |p|
  {
    assert (p + [name])[1..] == p[1..] + [name];
    if |p| > 1 {
      JoinSnoc(p[1..], name);
      Assoc(p[0] + [SLASH], Join(p[1..]) + [SLASH], name);
      Assoc(p[0] + [SLASH], Join(p[1..]), [SLASH]);
    }
  }

  lemma {:induction false} TextIsJoin(names: Path)
    requires Components(names)
    ensures Text(names) == [SLASH] + Join(names)
    decreases |names|
  {
    if names != [] {
      var parent := Parent(names);
      assert names == parent + [Last(names)];
      TextIsJoin(parent);
      if parent != [] {
        JoinSnoc(parent, Last(names));
        JoinEnds(parent);
        Assoc([SLASH], Join(parent) + [SLASH], Last(names));
        Assoc([SLASH], Join(parent), [SLASH]);
      }
    }
  }

  lemma TextInjective(p: Path, q: Path)
    requires Components(p) && Components(q) && Text(p) == Text(q)
    ensures p == q
  {
    TextIsJoin(p);
    TextIsJoin(q);
    assert Text(p)[1..] == Join(p) && Text(q)[1..] == Join(q);
    if p != [] { JoinEnds(p); SplitJoin(p); }
    if q != [] { JoinEnds(q); SplitJoin(q); }
  }

  /** Once the queue is empty, it makes no difference when. */
  lemma SameEnd(blob: Blob, s: State, m: nat, n: nat)
    requires Turns(blob, s, m).queue == [] && Turns(blob, s, n).queue == []
    ensures Turns(blob, s, m) == Turns(blob, s, n)
  {
    hide *;
    if m <= n {
      TurnsAdd(blob, s, m, n - m);
      TurnsRest(blob, Turns(blob, s, m), n - m);
    } else {
      TurnsAdd(blob, s, n, m - n);
      TurnsRest(blob, Turns(blob, s, n), m - n);
    }
  }

  /** After the last turn the index is the root and all levels. */
  lemma IndexIsLevels(blob: Blob, root: u64, n: nat) returns (k: nat)
    requires DoneAfter(blob, root, n)
    ensures Level(blob, root, k) == []
    ensures Turns(blob, Start(root), n).index == Insert(map[[SLASH] := root], Items(UpTo(blob, root, k)))
  {
    hide Level, Turns, TurnsTo, Insert, UpTo;
    ReturnsIffLevelEmpty(blob, root);
    k :| Level(blob, root, k) == [];
    AtLevel(blob, root, k);
    SameEnd(blob, Start(root), n, TurnsTo(blob, root, k));
  }

  /** Over parsed nodes the finished index maps exactly the texts of paths that lead somewhere, to where they lead. */
  lemma IndexIsExact(blob: Blob, root: Inode, n: nat, key: seq<byte>, number: u64)
    requires DirectoryNode.NodesParsed(blob) && Canonical(blob, root) && DoneAfter(blob, root.number, n)
    ensures var index := Turns(blob, Start(root.number), n).index;
      key in index && index[key] == number <==>
        exists names :: LeadsTo(blob, root, names, number) && key == Text(names)
  {
    ParsedHasParsedNames(blob);
    var k := IndexIsLevels(blob, root.number, n);
    hide Level, Turns, Insert, LeadsTo, ParsedNames, UpTo, Text, DirectoryNode.NodesParsed, FindInode;
    var spots := UpTo(blob, root.number, k);
    var start: Index := map[[SLASH] := root.number];
    forall t: Spot ensures t in spots <==> t.names != [] && LeadsTo(blob, root, t.names, t.number) {
      SpotIff(blob, root, k, t);
    }
    ItemsFunctional(blob, root, spots);
    RootText(blob, root);
    RootAlone(blob, root, spots);
    hide ParsedNames;
    if names :| LeadsTo(blob, root, names, number) && key == Text(names) {
      IndexHolds(blob, root, spots, names, number);
    }
    if key in Insert(start, Items(spots)) && Insert(start, Items(spots))[key] == number {
      var names := IndexHoldsOnly(blob, root, spots, key, number);
    }
  }

  lemma IndexHolds(blob: Blob, root: Inode, spots: seq<Spot>, names: Path, number: u64)
    requires Functional(Items(spots)) && (forall it :: it in Items(spots) ==> it.text != [SLASH])
    requires names == [] || Spot(number, names) in spots
    requires LeadsTo(blob, root, names, number)
    ensures var index := Insert(map[[SLASH] := root.number], Items(spots));
      Text(names) in index && index[Text(names)] == number
  {
    hide Insert;
    if names == [] {
      InsertKeeps(map[[SLASH] := root.number], Items(spots), [SLASH], number);
    } else {
      var i :| 0 <= i < |spots| && spots[i] == Spot(number, names);
      assert Items(spots)[i] == Item(number, Text(names));
      InsertValue(map[[SLASH] := root.number], Items(spots), Item(number, Text(names)));
    }
  }

  lemma IndexHoldsOnly(blob: Blob, root: Inode, spots: seq<Spot>, key: seq<byte>, number: u64) returns (names: Path)
    requires Functional(Items(spots)) && forall t :: t in spots ==> LeadsTo(blob, root, t.names, t.number)
    requires key in Insert(map[[SLASH] := root.number], Items(spots))
    requires Insert(map[[SLASH] := root.number], Items(spots))[key] == number
    ensures LeadsTo(blob, root, names, number) && key == Text(names)
  {
    hide Insert;
    var start: Index := map[[SLASH] := root.number];
    InsertKeys(start, Items(spots), key);
    if it :| it in Items(spots) && it.text == key {
      var i :| 0 <= i < |spots| && Items(spots)[i] == it;
      InsertValue(start, Items(spots), it);
      assert spots[i] in spots;
      names := spots[i].names;
    } else {
      InsertKeeps(start, Items(spots), key, root.number);
      names := [];
    }
  }

  lemma RootText(blob: Blob, root: Inode)
    ensures Text([]) == [SLASH]
    ensures forall m :: LeadsTo(blob, root, [], m) <==> m == root.number
  {
  }

  /** Beyond an empty level there is nothing. */
  lemma SpotIff(blob: Blob, root: Inode, k: nat, t: Spot)
    requires Canonical(blob, root) && Level(blob, root.number, k) == []
    ensures t in UpTo(blob, root.number, k) <==> t.names != [] && LeadsTo(blob, root, t.names, t.number)
  {
    hide *;
    UpToIff(blob, root, k, t);
    if |t.names| > k {
      LevelsEmptyOn(blob, root.number, k, |t.names|);
      LevelIff(blob, root, |t.names|, t);
    }
  }

  /** No spot below the root has the root's text. */
  lemma RootAlone(blob: Blob, root: Inode, spots: seq<Spot>)
    requires ParsedNames(blob) && forall t :: t in spots ==> t.names != [] && LeadsTo(blob, root, t.names, t.number)
    ensures forall it :: it in Items(spots) ==> it.text != [SLASH]
  {
    hide ParsedNames, LeadsTo, Text;
    forall it | it in Items(spots) ensures it.text != [SLASH] {
      var i :| 0 <= i < |spots| && Items(spots)[i] == it;
      assert spots[i] in spots;
      LedToNames(blob, root, spots[i].names, spots[i].number);
      RootText(blob, root);
      if it.text == [SLASH] { TextInjective(spots[i].names, []); }
    }
  }

  lemma ItemsFunctional(blob: Blob, root: Inode, spots: seq<Spot>)
    requires ParsedNames(blob) && forall t :: t in spots ==> t.names != [] && LeadsTo(blob, root, t.names, t.number)
    ensures Functional(Items(spots))
  {
    hide ParsedNames, LeadsTo, Text;
    forall a, b | a in Items(spots) && b in Items(spots) && a.text == b.text ensures a.number == b.number {
      var i :| 0 <= i < |spots| && Items(spots)[i] == a;
      var j :| 0 <= j < |spots| && Items(spots)[j] == b;
      assert spots[i] in spots && spots[j] in spots;
      LedToNames(blob, root, spots[i].names, spots[i].number);
      LedToNames(blob, root, spots[j].names, spots[j].number);
      TextInjective(spots[i].names, spots[j].names);
      LeadsToOne(blob, root, spots[i].names, a.number, b.number);
    }
  }

  /** `normalize_path`. */
  function NormalizePath(s: seq<byte>): seq<byte> { if Trim(s) == [] then [SLASH] else [SLASH] + Trim(s) }

  /** The key of a path, whatever slashes stand around it: one slash, then its components. */
  lemma SlashesNormalize(k: nat, p: Path, m: nat)
    requires Components(p)
    ensures NormalizePath(Slashes(k) + Join(p) + Slashes(m)) == [SLASH] + Join(p) == Text(p)
  {
    if p != [] { JoinEnds(p); }
    TrimIs(k, Join(p), m);
    TextIsJoin(p);
  }

  /** Looking a string up in the finished index and resolving it by components find the same inode, for every string. */
  lemma IndexAgreesWithResolve(blob: Blob, root: Inode, n: nat, s: seq<byte>, inode: Inode)
    requires DirectoryNode.NodesParsed(blob) && Canonical(blob, root) && DoneAfter(blob, root.number, n)
    ensures var index, key := Turns(blob, Start(root.number), n).index, NormalizePath(s);
      ResolveString(blob, root, s) == Some(inode) <==>
        key in index && InodeByNumber(blob, index[key]) == Some(inode)
  {
    ParsedHasParsedNames(blob);
    var index, key := Turns(blob, Start(root.number), n).index, NormalizePath(s);
    var path := if Trim(s) == [] then [] else Split(Trim(s));
    hide Turns, Level, LeadsTo, Leads, Resolve, Text, Join, Split, Trim, ParsedNames, DirectoryNode.NodesParsed;
    hide FindNode, DoneAfter;
    ResolveIffLeads(blob, root, path, inode);
    LeadsToIff(blob, root, path, inode);
    if Resolve(blob, root, path) == Some(inode) {
      LedToNames(blob, root, path, inode.number);
      TextOfString(s);
      IndexIsExact(blob, root, n, key, inode.number);
    }
    if key in index && InodeByNumber(blob, index[key]) == Some(inode) {
      IndexIsExact(blob, root, n, key, inode.number);
      var names :| LeadsTo(blob, root, names, inode.number) && key == Text(names);
      LedToNames(blob, root, names, inode.number);
      TextOfPath(s, names);
    }
  }

  lemma TextOfString(s: seq<byte>)
    requires Components(if Trim(s) == [] then [] else Split(Trim(s)))
    ensures Text(if Trim(s) == [] then [] else Split(Trim(s))) == NormalizePath(s)
  {
    TextIsJoin(if Trim(s) == [] then [] else Split(Trim(s)));
    hide Text, Trim, Split;
    JoinSplit(Trim(s));
  }

  lemma TextOfPath(s: seq<byte>, names: Path)
    requires Components(names) && Text(names) == NormalizePath(s)
    ensures names == if Trim(s) == [] then [] else Split(Trim(s))
  {
    TextIsJoin(names);
    hide Text, Trim, Split;
    assert Text(names)[1..] == Join(names) && NormalizePath(s)[1..] == Trim(s);
    if names != [] {
      JoinEnds(names);
      SplitJoin(names);
    }
  }

  // ----- The root -----

  ghost predicate Referenced(blob: Blob, number: u64) {
    exists node, e :: node in blob.dirNodes && e in node && e.inodeNumber == number
  }

  /** `is_directory`, which goes by the mode, and no entry anywhere. */
  ghost predicate Candidate(blob: Blob, inode: Inode) {
    FileType(inode.mode) == S_IFDIR && !Referenced(blob, inode.number)
  }

  ghost predicate OnlyCandidate(blob: Blob, i: int) {
    0 <= i < |blob.inodes| && forall j :: 0 <= j < |blob.inodes| ==> (Candidate(blob, blob.inodes[j]) <==> i == j)
  }

  /** The number of the one inode that can be the root. */
  ghost predicate IsRoot(blob: Blob, root: u64) {
    exists i :: OnlyCandidate(blob, i) && blob.inodes[i].number == root
  }

  method ReferencedNumbers(blob: Blob) returns (numbers: set<u64>)
    ensures forall n :: n in numbers <==> Referenced(blob, n)
  {
    numbers := {};
    for i := 0 to |blob.dirNodes|
      invariant forall n :: n in numbers <==>
        exists node, e :: node in blob.dirNodes[..i] && e in node && e.inodeNumber == n
    {
      var node := blob.dirNodes[i];
      ghost var before := numbers;
      for j := 0 to |node|
        invariant forall n :: n in numbers <==> n in before || exists e :: e in node[..j] && e.inodeNumber == n
      {
        numbers := numbers + {node[j].inodeNumber};
        assert node[..j + 1] == node[..j] + [node[j]];
      }
      assert node[..|node|] == node;
      assert blob.dirNodes[..i + 1] == blob.dirNodes[..i] + [node];
    }
    assert blob.dirNodes[..|blob.dirNodes|] == blob.dirNodes;
  }

  /** `root_inode_number`: found iff exactly one directory inode has no incoming entry. */
  method RootInodeNumber(blob: Blob) returns (r: Option<u64>)
    ensures r.Some? ==> IsRoot(blob, r.value)
    ensures r.None? ==> forall root :: !IsRoot(blob, root)
  {
    var referenced := ReferencedNumbers(blob);
    hide Referenced;
    r := None;
    ghost var at := 0;
    var i := 0;
    while i < |blob.inodes|
      invariant 0 <= i <= |blob.inodes|
      invariant r.None? ==> forall j :: 0 <= j < i ==> !Candidate(blob, blob.inodes[j])
      invariant r.Some? ==> 0 <= at < i && r.value == blob.inodes[at].number
      invariant r.Some? ==> forall j :: 0 <= j < i ==> (Candidate(blob, blob.inodes[j]) <==> j == at)
    {
      var inode := blob.inodes[i];
      if FileType(inode.mode) == S_IFDIR && inode.number !in referenced {
        if r.Some? {
          assert Candidate(blob, blob.inodes[at]) && Candidate(blob, blob.inodes[i]);
          return None;
        }
        r, at := Some(inode.number), i;
      }
      i := i + 1;
    }
    if r.Some? { assert OnlyCandidate(blob, at); }
  }

  // ----- The program -----

  method InsertAll(index: Index, queue: seq<Item>, prefix: seq<byte>, entries: seq<DirEntry>)
    returns (newIndex: Index, newQueue: seq<Item>)
    ensures newIndex == Insert(index, ChildItems(prefix, entries)) && newQueue == queue + ChildItems(prefix, entries)
  {
    newIndex, newQueue := index, queue;
    for i := 0 to |entries|
      invariant newIndex == Insert(index, ChildItems(prefix, entries[..i]))
      invariant newQueue == queue + ChildItems(prefix, entries[..i])
    {
      var text := ChildText(prefix, entries[i].name);
      var item := Item(entries[i].inodeNumber, text);
      assert ChildItems(prefix, entries[..i + 1]) == ChildItems(prefix, entries[..i]) + [item];
      InsertConcat(index, ChildItems(prefix, entries[..i]), [item]);
      assert Insert(newIndex, [item]) == newIndex[text := entries[i].inodeNumber] by { assert [item][1..] == []; }
      newIndex := newIndex[text := entries[i].inodeNumber];
      newQueue := newQueue + [item];
    }
    assert entries[..|entries|] == entries;
  }

  lemma RootIsThere(blob: Blob, root: u64)
    requires IsRoot(blob, root)
    ensures InodeByNumber(blob, root).Some? && Canonical(blob, InodeByNumber(blob, root).value)
  {
    var i :| OnlyCandidate(blob, i) && blob.inodes[i].number == root;
    assert blob.inodes[i] in blob.inodes;
  }

  /**
   * `build_path_index`. The precondition is what it takes to return at all, by `ReturnsIffNoCycle`. Over parsed
   * nodes a string found in the index leads to the inode the lookup by components gives, and no other is found.
   */
  method BuildPathIndex(blob: Blob) returns (index: Index)
    requires forall root :: IsRoot(blob, root) ==>
      InodeByNumber(blob, root).Some? && NoCycle(blob, InodeByNumber(blob, root).value)
    ensures (forall root :: !IsRoot(blob, root)) ==> index == map[]
    ensures forall root :: IsRoot(blob, root) ==>
      exists n :: DoneAfter(blob, root, n) && index == Turns(blob, Start(root), n).index
    ensures forall root, s, inode :: IsRoot(blob, root) && DirectoryNode.NodesParsed(blob) ==>
      (ResolveString(blob, InodeByNumber(blob, root).value, s) == Some(inode) <==>
        NormalizePath(s) in index && InodeByNumber(blob, index[NormalizePath(s)]) == Some(inode))
  {
    hide NoCycle, Turns, Insert, ChildItems, DirectoryNode.NodesParsed, ResolveString, NormalizePath;
    var root := RootInodeNumber(blob);
    if root.None? { return map[]; }
    RootIsThere(blob, root.value);
    ghost var r := InodeByNumber(blob, root.value).value;
    ReturnsIffNoCycle(blob, r);
    ghost var last: nat :| DoneAfter(blob, root.value, last);
    index := map[[SLASH] := root.value];
    var queue := [Item(root.value, [SLASH])];
    ghost var n := 0;
    TurnsNone(blob, Start(root.value));
    while queue != []
      invariant n <= last && Turns(blob, Start(root.value), n) == State(index, queue)
      decreases last - n
    {
      ghost var here := State(index, queue);
      TurnsSome(blob, Start(root.value), n, last);
      index, queue := InsertAll(index, queue[1..], queue[0].text, EntriesOf(blob, queue[0].number));
      assert Turn(blob, here) == State(index, queue);
      n := n + 1;
    }
    OneRoot(blob, root.value);
    forall s, inode | DirectoryNode.NodesParsed(blob)
      ensures ResolveString(blob, r, s) == Some(inode) <==>
        NormalizePath(s) in index && InodeByNumber(blob, index[NormalizePath(s)]) == Some(inode)
    {
      IndexAgreesWithResolve(blob, r, n, s, inode);
    }
  }

  lemma OneRoot(blob: Blob, root: u64)
    requires IsRoot(blob, root)
    ensures forall other :: IsRoot(blob, other) ==> other == root
  {
    hide Candidate;
    var i :| OnlyCandidate(blob, i) && blob.inodes[i].number == root;
    forall other | IsRoot(blob, other) ensures other == root {
      var j :| OnlyCandidate(blob, j) && blob.inodes[j].number == other;
      assert Candidate(blob, blob.inodes[i]);
    }
  }

  lemma TurnsNone(blob: Blob, s: State)
    ensures Turns(blob, s, 0) == s
  {
  }

  /** A queue that is not empty yet is not that of the last turn. */
  lemma TurnsSome(blob: Blob, s: State, n: nat, last: nat)
    requires Turns(blob, s, n).queue != [] && Turns(blob, s, last).queue == [] && n <= last
    ensures n < last && Turns(blob, s, n + 1) == Turn(blob, Turns(blob, s, n))
  {
  }

  // ----- A tree the walk handles and the index does not -----

  const LOOP_NAME: Name := [0x61]

  function LoopHash(b: byte): Digest { seq(32, _ => b) }

  const LOOP_ROOT := Inode(1, S_IFDIR, Directory(LoopHash(1)))
  const LOOP_DIR := Inode(2, S_IFDIR, Directory(LoopHash(1)))

  /** A root and a directory `a` below it that holds itself, also as `a`. */
  function LoopBlob(): Blob { Blob([LOOP_ROOT, LOOP_DIR], [[DirEntry(LOOP_NAME, 2, 2)]], _ => LoopHash(1)) }

  lemma LoopNeverIndexed()
    ensures IsRoot(LoopBlob(), 1) && !Returns(LoopBlob(), 1)
    ensures forall windows :: Walk.WalkTree(LoopBlob(), windows, 1).error.None?
  {
    var blob, node := LoopBlob(), [DirEntry(LOOP_NAME, 2, 2)];
    assert blob.inodes[1..] == [LOOP_DIR];
    assert InodeByNumber(blob, 1) == Some(LOOP_ROOT) && InodeByNumber(blob, 2) == Some(LOOP_DIR);
    assert NodeByHash(blob, LoopHash(1)) == Some(node) && node[0] in node && blob.dirNodes[0] in blob.dirNodes;
    assert Edge(blob, LOOP_ROOT, LOOP_NAME, LOOP_DIR) && Edge(blob, LOOP_DIR, LOOP_NAME, LOOP_DIR);
    assert Referenced(blob, 2) && !Referenced(blob, 1);
    assert OnlyCandidate(blob, 0);
    hide LoopBlob, FindInode, FindNode, Returns;
    var one, none := [LOOP_NAME], [];
    assert Leads(blob, LOOP_ROOT, none, LOOP_ROOT) && Leads(blob, LOOP_DIR, none, LOOP_DIR);
    assert Parent(one) == none;
    assert Leads(blob, LOOP_ROOT, one, LOOP_DIR) && Leads(blob, LOOP_DIR, one, LOOP_DIR);
    ReturnsIffNoCycle(blob, LOOP_ROOT);
    forall windows ensures Walk.WalkTree(blob, windows, 1).error.None? { LoopWalked(blob, windows); }
  }

  lemma LoopWalked(blob: Blob, windows: bool)
    requires InodeByNumber(blob, 1) == Some(LOOP_ROOT) && InodeByNumber(blob, 2) == Some(LOOP_DIR)
    requires NodeByHash(blob, LoopHash(1)) == Some([DirEntry(LOOP_NAME, 2, 2)])
    ensures Walk.WalkTree(blob, windows, 1).error.None?
  {
    hide FindInode, FindNode;
    var node := [DirEntry(LOOP_NAME, 2, 2)];
    assert node[1..] == [] && [1] + [2] == [1, 2] && Walk.ValidTreeName(LOOP_NAME, windows);
    hide Walk.ValidTreeName;
    var p := [] + [LOOP_NAME];
    assert Walk.WalkDir(blob, windows, LOOP_DIR, p + [LOOP_NAME], [1, 2]).error.None?;
    assert Walk.WalkEntries(blob, windows, node, p, [1, 2]).error.None?;
    assert Walk.WalkDir(blob, windows, LOOP_DIR, p, [1]).error.None?;
    assert Walk.WalkEntries(blob, windows, node, [], [1]).error.None?;
    RootEntries(blob, windows, 1);
  }
}
