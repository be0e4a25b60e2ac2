/**
 * The loop of `build_path_index`: a breadth-first queue without a visited set, which empties iff no directory
 * below the root lies on a cycle.
 */
module PathQueue {
  import opened Bytes
  import opened Metadata
  import opened TreePaths
  import opened WalkProperties
  import opened ResolvePath

  // ----- The loop -----

  type Index = map<seq<byte>, u64>

  /** A queued inode number and the text of its path. */
  datatype Item = Item(number: u64, text: seq<byte>)

  datatype State = State(index: Index, queue: seq<Item>)

  function ChildText(prefix: seq<byte>, name: Name): seq<byte> {
    if prefix == [SLASH] then [SLASH] + name else prefix + [SLASH] + name
  }

  /** The entries below an inode number; none unless it leads to a directory with its node. */
  function EntriesOf(blob: Blob, number: u64): seq<DirEntry> {
    match InodeByNumber(blob, number)
    case None => []
    case Some(inode) =>
      if !inode.IsDirectory() then []
      else
        match NodeByHash(blob, inode.content.hash)
        case None => []
        case Some(entries) => entries
  }

  function ChildItems(prefix: seq<byte>, entries: seq<DirEntry>): seq<Item> {
    seq(|entries|, i requires 0 <= i < |entries| =>
      Item(entries[i].inodeNumber, ChildText(prefix, entries[i].name)))
  }

  function Insert(index: Index, items: seq<Item>): Index
    decreases |items|
  {
    if items == [] then index else Insert(index[items[0].text := items[0].number], items[1..])
  }

  /** One turn of the loop; nothing happens once the queue is empty. */
  function Turn(blob: Blob, s: State): State {
    if s.queue == [] then s
    else
      var items := ChildItems(s.queue[0].text, EntriesOf(blob, s.queue[0].number));
      State(Insert(s.index, items), s.queue[1..] + items)
  }

  function Turns(blob: Blob, s: State, n: nat): State {
    if n == 0 then s else Turn(blob, Turns(blob, s, n - 1))
  }

  function Start(root: u64): State { State(map[[SLASH] := root], [Item(root, [SLASH])]) }

  /** The queue is empty after `n` turns. */
  ghost predicate DoneAfter(blob: Blob, root: u64, n: nat) { Turns(blob, Start(root), n).queue == [] }

  ghost predicate Returns(blob: Blob, root: u64) { exists n :: DoneAfter(blob, root, n) }

  lemma {:induction false} TurnsAdd(blob: Blob, s: State, m: nat, n: nat)
    ensures Turns(blob, s, m + n) == Turns(blob, Turns(blob, s, m), n)
    decreases n
  {
    hide Turn;
    if n > 0 { TurnsAdd(blob, s, m, n - 1); }
  }

  lemma {:induction false} TurnsRest(blob: Blob, s: State, n: nat)
    requires s.queue == []
    ensures Turns(blob, s, n) == s
    decreases n
  {
    if n > 0 { TurnsRest(blob, s, n - 1); }
  }

  lemma {:induction false} InsertConcat(index: Index, a: seq<Item>, b: seq<Item>)
    ensures Insert(index, a + b) == Insert(Insert(index, a), b)
    decreases |a|
  {
    if a == [] {
      assert a + b == b;
    } else {
      assert (a + b)[1..] == a[1..] + b;
      InsertConcat(index[a[0].text := a[0].number], a[1..], b);
    }
  }

  // ----- Level by level -----

  /** An inode number met after following `names`. */
  datatype Spot = Spot(number: u64, names: Path)

  /** The text of a path: every name behind a slash. */
  function Text(names: Path): seq<byte>
    decreases |names|
  {
    if names == [] then [SLASH] else ChildText(Text(Parent(names)), Last(names))
  }

  function Below(blob: Blob, s: Spot): seq<Spot> {
    var entries := EntriesOf(blob, s.number);
    seq(|entries|, i requires 0 <= i < |entries| => Spot(entries[i].inodeNumber, s.names + [entries[i].name]))
  }

  function BelowAll(blob: Blob, spots: seq<Spot>): seq<Spot> {
    if spots == [] then [] else Below(blob, spots[0]) + BelowAll(blob, spots[1..])
  }

  function Level(blob: Blob, root: u64, k: nat): seq<Spot> {
    if k == 0 then [Spot(root, [])] else BelowAll(blob, Level(blob, root, k - 1))
  }

  function Items(spots: seq<Spot>): seq<Item> {
    seq(|spots|, i requires 0 <= i < |spots| => Item(spots[i].number, Text(spots[i].names)))
  }

  lemma ItemsConcat(a: seq<Spot>, b: seq<Spot>)
    ensures Items(a + b) == Items(a) + Items(b)
  {
  }

  lemma ItemsBelow(blob: Blob, s: Spot)
    ensures Items(Below(blob, s)) == ChildItems(Text(s.names), EntriesOf(blob, s.number))
  {
    var entries := EntriesOf(blob, s.number);
    forall i | 0 <= i < |entries| ensures Text(Below(blob, s)[i].names) == ChildText(Text(s.names), entries[i].name) {
      assert Parent(s.names + [entries[i].name]) == s.names;
    }
  }

  /** As many turns as there are spots in front of the queue put what is below them at its end. */
  lemma {:induction false} TurnsOver(blob: Blob, index: Index, xs: seq<Spot>, ys: seq<Spot>)
    ensures Turns(blob, State(index, Items(xs + ys)), |xs|)
         == State(Insert(index, Items(BelowAll(blob, xs))), Items(ys + BelowAll(blob, xs)))
    decreases |xs|
  {
    var start := State(index, Items(xs + ys));
    if xs == [] {
      assert xs + ys == ys && ys + BelowAll(blob, xs) == ys;
    } else {
      var first, rest := Below(blob, xs[0]), xs[1..];
      ItemsBelow(blob, xs[0]);
      assert start.queue[0] == Item(xs[0].number, Text(xs[0].names));
      assert Items(xs + ys)[1..] == Items(rest + ys);
      ItemsConcat(rest + ys, first);
      Assoc(rest, ys, first);
      var next := State(Insert(index, Items(first)), Items(rest + (ys + first)));
      assert Turn(blob, start) == next;
      TurnsOver(blob, next.index, rest, ys + first);
      assert Turns(blob, start, 1) == Turn(blob, Turns(blob, start, 0)) == next;
      TurnsAdd(blob, start, 1, |rest|);
      ItemsConcat(first, BelowAll(blob, rest));
      InsertConcat(index, Items(first), Items(BelowAll(blob, rest)));
      Assoc(ys, first, BelowAll(blob, rest));
    }
  }

  /** The turns it takes to get to level `k`. */
  function TurnsTo(blob: Blob, root: u64, k: nat): nat {
    if k == 0 then 0 else TurnsTo(blob, root, k - 1) + |Level(blob, root, k - 1)|
  }

  /** Levels 1 to `k`. */
  function UpTo(blob: Blob, root: u64, k: nat): seq<Spot> {
    if k == 0 then [] else UpTo(blob, root, k - 1) + Level(blob, root, k)
  }

  lemma {:induction false} AtLevel(blob: Blob, root: u64, k: nat)
    ensures Turns(blob, Start(root), TurnsTo(blob, root, k))
         == State(Insert(map[[SLASH] := root], Items(UpTo(blob, root, k))), Items(Level(blob, root, k)))
    decreases k
  {
    hide *;
    if k == 0 {
      AtLevelZero(blob, root);
    } else {
      AtLevel(blob, root, k - 1);
      var before := Level(blob, root, k - 1);
      LevelUnfolds(blob, root, k);
      OneLevel(blob, map[[SLASH] := root], UpTo(blob, root, k - 1), before);
      TurnsAdd(blob, Start(root), TurnsTo(blob, root, k - 1), |before|);
    }
  }

  lemma LevelUnfolds(blob: Blob, root: u64, k: nat)
    requires k > 0
    ensures Level(blob, root, k) == BelowAll(blob, Level(blob, root, k - 1))
    ensures TurnsTo(blob, root, k) == TurnsTo(blob, root, k - 1) + |Level(blob, root, k - 1)|
    ensures UpTo(blob, root, k) == UpTo(blob, root, k - 1) + Level(blob, root, k)
  {
  }

  lemma AtLevelZero(blob: Blob, root: u64)
    ensures Turns(blob, Start(root), TurnsTo(blob, root, 0))
         == State(Insert(map[[SLASH] := root], Items(UpTo(blob, root, 0))), Items(Level(blob, root, 0)))
  {
    assert Items([Spot(root, [])]) == [Item(root, [SLASH])] && Items([]) == [];
  }

  lemma OneLevel(blob: Blob, base: Index, done: seq<Spot>, before: seq<Spot>)
    ensures var here := BelowAll(blob, before);
      Turns(blob, State(Insert(base, Items(done)), Items(before)), |before|)
        == State(Insert(base, Items(done + here)), Items(here))
  {
    var here := BelowAll(blob, before);
    hide *;
    TurnsOver(blob, Insert(base, Items(done)), before, []);
    assert before + [] == before && [] + here == here;
    ItemsConcat(done, here);
    InsertConcat(base, Items(done), Items(here));
  }

  lemma {:induction false} TurnsToGrows(blob: Blob, root: u64, k: nat)
    requires forall j :: 0 <= j < k ==> Level(blob, root, j) != []
    ensures TurnsTo(blob, root, k) >= k
    decreases k
  {
    hide Level;
    if k > 0 {
      TurnsToGrows(blob, root, k - 1);
      assert Level(blob, root, k - 1) != [];
    }
  }

  lemma NeverDone(blob: Blob, root: u64, n: nat)
    requires forall k :: Level(blob, root, k) != []
    ensures !DoneAfter(blob, root, n)
  {
    hide Level, Turns, TurnsTo, Insert;
    AtLevel(blob, root, n);
    TurnsToGrows(blob, root, n);
    var more := TurnsTo(blob, root, n) - n;
    TurnsAdd(blob, Start(root), n, more);
    assert |Items(Level(blob, root, n))| == |Level(blob, root, n)|;
    if DoneAfter(blob, root, n) { TurnsRest(blob, Turns(blob, Start(root), n), more); }
  }

  /** The loop ends iff some level is empty. */
  lemma ReturnsIffLevelEmpty(blob: Blob, root: u64)
    ensures Returns(blob, root) <==> exists k :: Level(blob, root, k) == []
  {
    hide Level, Turns, TurnsTo, Insert;
    if k :| Level(blob, root, k) == [] {
      AtLevel(blob, root, k);
      assert DoneAfter(blob, root, TurnsTo(blob, root, k));
    } else {
      forall n ensures !DoneAfter(blob, root, n) { NeverDone(blob, root, n); }
    }
  }

  // ----- Levels and paths -----

  /** Directory `d` has an entry `name` with that inode number, there or not. */
  ghost predicate Points(blob: Blob, d: Inode, name: Name, number: u64) {
    && d.IsDirectory()
    && NodeByHash(blob, d.content.hash).Some?
    && exists e :: e in NodeByHash(blob, d.content.hash).value && e.name == name && e.inodeNumber == number
  }

  /** Following `names` from `root` can end at the inode number. */
  ghost predicate LeadsTo(blob: Blob, root: Inode, names: Path, number: u64) {
    if names == [] then number == root.number
    else exists d :: Leads(blob, root, Parent(names), d) && Points(blob, d, Last(names), number)
  }

  lemma LeadsToIff(blob: Blob, root: Inode, names: Path, inode: Inode)
    requires Canonical(blob, root)
    ensures Leads(blob, root, names, inode) <==>
      LeadsTo(blob, root, names, inode.number) && InodeByNumber(blob, inode.number) == Some(inode)
  {
    hide FindNode;
    if names != [] {
      forall d ensures Edge(blob, d, Last(names), inode) <==>
        Points(blob, d, Last(names), inode.number) && InodeByNumber(blob, inode.number) == Some(inode)
      {
        EdgeIsPoint(blob, d, Last(names), inode);
      }
    }
  }

  lemma EdgeIsPoint(blob: Blob, d: Inode, name: Name, child: Inode)
    ensures Edge(blob, d, name, child) <==>
      Points(blob, d, name, child.number) && InodeByNumber(blob, child.number) == Some(child)
  {
  }

  lemma BelowIff(blob: Blob, s: Spot, t: Spot)
    ensures t in Below(blob, s) <==>
      && t.names != [] && Parent(t.names) == s.names
      && InodeByNumber(blob, s.number).Some?
      && Points(blob, InodeByNumber(blob, s.number).value, Last(t.names), t.number)
  {
    hide FindInode, FindNode;
    var entries := EntriesOf(blob, s.number);
    if t in Below(blob, s) {
      var i :| 0 <= i < |entries| && t == Spot(entries[i].inodeNumber, s.names + [entries[i].name]);
      assert entries[i] in entries && Parent(t.names) == s.names;
    }
    if e :| e in entries && t == Spot(e.inodeNumber, s.names + [e.name]) {
      var i :| 0 <= i < |entries| && entries[i] == e;
      assert Below(blob, s)[i] == t;
    }
    if t.names != [] && Parent(t.names) == s.names { assert t.names == s.names + [Last(t.names)]; }
  }

  lemma {:induction false} BelowAllIff(blob: Blob, spots: seq<Spot>, t: Spot)
    ensures t in BelowAll(blob, spots) <==> exists s :: s in spots && t in Below(blob, s)
    decreases |spots|
  {
    hide Below;
    if spots != [] {
      BelowAllIff(blob, spots[1..], t);
      assert spots == [spots[0]] + spots[1..];
    }
  }

  /** Level `k` holds exactly what paths of `k` names lead to. */
  lemma {:induction false} LevelIff(blob: Blob, root: Inode, k: nat, t: Spot)
    requires Canonical(blob, root)
    ensures t in Level(blob, root.number, k) <==> |t.names| == k && LeadsTo(blob, root, t.names, t.number)
    decreases k
  {
    hide FindInode, FindNode, Leads, Points, Below, BelowAll;
    if k > 0 {
      var before := Level(blob, root.number, k - 1);
      BelowAllIff(blob, before, t);
      if t in Level(blob, root.number, k) {
        var s :| s in before && t in Below(blob, s);
        BelowIff(blob, s, t);
        LevelIff(blob, root, k - 1, s);
        LeadsToIff(blob, root, s.names, InodeByNumber(blob, s.number).value);
      }
      if |t.names| == k && LeadsTo(blob, root, t.names, t.number) {
        var d :| Leads(blob, root, Parent(t.names), d) && Points(blob, d, Last(t.names), t.number);
        var s := Spot(d.number, Parent(t.names));
        LeadsToIff(blob, root, s.names, d);
        LevelIff(blob, root, k - 1, s);
        BelowIff(blob, s, t);
      }
    }
  }

  // ----- Cycles -----

  /** No reachable directory can be reached from itself. */
  ghost predicate NoCycle(blob: Blob, root: Inode) {
    forall d, p, q :: Leads(blob, root, p, d) && q != [] ==> !Leads(blob, d, q, d)
  }

  lemma LeadsAppend(blob: Blob, root: Inode, p: Path, d: Inode, q: Path, inode: Inode)
    requires Leads(blob, root, p, d) && Leads(blob, d, q, inode)
    ensures Leads(blob, root, p + q, inode)
    decreases |q|
  {
    if q == [] {
      assert p + q == p;
    } else {
      var c :| Leads(blob, d, Parent(q), c) && Edge(blob, c, Last(q), inode);
      LeadsAppend(blob, root, p, d, Parent(q), c);
      assert Parent(p + q) == p + Parent(q) && Last(p + q) == Last(q);
    }
  }

  /** The names from `i` to `j` lead from one of `ds` to the other. */
  ghost predicate Way(blob: Blob, ds: seq<Inode>, p: Path, i: nat, j: nat)
    requires i <= j <= |p| < |ds|
  {
    Leads(blob, ds[i], p[i..j], ds[j])
  }

  ghost predicate Passes(blob: Blob, ds: seq<Inode>, p: Path) {
    && |ds| == |p| + 1 && (forall d :: d in ds ==> Canonical(blob, d))
    && forall i, j :: 0 <= i <= j <= |p| ==> Way(blob, ds, p, i, j)
  }

  /** The inodes passed on the way. */
  lemma {:induction false} Passed(blob: Blob, root: Inode, p: Path, inode: Inode) returns (ds: seq<Inode>)
    requires Leads(blob, root, p, inode) && Canonical(blob, root)
    ensures Passes(blob, ds, p) && ds[0] == root && ds[|p|] == inode
    decreases |p|
  {
    hide FindInode, FindNode, Edge;
    LeadsToIff(blob, root, p, inode);
    if p == [] {
      ds := [root];
      assert Way(blob, ds, p, 0, 0);
    } else {
      var d :| Leads(blob, root, Parent(p), d) && Edge(blob, d, Last(p), inode);
      var before := Passed(blob, root, Parent(p), d);
      ds := before + [inode];
      hide Leads;
      forall i, j | 0 <= i <= j <= |p| ensures Way(blob, ds, p, i, j) {
        PassedOn(blob, before, p, inode, i, j);
      }
    }
  }

  lemma PassedOn(blob: Blob, before: seq<Inode>, p: Path, inode: Inode, i: nat, j: nat)
    requires p != [] && Passes(blob, before, Parent(p)) && Edge(blob, before[|p| - 1], Last(p), inode)
    requires i <= j <= |p|
    ensures Way(blob, before + [inode], p, i, j)
  {
    var n := |p| - 1;
    Cuts(p, i, j);
    hide Leads, Edge;
    if j <= n {
      assert Way(blob, before, Parent(p), i, j);
    } else if i <= n {
      assert Way(blob, before, Parent(p), i, n);
      LeadsSnoc(blob, before[i], Parent(p)[i..n], before[n], Last(p), inode);
    } else {
      LeadsNowhere(blob, inode);
    }
  }

  lemma Cuts(p: Path, i: nat, j: nat)
    requires p != [] && i <= j <= |p|
    ensures j < |p| ==> p[i..j] == Parent(p)[i..j]
    ensures i < j == |p| ==> p[i..j] == Parent(p)[i..j - 1] + [Last(p)]
    ensures i == j ==> p[i..j] == []
  {
  }

  lemma LeadsNowhere(blob: Blob, inode: Inode)
    ensures Leads(blob, inode, [], inode)
  {
  }

  ghost function Numbers(blob: Blob): set<u64> { set i | i in blob.inodes :: i.number }

  lemma {:induction false} DistinctFits(xs: seq<u64>, s: set<u64>)
    requires Distinct(xs) && forall x :: x in xs ==> x in s
    ensures |xs| <= |s|
    decreases |xs|
  {
    if xs != [] {
      var rest := xs[1..];
      assert xs == [xs[0]] + rest;
      DistinctTail(xs[0], rest);
      DistinctFits(rest, s - {xs[0]});
    }
  }

  /** Without cycles no path is longer than there are inodes. */
  lemma PathsBounded(blob: Blob, root: Inode, p: Path, inode: Inode)
    requires Canonical(blob, root) && NoCycle(blob, root) && Leads(blob, root, p, inode)
    ensures |p| < |Numbers(blob)|
  {
    hide FindNode, Edge, Leads;
    var ds := Passed(blob, root, p, inode);
    var ns := seq(|ds|, i requires 0 <= i < |ds| => ds[i].number);
    forall i, j | 0 <= i < j < |ns| ensures ns[i] != ns[j] {
      assert ds[i] in ds && ds[j] in ds;
      assert Way(blob, ds, p, 0, i) && Way(blob, ds, p, i, j) && p[i..j] != [];
    }
    forall n | n in ns ensures n in Numbers(blob) {
      var i :| 0 <= i < |ns| && ns[i] == n;
      assert ds[i] in ds && ds[i] in blob.inodes;
    }
    DistinctFits(ns, Numbers(blob));
  }

  lemma {:induction false} Around(blob: Blob, d: Inode, q: Path, n: nat) returns (p: Path)
    requires q != [] && Leads(blob, d, q, d)
    ensures |p| >= n && Leads(blob, d, p, d)
    decreases n
  {
    if n == 0 {
      p := [];
    } else {
      var less := Around(blob, d, q, n - 1);
      LeadsAppend(blob, d, less, d, q, d);
      p := less + q;
    }
  }

  lemma {:induction false} LevelsEmptyOn(blob: Blob, root: u64, k: nat, n: nat)
    requires Level(blob, root, k) == [] && k <= n
    ensures Level(blob, root, n) == []
    decreases n
  {
    if k < n { LevelsEmptyOn(blob, root, k, n - 1); }
  }

  lemma DeepLevelEmpty(blob: Blob, root: Inode)
    requires Canonical(blob, root) && NoCycle(blob, root)
    ensures Level(blob, root.number, |Numbers(blob)| + 1) == []
  {
    hide Level, Leads, FindInode, FindNode, NoCycle;
    var level := Level(blob, root.number, |Numbers(blob)| + 1);
    if level != [] {
      var t := level[0];
      LevelIff(blob, root, |Numbers(blob)| + 1, t);
      var d :| Leads(blob, root, Parent(t.names), d) && Points(blob, d, Last(t.names), t.number);
      PathsBounded(blob, root, Parent(t.names), d);
    }
  }

  /** The loop of `build_path_index` ends iff no reachable directory lies on a cycle. */
  lemma ReturnsIffNoCycle(blob: Blob, root: Inode)
    requires Canonical(blob, root)
    ensures Returns(blob, root.number) <==> NoCycle(blob, root)
  {
    hide Returns, Level, Leads, FindInode, FindNode;
    ReturnsIffLevelEmpty(blob, root.number);
    if NoCycle(blob, root) { DeepLevelEmpty(blob, root); }
    if k :| Level(blob, root.number, k) == [] {
      forall d, p, q | Leads(blob, root, p, d) && q != [] ensures !Leads(blob, d, q, d) {
        if Leads(blob, d, q, d) { CycleFillsLevel(blob, root, p, d, q, k); }
      }
    }
  }

  lemma CycleFillsLevel(blob: Blob, root: Inode, p: Path, d: Inode, q: Path, k: nat)
    requires Canonical(blob, root) && Leads(blob, root, p, d) && q != [] && Leads(blob, d, q, d)
    ensures Level(blob, root.number, k) != []
  {
    hide Level, Leads, FindInode, FindNode;
    var round := Around(blob, d, q, k);
    LeadsAppend(blob, root, p, d, round, d);
    LeadsToIff(blob, root, p + round, d);
    LevelIff(blob, root, |p + round|, Spot(d.number, p + round));
    if Level(blob, root.number, k) == [] { LevelsEmptyOn(blob, root.number, k, |p + round|); }
  }
}
