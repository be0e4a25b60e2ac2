/** What writing and linking do to a destination whose names may share objects. */
module Destinations {
  import opened Bytes
  import opened Metadata
  import opened FileReaders
  import opened Sinks
  import opened ExtractionPlan

  /** The bytes each path should end up with. */
  type Want = Path -> Option<seq<byte>>

  /** Names that share an object want the same bytes. */
  ghost predicate Uniform(fs: Fs, want: Want) { forall p, q :: fs.Same(p, q) ==> want(p) == want(q) }

  /** Every path but the pending ones has what it should. */
  ghost predicate Settled(fs: Fs, want: Want, pending: set<Path>) {
    forall p :: p !in pending ==> fs.Read(p) == want(p)
  }

  ghost predicate Ready(fs: Fs, want: Want, pending: set<Path>) {
    fs.Valid() && Uniform(fs, want) && Settled(fs, want, pending)
  }

  ghost predicate NamesKept(before: Fs, after: Fs) {
    && |before.objects| <= |after.objects|
    && forall p :: p in before.names ==> p in after.names && after.names[p] == before.names[p]
  }

  /** Writing a path's own bytes settles it, and disturbs nobody it shares its object with. */
  lemma CreateSettles(fs: Fs, want: Want, p: Path, data: seq<byte>, pending: set<Path>)
    requires Ready(fs, want, pending) && want(p) == Some(data)
    ensures Ready(fs.Create(p, data), want, pending - {p})
  {
    var after := fs.Create(p, data);
    forall q | q !in pending - {p} ensures after.Read(q) == want(q) {
      if fs.Same(p, q) { assert want(p) == want(q); }
    }
    forall a, b | after.Same(a, b) ensures want(a) == want(b) {
      if p in fs.names { assert fs.Same(a, b); }
    }
  }

  /** So does linking a new name to a settled path that wants the same. */
  lemma LinkSettles(fs: Fs, want: Want, target: Path, p: Path, pending: set<Path>)
    requires Ready(fs, want, pending) && p !in fs.names && target in fs.names && target !in pending
    requires want(p) == want(target)
    ensures Ready(Fs(fs.names[p := fs.names[target]], fs.objects), want, pending - {p})
  {
    var after := Fs(fs.names[p := fs.names[target]], fs.objects);
    forall a, b | after.Same(a, b) ensures want(a) == want(b) {
      var c, d := if a == p then target else a, if b == p then target else b;
      assert fs.Same(c, d);
    }
  }

  /** If bound names are never bound anew and everything ends well, names that shared an object wanted the same. */
  lemma EndsWellMeansUniform(before: Fs, after: Fs, want: Want)
    requires NamesKept(before, after) && Settled(after, want, {})
    ensures Uniform(before, want)
  {
    forall p, q | before.Same(p, q) ensures want(p) == want(q) {
      assert after.Read(p) == after.Read(q);
    }
  }

  // ----- Names alone -----

  /** Which names are bound and which of them share an object; `next` is the object a new file would get. */
  datatype Sharing = Sharing(names: map<Path, nat>, next: nat)
  {
    ghost predicate Valid() { forall p :: p in names ==> names[p] < next }

    predicate Same(p: Path, q: Path) { p in names && q in names && names[p] == names[q] }

    /** `p` is a name of object `c`. */
    predicate Names(p: Path, c: nat) { p in names && names[p] == c }
  }

  function SharingOf(fs: Fs): Sharing { Sharing(fs.names, |fs.objects|) }

  /** Writing a file binds its path if it is not. */
  function BindFile(s: Sharing, p: Path): Sharing {
    if p in s.names then s else Sharing(s.names[p := s.next], s.next + 1)
  }

  function BindTasks(s: Sharing, tasks: seq<(Path, Inode)>): Sharing
    decreases |tasks|
  {
    if tasks == [] then s else BindTasks(if Writes(tasks[0].1) then BindFile(s, tasks[0].0) else s, tasks[1..])
  }

  /** A link binds its name to its target's object, or where the policy forbids that to a copy. */
  function BindLink(s: Sharing, l: (Path, Path), policy: LinkPolicy): Sharing {
    if l.1 !in s.names || l.0 in s.names then s
    else if policy(l.0) then Sharing(s.names[l.0 := s.names[l.1]], s.next)
    else BindFile(s, l.0)
  }

  lemma LinkShares(fs: Fs, l: (Path, Path), policy: LinkPolicy)
    requires fs.Valid()
    ensures MakeLink(fs, l, policy).Valid()
    ensures SharingOf(MakeLink(fs, l, policy)) == BindLink(SharingOf(fs), l, policy)
  {
  }

  lemma {:induction false} TasksShare(fs: Fs, tasks: seq<(Path, Inode)>, store: Option<SlabSource>)
    requires fs.Valid()
    ensures RunTasks(fs, tasks, store).Valid()
    ensures SharingOf(RunTasks(fs, tasks, store)) == BindTasks(SharingOf(fs), tasks)
    decreases |tasks|
  {
    hide Delivered, Writes;
    if tasks != [] {
      var next := RunTask(fs, tasks[0], store);
      assert next.Valid() && SharingOf(next)
        == if Writes(tasks[0].1) then BindFile(SharingOf(fs), tasks[0].0) else SharingOf(fs);
      TasksShare(next, tasks[1..], store);
    }
  }

  // ----- Tasks -----

  ghost function WrittenPaths(tasks: seq<(Path, Inode)>): set<Path> {
    set t | t in tasks && Writes(t.1) :: t.0
  }

  ghost predicate TasksWant(tasks: seq<(Path, Inode)>, want: Want, store: Option<SlabSource>) {
    forall t :: t in tasks ==> Streamed(t.1, store).Some? && want(t.0) == Streamed(t.1, store)
  }

  lemma StreamedIsDelivered(inode: Inode, store: Option<SlabSource>)
    requires Streamed(inode, store).Some?
    ensures Streamed(inode, store) == Some(Delivered(ItemsOf(inode, store)))
  {
    DeliveredAll(ItemsOf(inode, store));
  }

  /** Running the tasks in any order settles every path the writing guard admits. */
  lemma {:induction false} TasksSettle(
    fs: Fs, tasks: seq<(Path, Inode)>, want: Want, pending: set<Path>, store: Option<SlabSource>)
    requires Ready(fs, want, pending) && TasksWant(tasks, want, store)
    ensures Ready(RunTasks(fs, tasks, store), want, pending - WrittenPaths(tasks))
    decreases |tasks|
  {
    hide Ready, Streamed, Delivered, Writes;
    if tasks != [] {
      var t, rest := tasks[0], tasks[1..];
      assert tasks == [t] + rest;
      StreamedIsDelivered(t.1, store);
      if Writes(t.1) {
        CreateSettles(fs, want, t.0, Delivered(ItemsOf(t.1, store)), pending);
        TasksSettle(RunTask(fs, t, store), rest, want, pending - {t.0}, store);
        assert pending - WrittenPaths(tasks) == (pending - {t.0}) - WrittenPaths(rest);
      } else {
        TasksSettle(fs, rest, want, pending, store);
        assert WrittenPaths(tasks) == WrittenPaths(rest);
      }
    } else {
      assert pending - WrittenPaths(tasks) == pending;
    }
  }

  /** Tasks keep every name and bind the other written paths, each to an object of its own. */
  lemma {:induction false} TasksBind(s: Sharing, tasks: seq<(Path, Inode)>)
    requires s.Valid()
    ensures var after := BindTasks(s, tasks);
      && after.Valid() && s.next <= after.next
      && after.names.Keys == s.names.Keys + WrittenPaths(tasks)
      && (forall p :: p in s.names ==> after.names[p] == s.names[p])
      && (forall p :: p in after.names && p !in s.names ==> after.names[p] >= s.next)
      && (forall p, q :: after.Same(p, q) ==> p == q || s.Same(p, q))
    decreases |tasks|
  {
    hide Writes;
    if tasks != [] {
      assert tasks == [tasks[0]] + tasks[1..];
      TasksBind(if Writes(tasks[0].1) then BindFile(s, tasks[0].0) else s, tasks[1..]);
    }
  }

  lemma TasksKeep(fs: Fs, tasks: seq<(Path, Inode)>, store: Option<SlabSource>)
    requires fs.Valid()
    ensures RunTasks(fs, tasks, store).Valid() && NamesKept(fs, RunTasks(fs, tasks, store))
  {
    hide RunTasks, BindTasks;
    TasksShare(fs, tasks, store);
    TasksBind(SharingOf(fs), tasks);
  }

  /** An object no written path names keeps its content. */
  lemma {:induction false} TasksLeave(fs: Fs, tasks: seq<(Path, Inode)>, store: Option<SlabSource>, c: nat)
    requires fs.Valid() && c < |fs.objects| && forall t :: t in tasks && Writes(t.1) ==> !SharingOf(fs).Names(t.0, c)
    ensures c < |RunTasks(fs, tasks, store).objects| && RunTasks(fs, tasks, store).objects[c] == fs.objects[c]
    decreases |tasks|
  {
    hide Delivered, Writes;
    if tasks != [] {
      assert tasks == [tasks[0]] + tasks[1..];
      TasksLeave(RunTask(fs, tasks[0], store), tasks[1..], store, c);
    }
  }

  // ----- Skipped tasks -----

  /** A task that writes shares the object of `p`. */
  ghost predicate Refreshed(fs: Fs, tasks: seq<(Path, Inode)>, p: Path) {
    exists q :: q in WrittenPaths(tasks) && fs.Same(p, q)
  }

  /** The objects of skipped paths that hold something else, and that no other task fills. */
  ghost function SkippedWrong(fs: Fs, tasks: seq<(Path, Inode)>, want: Want): set<nat> {
    set t | t in tasks && !Writes(t.1) && t.0 in fs.names && fs.Read(t.0) != want(t.0) && !Refreshed(fs, tasks, t.0)
      :: fs.names[t.0]
  }

  ghost predicate SkippedBound(fs: Fs, tasks: seq<(Path, Inode)>) {
    forall t :: t in tasks && !Writes(t.1) ==> t.0 in fs.names
  }

  /** A skipped path has what it should after the tasks iff it had before or shares its object with a written one. */
  lemma SkippedReads(fs: Fs, tasks: seq<(Path, Inode)>, want: Want, pending: set<Path>, store: Option<SlabSource>,
    p: Path)
    requires Ready(fs, want, pending) && TasksWant(tasks, want, store) && p in fs.names
    ensures RunTasks(fs, tasks, store).Read(p) == want(p) <==> fs.Read(p) == want(p) || Refreshed(fs, tasks, p)
  {
    TasksSettle(fs, tasks, want, pending, store);
    TasksBind(SharingOf(fs), tasks);
    TasksShare(fs, tasks, store);
    var after, c := RunTasks(fs, tasks, store), fs.names[p];
    hide RunTasks, BindTasks, Writes, Streamed;
    if Refreshed(fs, tasks, p) {
      var q :| q in WrittenPaths(tasks) && fs.Same(p, q);
      assert after.Read(q) == want(q) && want(p) == want(q);
    } else {
      assert forall t :: t in tasks && Writes(t.1) ==> t.0 in WrittenPaths(tasks);
      assert forall q :: q in WrittenPaths(tasks) ==> !fs.Same(p, q);
      TasksLeave(fs, tasks, store, c);
    }
  }

  // ----- Links -----

  ghost predicate LinksWant(links: seq<(Path, Path)>, want: Want) {
    forall l :: l in links ==> want(l.1).Some? && want(l.0) == want(l.1)
  }

  /** No link's name already shares its target's object, unless the file is empty. */
  ghost predicate NoSelfCopies(s: Sharing, links: seq<(Path, Path)>, want: Want) {
    forall l :: l in links && s.Same(l.1, l.0) ==> want(l.0) == Some([])
  }

  /** The first link's name and the others', which do not meet; no target is a name still to come. */
  lemma LinksSplit(links: seq<(Path, Path)>)
    requires links != [] && LinksRunnable(links)
    ensures LinksRunnable(links[1..])
    ensures forall m :: m in links[1..] ==> m in links && m.0 != links[0].0 && m.1 != links[0].0
    ensures LinkNames(links) == LinkNames(links[1..]) + {links[0].0}
  {
    var rest := links[1..];
    assert links == [links[0]] + rest;
    forall m | m in rest ensures m.0 != links[0].0 {
      var i :| 0 <= i < |rest| && rest[i] == m;
      assert links[0].0 != links[i + 1].0;
    }
    forall i, j | 0 <= i < j < |rest| ensures rest[i].0 != rest[j].0 {
      assert links[i + 1].0 != links[j + 1].0;
    }
  }

  /** A link keeps the names there were and adds at most its own. */
  lemma LinkBinds(s: Sharing, l: (Path, Path), policy: LinkPolicy)
    requires s.Valid()
    ensures var after := BindLink(s, l, policy);
      && after.Valid() && s.next <= after.next
      && (forall p :: p in s.names ==> p in after.names && after.names[p] == s.names[p])
      && (forall p :: p in after.names && p != l.0 ==> p in s.names)
  {
  }

  lemma {:induction false} LinksBind(fs: Fs, links: seq<(Path, Path)>, policy: LinkPolicy)
    requires fs.Valid()
    ensures MakeLinks(fs, links, policy).Valid() && NamesKept(fs, MakeLinks(fs, links, policy))
    ensures forall p :: p in MakeLinks(fs, links, policy).names && p !in LinkNames(links) ==> p in fs.names
    decreases |links|
  {
    hide MakeLink, BindLink;
    if links != [] {
      assert links == [links[0]] + links[1..];
      LinkShares(fs, links[0], policy);
      LinkBinds(SharingOf(fs), links[0], policy);
      LinksBind(MakeLink(fs, links[0], policy), links[1..], policy);
    }
  }

  /**
   * The objects that do not hold what their names want, once link `l` is made. Copying an object onto itself
   * empties it, and copying from elsewhere makes it as right or wrong as its source.
   */
  ghost function AfterLink(s: Sharing, l: (Path, Path), policy: LinkPolicy, want: Want, wrong: set<nat>): set<nat> {
    if l.1 !in s.names then wrong
    else
      var source := s.names[l.1];
      if l.0 in s.names then
        var c := s.names[l.0];
        if (if c == source then want(l.0) != Some([]) else source in wrong) then wrong + {c} else wrong - {c}
      else if !policy(l.0) && source in wrong then wrong + {s.next} else wrong
  }

  /** The objects left wrong by all the links. */
  ghost function LeftWrong(s: Sharing, links: seq<(Path, Path)>, policy: LinkPolicy, want: Want, wrong: set<nat>)
    : set<nat>
    decreases |links|
  {
    if links == [] then wrong
    else LeftWrong(BindLink(s, links[0], policy), links[1..], policy, want, AfterLink(s, links[0], policy, want, wrong))
  }

  /** Of the paths not pending, exactly the names of wrong objects do not have what they should. */
  ghost predicate Tracked(fs: Fs, want: Want, pending: set<Path>, wrong: set<nat>) {
    && fs.Valid() && Uniform(fs, want)
    && (forall p :: p !in pending ==> (fs.Read(p) == want(p) <==> !(p in fs.names && fs.names[p] in wrong)))
    && (forall c :: c in wrong ==> exists p :: p !in pending && SharingOf(fs).Names(p, c))
  }

  lemma LinkTracks(fs: Fs, l: (Path, Path), want: Want, pending: set<Path>, wrong: set<nat>, policy: LinkPolicy)
    requires Tracked(fs, want, pending, wrong) && l.1 !in pending && want(l.1).Some? && want(l.0) == want(l.1)
    ensures Tracked(MakeLink(fs, l, policy), want, pending - {l.0}, AfterLink(SharingOf(fs), l, policy, want, wrong))
  {
    var s, left := SharingOf(fs), pending - {l.0};
    var after, more := MakeLink(fs, l, policy), AfterLink(s, l, policy, want, wrong);
    assert l.1 in fs.names || fs.Read(l.1) == want(l.1);
    forall a, b | after.Same(a, b) ensures want(a) == want(b) {
      var c, d := if l.0 !in fs.names && a == l.0 then l.1 else a, if l.0 !in fs.names && b == l.0 then l.1 else b;
      if c in fs.names && d in fs.names && fs.names[c] == fs.names[d] { assert fs.Same(c, d); }
    }
    forall p | p !in left
      ensures after.Read(p) == want(p) <==> !(p in after.names && after.names[p] in more)
    {
      if fs.Same(p, l.0) { assert want(p) == want(l.0); }
    }
    forall c | c in more ensures exists p :: p !in left && SharingOf(after).Names(p, c) {
      if c in wrong {
        var p :| p !in pending && s.Names(p, c);
        assert SharingOf(after).Names(p, c);
      } else {
        assert SharingOf(after).Names(l.0, c);
      }
    }
  }

  lemma {:induction false} LinksTrack(
    fs: Fs, links: seq<(Path, Path)>, want: Want, pending: set<Path>, wrong: set<nat>, policy: LinkPolicy)
    requires Tracked(fs, want, pending, wrong) && LinksRunnable(links) && LinksWant(links, want)
    requires forall l :: l in links ==> l.1 !in pending
    ensures Tracked(MakeLinks(fs, links, policy), want, pending - LinkNames(links),
      LeftWrong(SharingOf(fs), links, policy, want, wrong))
    decreases |links|
  {
    if links == [] {
      assert pending - LinkNames(links) == pending;
    } else {
      LinksSplit(links);
      var l, rest := links[0], links[1..];
      LinkTracks(fs, l, want, pending, wrong, policy);
      LinkShares(fs, l, policy);
      hide Tracked, MakeLink, AfterLink, BindLink, LinksRunnable, SharingOf;
      var more := AfterLink(SharingOf(fs), l, policy, want, wrong);
      LinksTrack(MakeLink(fs, l, policy), rest, want, pending - {l.0}, more, policy);
      assert pending - LinkNames(links) == (pending - {l.0}) - LinkNames(rest);
    }
  }

  /** Making the links ends well iff they leave no object wrong. */
  lemma LinksEndWellIff(fs: Fs, links: seq<(Path, Path)>, want: Want, wrong: set<nat>, policy: LinkPolicy)
    requires Tracked(fs, want, LinkNames(links), wrong) && LinksRunnable(links) && LinksWant(links, want)
    ensures Settled(MakeLinks(fs, links, policy), want, {})
      <==> LeftWrong(SharingOf(fs), links, policy, want, wrong) == {}
  {
    hide MakeLinks, LeftWrong;
    LinksTrack(fs, links, want, LinkNames(links), wrong, policy);
    var after, left := MakeLinks(fs, links, policy), LeftWrong(SharingOf(fs), links, policy, want, wrong);
    assert LinkNames(links) - LinkNames(links) == {};
    if c :| c in left {
      var p :| p !in {} && SharingOf(after).Names(p, c);
      assert after.Read(p) != want(p);
    }
  }

  // ----- What the links leave wrong -----

  /** The same names, sharing objects alike, and wrong alike. */
  ghost predicate Alike(a: Sharing, b: Sharing, wrong: set<nat>, other: set<nat>) {
    && a.Valid() && b.Valid() && a.names.Keys == b.names.Keys
    && (forall p, q :: a.Same(p, q) <==> b.Same(p, q))
    && (forall p :: p in a.names ==> (a.names[p] in wrong <==> b.names[p] in other))
    && (forall c :: c in wrong ==> exists p :: a.Names(p, c))
    && (forall c :: c in other ==> exists p :: b.Names(p, c))
  }

  lemma WrongNamed(s: Sharing, l: (Path, Path), policy: LinkPolicy, want: Want, wrong: set<nat>, c: nat)
    requires (forall d :: d in wrong ==> exists p :: s.Names(p, d)) && c in AfterLink(s, l, policy, want, wrong)
    ensures exists p :: BindLink(s, l, policy).Names(p, c)
  {
    var after := BindLink(s, l, policy);
    if c in wrong {
      var p :| s.Names(p, c);
      assert after.Names(p, c);
    } else {
      assert after.Names(l.0, c);
    }
  }

  lemma LinkAlike(a: Sharing, b: Sharing, l: (Path, Path), policy: LinkPolicy, want: Want,
    wrong: set<nat>, other: set<nat>)
    requires Alike(a, b, wrong, other)
    ensures Alike(BindLink(a, l, policy), BindLink(b, l, policy),
      AfterLink(a, l, policy, want, wrong), AfterLink(b, l, policy, want, other))
  {
    var c, d := BindLink(a, l, policy), BindLink(b, l, policy);
    LinkBinds(a, l, policy);
    LinkBinds(b, l, policy);
    forall n | n in AfterLink(a, l, policy, want, wrong) ensures exists p :: c.Names(p, n) {
      WrongNamed(a, l, policy, want, wrong, n);
    }
    forall n | n in AfterLink(b, l, policy, want, other) ensures exists p :: d.Names(p, n) {
      WrongNamed(b, l, policy, want, other, n);
    }
    LinkSharesAlike(a, b, l, policy, wrong, other);
    forall p | p in c.names
      ensures c.names[p] in AfterLink(a, l, policy, want, wrong) <==> d.names[p] in AfterLink(b, l, policy, want, other)
    {
      LinkWrongAlike(a, b, l, policy, want, wrong, other, p);
    }
  }

  lemma LinkSharesAlike(a: Sharing, b: Sharing, l: (Path, Path), policy: LinkPolicy, wrong: set<nat>, other: set<nat>)
    requires Alike(a, b, wrong, other)
    ensures forall p, q :: BindLink(a, l, policy).Same(p, q) <==> BindLink(b, l, policy).Same(p, q)
  {
    var c, d := BindLink(a, l, policy), BindLink(b, l, policy);
    forall p, q ensures c.Same(p, q) <==> d.Same(p, q) {
      var v, w := if p in a.names then p else l.1, if q in a.names then q else l.1;
      assert a.Same(v, w) <==> b.Same(v, w);
      assert a.Same(p, q) <==> b.Same(p, q);
    }
  }

  lemma LinkWrongAlike(a: Sharing, b: Sharing, l: (Path, Path), policy: LinkPolicy, want: Want, wrong: set<nat>,
    other: set<nat>, p: Path)
    requires Alike(a, b, wrong, other) && p in BindLink(a, l, policy).names && p in BindLink(b, l, policy).names
    ensures BindLink(a, l, policy).names[p] in AfterLink(a, l, policy, want, wrong)
      <==> BindLink(b, l, policy).names[p] in AfterLink(b, l, policy, want, other)
  {
    FreshIsRight(a, wrong);
    FreshIsRight(b, other);
    WrongAfter(a, l, policy, want, wrong, p);
    WrongAfter(b, l, policy, want, other, p);
    assert a.Same(l.1, l.0) <==> b.Same(l.1, l.0);
    assert a.Same(p, l.0) <==> b.Same(p, l.0);
    hide AfterLink, BindLink;
  }

  /** Whether `p` names a wrong object once link `l` is made, in terms of what was wrong before. */
  lemma WrongAfter(s: Sharing, l: (Path, Path), policy: LinkPolicy, want: Want, wrong: set<nat>, p: Path)
    requires s.Valid() && s.next !in wrong && p in BindLink(s, l, policy).names
    ensures p in s.names || (p == l.0 && l.1 in s.names)
    ensures BindLink(s, l, policy).names[p] in AfterLink(s, l, policy, want, wrong) <==>
      if p !in s.names then s.names[l.1] in wrong
      else if l.1 !in s.names || !s.Same(p, l.0) then s.names[p] in wrong
      else if s.Same(l.1, l.0) then want(l.0) != Some([])
      else s.names[l.1] in wrong
  {
  }

  lemma FreshIsRight(s: Sharing, wrong: set<nat>)
    requires s.Valid() && forall c :: c in wrong ==> exists p :: s.Names(p, c)
    ensures s.next !in wrong
  {
  }

  /** What the links leave wrong depends on which names share objects, not on the objects. */
  lemma {:induction false} LinksAlike(a: Sharing, b: Sharing, links: seq<(Path, Path)>, policy: LinkPolicy, want: Want,
    wrong: set<nat>, other: set<nat>)
    requires Alike(a, b, wrong, other)
    ensures LeftWrong(a, links, policy, want, wrong) == {} <==> LeftWrong(b, links, policy, want, other) == {}
    decreases |links|
  {
    hide BindLink, AfterLink;
    if links == [] {
      if c :| c in wrong { var p :| a.Names(p, c); }
      if c :| c in other { var p :| b.Names(p, c); }
    } else {
      LinkAlike(a, b, links[0], policy, want, wrong, other);
      hide Alike;
      LinksAlike(BindLink(a, links[0], policy), BindLink(b, links[0], policy), links[1..], policy, want,
        AfterLink(a, links[0], policy, want, wrong), AfterLink(b, links[0], policy, want, other));
    }
  }

  /** An object that every link onto it empties, and that should not be empty, stays wrong. */
  lemma {:induction false} StaysWrong(s: Sharing, links: seq<(Path, Path)>, policy: LinkPolicy, want: Want,
    wrong: set<nat>, c: nat)
    requires s.Valid() && LinksRunnable(links) && c in wrong && c < s.next
    requires forall l :: l in links && s.Names(l.0, c) ==> s.Same(l.1, l.0) && want(l.0) != Some([])
    ensures c in LeftWrong(s, links, policy, want, wrong)
    decreases |links|
  {
    if links != [] {
      LinksSplit(links);
      var l, rest, next := links[0], links[1..], BindLink(s, links[0], policy);
      LinkBinds(s, l, policy);
      assert l in links;
      assert c in AfterLink(s, l, policy, want, wrong);
      hide BindLink, LinksRunnable, AfterLink;
      forall m | m in rest && next.Names(m.0, c) ensures next.Same(m.1, m.0) && want(m.0) != Some([]) {
        assert m in links && s.Names(m.0, c);
      }
      StaysWrong(next, rest, policy, want, AfterLink(s, l, policy, want, wrong), c);
    }
  }

  /** Links that meet at one object have one target. */
  ghost predicate Unmixed(s: Sharing, links: seq<(Path, Path)>) {
    forall l, m :: l in links && m in links && s.Same(l.0, m.0) ==> l.1 == m.1
  }

  /** Where links that meet have one target, a linked pair leaves something wrong, whatever was wrong before. */
  lemma {:induction false} SelfCopyLeavesWrong(s: Sharing, links: seq<(Path, Path)>, policy: LinkPolicy, want: Want,
    wrong: set<nat>, l: (Path, Path))
    requires s.Valid() && LinksRunnable(links) && LinksWant(links, want) && Unmixed(s, links)
    requires l in links && s.Same(l.1, l.0) && want(l.0) != Some([])
    ensures LeftWrong(s, links, policy, want, wrong) != {}
    decreases |links|
  {
    LinksSplit(links);
    var first, rest, next := links[0], links[1..], BindLink(s, links[0], policy);
    var more := AfterLink(s, first, policy, want, wrong);
    LinkBinds(s, first, policy);
    if first == l {
      var c := s.names[l.0];
      assert c in more;
      hide BindLink, AfterLink, LinksRunnable;
      forall m | m in rest && next.Names(m.0, c) ensures next.Same(m.1, m.0) && want(m.0) != Some([]) {
        assert m in links && s.Same(l.0, m.0) && s.Same(m.1, m.0);
      }
      StaysWrong(next, rest, policy, want, more, c);
    } else {
      assert l in rest by { assert links == [first] + rest; }
      hide BindLink, AfterLink, LinksRunnable;
      forall m, n | m in rest && n in rest && next.Same(m.0, n.0) ensures m.1 == n.1 {
        assert m in links && n in links && s.Same(m.0, n.0);
      }
      SelfCopyLeavesWrong(next, rest, policy, want, more, l);
    }
  }

  /** Where no link's name shares its target's object, links make nothing wrong. */
  lemma {:induction false} NoSelfCopiesNothingWrong(s: Sharing, links: seq<(Path, Path)>, want: Want,
    policy: LinkPolicy)
    requires s.Valid() && LinksRunnable(links) && NoSelfCopies(s, links, want)
    ensures LeftWrong(s, links, policy, want, {}) == {}
    decreases |links|
  {
    if links != [] {
      LinksSplit(links);
      var l, rest, next := links[0], links[1..], BindLink(s, links[0], policy);
      LinkBinds(s, l, policy);
      assert l in links;
      assert AfterLink(s, l, policy, want, {}) == {};
      hide BindLink, LinksRunnable;
      forall m | m in rest && next.Same(m.1, m.0) ensures want(m.0) == Some([]) {
        assert m in links && s.Same(m.1, m.0);
      }
      NoSelfCopiesNothingWrong(next, rest, want, policy);
    }
  }
}
