/** Directory nodes on the wire: what the parser accepts is what the walker relies on. */
module DirectoryNode {
  import opened Bytes
  import opened Metadata
  import opened Utf8
  import opened Wire
  import opened Walk
  import opened WalkProperties
  import opened ReportedPaths

  const NODE_VERSION := 1
  const NO_CEILING: u32 := 0xFFFF_FFFF

  // ----- Names in bytewise lexicographic order -----

  predicate Less(a: Name, b: Name) {
    b != [] && (a == [] || a[0] < b[0] || (a[0] == b[0] && Less(a[1..], b[1..])))
  }

  lemma {:induction false} LessIrreflexive(a: Name)
    ensures !Less(a, a)
  {
    if a != [] { LessIrreflexive(a[1..]); }
  }

  lemma {:induction false} LessTransitive(a: Name, b: Name, c: Name)
    requires Less(a, b) && Less(b, c)
    ensures Less(a, c)
  {
    if a != [] && a[0] == b[0] == c[0] { LessTransitive(a[1..], b[1..], c[1..]); }
  }

  /** Bytewise order: at the first difference the smaller byte, or a proper prefix. */
  lemma {:induction false} LessIff(a: Name, b: Name)
    ensures Less(a, b) <==>
      exists k: nat :: k <= |a| && k < |b| && a[..k] == b[..k] && (k == |a| || a[k] < b[k])
    decreases |a|
  {
    if a == [] || b == [] || a[0] != b[0] {
      if b != [] && (a == [] || a[0] < b[0]) { assert a[..0] == b[..0]; }
      forall k: nat | 0 < k <= |a| && k < |b| && a[0] != b[0] ensures a[..k] != b[..k] {
        assert a[..k][0] == a[0] && b[..k][0] == b[0];
      }
    } else {
      LessIff(a[1..], b[1..]);
      if Less(a, b) {
        var k: nat :| k < |a| && k < |b| - 1 && a[1..][..k] == b[1..][..k] && (k == |a| - 1 || a[1..][k] < b[1..][k]);
        assert a[..k + 1] == [a[0]] + a[1..][..k] && b[..k + 1] == [b[0]] + b[1..][..k];
      }
      if k: nat :| k <= |a| && k < |b| && a[..k] == b[..k] && (k == |a| || a[k] < b[k]) {
        assert k > 0;
        assert a[1..][..k - 1] == a[..k][1..] == b[..k][1..] == b[1..][..k - 1];
      }
    }
  }

  /** Each entry's name is greater than the one before. */
  predicate Ascending(entries: seq<DirEntry>) {
    forall i {:trigger InOrder(entries, i)} :: 0 < i < |entries| ==> InOrder(entries, i)
  }

  predicate InOrder(entries: seq<DirEntry>, i: nat)
    requires 0 < i < |entries|
  {
    Less(entries[i - 1].name, entries[i].name)
  }

  lemma {:induction false} AscendingPairs(entries: seq<DirEntry>, i: nat, j: nat)
    requires Ascending(entries) && i < j < |entries|
    ensures Less(entries[i].name, entries[j].name)
    decreases j
  {
    assert InOrder(entries, j);
    if i < j - 1 {
      AscendingPairs(entries, i, j - 1);
      LessTransitive(entries[i].name, entries[j - 1].name, entries[j].name);
    }
  }

  // ----- Entries -----

  predicate ValidName(name: Name) {
    0 < |name| <= NO_CEILING && SLASH !in name && NUL !in name && IsUtf8(name)
  }

  /** The parser's names are those the walk takes on Unix, and the two dot names, which the walk refuses. */
  lemma ValidNameIff(name: Name)
    requires |name| <= NO_CEILING && IsUtf8(name)
    ensures ValidName(name) <==> ValidTreeName(name, false) || name == Ascii(".") || name == Ascii("..")
  {
    assert Ascii(".") == [DOT] && Ascii("..") == [DOT, DOT];
  }

  predicate ValidEntry(e: DirEntry) { ValidName(e.name) && 1 <= e.entryType <= 4 }

  function EncodeEntry(e: DirEntry): seq<byte> {
    EncodeBlob(e.name) + (LE(e.inodeNumber, 8) + LE(e.entryType, 1))
  }

  function ParseEntry(s: seq<byte>): Parse<DirEntry> {
    var (name, s1) :- TakeBlob(s, NO_CEILING);
    if !ValidName(name) then Fail
    else
      var (number, s2) :- TakeUint(s1, 8);
      var (kind, s3) :- TakeUint(s2, 1);
      Widths();
      if 1 <= kind <= 4 then Done(DirEntry(name, number, kind), s3) else Fail
  }

  lemma NameFits(name: Name)
    requires ValidName(name)
    ensures |name| <= NO_CEILING
  {
  }

  lemma EntryReads()
    ensures Reads(ParseEntry, EncodeEntry, ValidEntry)
  {
    hide LE, TakeUint, TakeBlob, EncodeBlob, ValidName;
    forall e: DirEntry, rest | ValidEntry(e) ensures ParseEntry(EncodeEntry(e) + rest) == Done(e, rest) {
      NameFits(e.name);
      var tail := LE(e.inodeNumber, 8) + LE(e.entryType, 1);
      Widths();
      Assoc(EncodeBlob(e.name), tail, rest);
      Assoc(LE(e.inodeNumber, 8), LE(e.entryType, 1), rest);
      BlobRoundTrip(e.name, NO_CEILING, tail + rest);
      TakeUintRoundTrip(e.inodeNumber, 8, LE(e.entryType, 1) + rest);
      TakeUintRoundTrip(e.entryType, 1, rest);
    }
  }

  lemma EntryAccepts()
    ensures Accepts(ParseEntry, EncodeEntry, ValidEntry)
  {
    hide LE, TakeUint, TakeBlob, EncodeBlob, ValidName;
    forall s | ParseEntry(s).Done?
      ensures ValidEntry(ParseEntry(s).value) && s == EncodeEntry(ParseEntry(s).value) + ParseEntry(s).rest
    {
      var s1 := TakeBlob(s, NO_CEILING).rest;
      var s2 := TakeUint(s1, 8).rest;
      BlobCanonical(s, NO_CEILING);
      TakeUintCanonical(s1, 8);
      TakeUintCanonical(s2, 1);
      var r := ParseEntry(s);
      Assoc(LE(r.value.inodeNumber, 8), LE(r.value.entryType, 1), r.rest);
      Assoc(EncodeBlob(r.value.name), LE(r.value.inodeNumber, 8) + LE(r.value.entryType, 1), r.rest);
    }
  }

  // ----- The node -----

  predicate ValidNode(entries: seq<DirEntry>) {
    |entries| < 0x1_0000_0000 && Ascending(entries) && forall i :: 0 <= i < |entries| ==> ValidEntry(entries[i])
  }

  function Encode(entries: seq<DirEntry>): seq<byte> {
    LE(NODE_VERSION, 1) + (LE(|entries|, 4) + EncodeMany(EncodeEntry, entries))
  }

  function ParseAscending(n: nat, s: seq<byte>): Parse<seq<DirEntry>> {
    var (entries, rest) :- ParseMany(ParseEntry, n, s);
    if Ascending(entries) then Done(entries, rest) else Fail
  }

  function ParseNode(s: seq<byte>): Parse<seq<DirEntry>> {
    var (version, s1) :- TakeUint(s, 1);
    if version != NODE_VERSION then Fail
    else
      var (count, s2) :- TakeUint(s1, 4);
      ParseAscending(count, s2)
  }

  lemma RoundTrip(entries: seq<DirEntry>, rest: seq<byte>)
    requires ValidNode(entries)
    ensures ParseNode(Encode(entries) + rest) == Done(entries, rest)
  {
    hide LE, TakeUint, EncodeMany, EncodeEntry, ParseEntry, ValidEntry, Ascending;
    var body := EncodeMany(EncodeEntry, entries);
    Widths();
    Assoc(LE(NODE_VERSION, 1), LE(|entries|, 4) + body, rest);
    Assoc(LE(|entries|, 4), body, rest);
    TakeUintRoundTrip(NODE_VERSION, 1, LE(|entries|, 4) + (body + rest));
    TakeUintRoundTrip(|entries|, 4, body + rest);
    EntryReads();
    ManyReads(ParseEntry, EncodeEntry, ValidEntry, entries, rest);
  }

  lemma Canonical(s: seq<byte>)
    requires ParseNode(s).Done?
    ensures ValidNode(ParseNode(s).value) && s == Encode(ParseNode(s).value) + ParseNode(s).rest
  {
    hide LE, TakeUint, EncodeMany, EncodeEntry, ParseEntry, ValidEntry, Ascending;
    var s1 := TakeUint(s, 1).rest;
    var count, s2 := TakeUint(s1, 4).value, TakeUint(s1, 4).rest;
    Widths();
    TakeUintCanonical(s, 1);
    TakeUintCanonical(s1, 4);
    EntryAccepts();
    ManyAccepts(ParseEntry, EncodeEntry, ValidEntry, count, s2);
    var r := ParseNode(s);
    var body := EncodeMany(EncodeEntry, r.value);
    Assoc(LE(count, 4), body, r.rest);
    Assoc(LE(NODE_VERSION, 1), LE(count, 4) + body, r.rest);
  }

  /** What the parser accepts has the property that keeps the walk's paths distinct. */
  lemma AcceptedHasUniqueNames(s: seq<byte>)
    requires ParseNode(s).Done?
    ensures UniqueNames(ParseNode(s).value)
    ensures forall e :: e in ParseNode(s).value ==> e.name != [] && SLASH !in e.name
  {
    var entries := ParseNode(s).value;
    Canonical(s);
    forall i, j | 0 <= i < j < |entries| ensures entries[i].name != entries[j].name {
      AscendingPairs(entries, i, j);
      LessIrreflexive(entries[i].name);
    }
  }

  /** Every directory node of the blob came out of the parser. */
  ghost predicate NodesParsed(blob: Blob) {
    forall n :: n in blob.dirNodes ==> exists s :: ParseNode(s).Done? && ParseNode(s).value == n
  }

  /**
   * Over parsed nodes no list of names is followed twice across the whole tree, so the paths handed over are
   * pairwise distinct unless two of them meet at a drive.
   */
  lemma ParsedPathsDistinct(blob: Blob, windows: bool, root: u64)
    requires NodesParsed(blob)
    ensures BlobHasUniqueNames(blob) && DistinctPaths(WalkTree(blob, windows, root).events)
    ensures var events := WalkTree(blob, windows, root).events;
      DistinctPaths(Reports(blob, windows, root)) <==>
        forall i, j :: 0 <= i < j < |events| ==> !MeetAtDrive(windows, events[i].path, events[j].path)
  {
    hide ParseNode, WalkTree, Reports, MeetAtDrive;
    forall n | n in blob.dirNodes ensures UniqueNames(n) {
      var s :| ParseNode(s).Done? && ParseNode(s).value == n;
      AcceptedHasUniqueNames(s);
    }
    PathsDistinct(blob, windows, root);
    ReportsDistinctIff(blob, windows, root);
  }

  /** The nodes of the tree that leaves its destination on Windows are ones the parser accepts. */
  lemma DriveNodesParse(first: Inode, second: Inode)
    ensures NodesParsed(DriveBlob(first, second))
  {
    DriveNodesValid();
    hide ParseNode, Encode, ValidNode;
    RoundTrip(TOP, []);
    RoundTrip(LOW, []);
  }

  lemma DriveNodesValid()
    ensures ValidNode(TOP) && ValidNode(LOW)
  {
    DriveNamesUtf8();
    hide IsUtf8;
    assert DRIVE_NAME[0] < PLAIN_NAME[0];
  }

  lemma DriveNamesUtf8()
    ensures IsUtf8(DRIVE_NAME) && IsUtf8(PLAIN_NAME)
  {
    assert DRIVE_NAME[1..][1..][1..] == [] && PLAIN_NAME[1..] == [];
    assert IsUtf8(DRIVE_NAME[1..][1..]) && IsUtf8(DRIVE_NAME[1..]);
  }

  /** `dir_node_hash`. */
  function NodeHash(hash: HashFunction, entries: seq<DirEntry>): Digest { hash(Encode(entries)) }

  /** The hash names one node: two parsed nodes with the same hash are equal, or exhibit a collision. */
  lemma HashNamesNode(hash: HashFunction, a: seq<DirEntry>, b: seq<DirEntry>)
    requires ValidNode(a) && ValidNode(b) && NodeHash(hash, a) == NodeHash(hash, b)
    ensures a == b || (Encode(a) != Encode(b) && hash(Encode(a)) == hash(Encode(b)))
  {
    hide Encode, ParseNode, ValidNode;
    if Encode(a) == Encode(b) {
      RoundTrip(a, []);
      RoundTrip(b, []);
    }
  }

  // ----- Over a cursor -----

  function LastName(entries: seq<DirEntry>): Option<Name> {
    if entries == [] then None else Some(entries[|entries| - 1].name)
  }

  /** `name` may follow an entry called `prev`. */
  predicate MayFollow(prev: Option<Name>, name: Name) { prev.None? || Less(prev.value, name) }

  /** One entry of the loop, its name checked against the previous one before the rest is read. */
  method ReadEntry(c: ManifestCursor, prev: Option<Name>) returns (r: Result<DirEntry, CoreError>, unsorted: bool)
    requires c.Valid()
    modifies c
    ensures c.Valid() && old(c.pos) <= c.pos
    ensures unsorted ==> r.Err?
    ensures unsorted && ParseEntry(old(c.Rest())).Done? ==> !MayFollow(prev, ParseEntry(old(c.Rest())).value.name)
    ensures !unsorted ==> Follows(ParseEntry(old(c.Rest())), r, c.Rest())
    ensures r.Ok? ==> MayFollow(prev, r.value.name)
  {
    hide TakeBlob, TakeUint, IsUtf8, Less;
    unsorted := false;
    var name := c.ReadBlob(NO_CEILING);
    if name.Err? { return Err(name.error), false; }
    BlobCanonical(old(c.Rest()), NO_CEILING);
    if name.value == [] { return Err(Corrupt), false; }
    if SLASH in name.value { return Err(Corrupt), false; }
    if NUL in name.value { return Err(Corrupt), false; }
    if !IsUtf8(name.value) { return Err(Corrupt), false; }
    if prev.Some? && !Less(prev.value, name.value) { return Err(Corrupt), true; }
    var number := c.ReadUint(8);
    if number.Err? { return Err(number.error), false; }
    var kind := c.ReadUint(1);
    if kind.Err? { return Err(kind.error), false; }
    Widths();
    if !(1 <= kind.value <= 4) { return Err(Corrupt), false; }
    return Ok(DirEntry(name.value, number.value, kind.value)), false;
  }

  lemma AscendingSnoc(entries: seq<DirEntry>, e: DirEntry)
    requires Ascending(entries) && MayFollow(LastName(entries), e.name)
    ensures Ascending(entries + [e]) && LastName(entries + [e]) == Some(e.name)
  {
    hide Less;
    var all := entries + [e];
    forall i | 0 < i < |all| ensures InOrder(all, i) {
      if i < |entries| { assert InOrder(entries, i); }
    }
  }

  /** An entry out of order spoils the whole node. */
  lemma DisorderSpoils(all: Parse<seq<DirEntry>>, read: seq<DirEntry>, e: DirEntry, left: Parse<seq<DirEntry>>)
    requires !MayFollow(LastName(read), e.name) && Resumes(all, read + [e], left)
    ensures all.Fail? || !Ascending(all.value)
  {
    hide Less;
    if all.Done? {
      assert all.value[|read| - 1] == read[|read| - 1] && all.value[|read|] == e;
      assert !InOrder(all.value, |read|);
    }
  }

  method ReadEntries(c: ManifestCursor, count: nat) returns (r: Result<seq<DirEntry>, CoreError>)
    requires c.Valid()
    modifies c
    ensures c.Valid() && old(c.pos) <= c.pos
    ensures Follows(ParseAscending(count, old(c.Rest())), r, c.Rest())
  {
    assert Ascending([]) && LastName([]) == None;
    hide ParseEntry, Ascending, MayFollow, LastName, Resumes, ParseMany;
    hide Less, IsUtf8, ValidName, EncodeEntry, EncodeMany, TakeUint, TakeBlob, LE, FromLE, Pow256;
    ghost var all := ParseMany(ParseEntry, count, c.Rest());
    ResumeStart(all);
    var entries: seq<DirEntry> := [];
    var prevName: Option<Name> := None;
    var i := 0;
    while i < count
      invariant 0 <= i <= count && c.Valid() && old(c.pos) <= c.pos
      invariant Ascending(entries) && prevName == LastName(entries)
      invariant Resumes(all, entries, ParseMany(ParseEntry, count - i, c.Rest()))
    {
      ghost var s := c.Rest();
      ResumeStep(ParseEntry, all, entries, count - i, s);
      var entry, unsorted := ReadEntry(c, prevName);
      if unsorted {
        if ParseEntry(s).Done? {
          DisorderSpoils(all, entries, ParseEntry(s).value, ParseMany(ParseEntry, count - i - 1, ParseEntry(s).rest));
        }
        return Err(Corrupt);
      }
      if entry.Err? { return Err(entry.error); }
      AscendingSnoc(entries, entry.value);
      prevName := Some(entry.value.name);
      entries := entries + [entry.value];
      i := i + 1;
    }
    ResumeEnd(ParseEntry, all, entries, c.Rest());
    return Ok(entries);
  }

  /** `parse_directory_node`. */
  method Read(c: ManifestCursor) returns (r: Result<seq<DirEntry>, CoreError>)
    requires c.Valid()
    modifies c
    ensures c.Valid() && old(c.pos) <= c.pos
    ensures Follows(ParseNode(old(c.Rest())), r, c.Rest())
    ensures r.Ok? ==> UniqueNames(r.value)
  {
    hide TakeUint, ParseAscending;
    ghost var s := c.Rest();
    var version := c.ReadUint(1);
    if version.Err? { return Err(version.error); }
    if version.value != NODE_VERSION { return Err(UnsupportedFeature); }
    var count := c.ReadUint(4);
    if count.Err? { return Err(count.error); }
    r := ReadEntries(c, count.value);
    if r.Ok? { AcceptedHasUniqueNames(s); }
  }

  // ----- The bytes by position -----

  /** Version, count, then the entries. */
  lemma Layout(entries: seq<DirEntry>)
    requires |entries| < 0x1_0000_0000
    ensures var s := Encode(entries);
      |s| >= 5 && s[0] == 1 && U32(s, 1) == |entries| && s[5..] == EncodeMany(EncodeEntry, entries)
  {
    hide LE, EncodeMany;
    var s := Encode(entries);
    Widths();
    assert s[0..1] == LE(NODE_VERSION, 1) && s[1..5] == LE(|entries|, 4);
    LEAt(s, 0, NODE_VERSION, 1);
    LEAt(s, 1, |entries|, 4);
  }

  /** An entry: the name behind its length, the inode number and the type. */
  lemma EntryLayout(e: DirEntry)
    requires |e.name| < 0x1_0000_0000
    ensures var s, n := EncodeEntry(e), |e.name|;
      && |s| == 13 + n && U32(s, 0) == n && s[4..4 + n] == e.name
      && U64(s, 4 + n) == e.inodeNumber && s[12 + n] == e.entryType
  {
    hide LE;
    var s, n := EncodeEntry(e), |e.name|;
    Widths();
    assert s[0..4] == LE(n, 4) && s[4..4 + n] == e.name;
    assert s[4 + n..12 + n] == LE(e.inodeNumber, 8) && s[12 + n..13 + n] == LE(e.entryType, 1);
    LEAt(s, 0, n, 4);
    LEAt(s, 4 + n, e.inodeNumber, 8);
    LEAt(s, 12 + n, e.entryType, 1);
  }
}
