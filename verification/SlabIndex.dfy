/** The slab index section: encoder, parser, and that the two are inverse. */
module SlabIndex {
  import opened Bytes
  import opened Wire
  import opened SlabIds
  import opened Locators

  const SECTION_VERSION := 1

  datatype SlabEntry = SlabEntry(slabId: SlabId, locators: seq<seq<byte>>)

  function EntryKey(e: SlabEntry): SlabId { e.slabId }

  predicate ValidEntry(max: u32, e: SlabEntry) { e.locators != [] && ValidList(max, e.locators) }

  function EncodeEntry(e: SlabEntry): seq<byte> {
    SlabIds.Encode(e.slabId) + EncodeList(e.locators)
  }

  function ParseEntry(max: u32, s: seq<byte>): Parse<SlabEntry> {
    var (id, s1) :- ParseSlabId(s);
    var (uris, s2) :- ParseList(max, s1);
    if uris == [] then Fail else Done(SlabEntry(id, uris), s2)
  }

  function EntryParser(max: u32): Parser<SlabEntry> { s => ParseEntry(max, s) }

  function EntryTest(max: u32): SlabEntry -> bool { e => ValidEntry(max, e) }

  lemma EntryReads(max: u32)
    ensures Reads(EntryParser(max), EncodeEntry, EntryTest(max))
  {
    hide SlabIds.Encode, ParseSlabId, EncodeList, ParseList, ValidList;
    forall e: SlabEntry, rest | EntryTest(max)(e) ensures EntryParser(max)(EncodeEntry(e) + rest) == Done(e, rest) {
      Assoc(SlabIds.Encode(e.slabId), EncodeList(e.locators), rest);
      SlabIds.RoundTrip(e.slabId, EncodeList(e.locators) + rest);
      ListRoundTrip(max, e.locators, rest);
    }
  }

  lemma EntryAccepts(max: u32)
    ensures Accepts(EntryParser(max), EncodeEntry, EntryTest(max))
  {
    hide SlabIds.Encode, ParseSlabId, EncodeList, ParseList, ValidList;
    forall s | EntryParser(max)(s).Done?
      ensures EntryTest(max)(EntryParser(max)(s).value)
      ensures s == EncodeEntry(EntryParser(max)(s).value) + EntryParser(max)(s).rest
    {
      var r := ParseEntry(max, s);
      SlabIds.Canonical(s);
      ListCanonical(max, ParseSlabId(s).rest);
      Assoc(SlabIds.Encode(r.value.slabId), EncodeList(r.value.locators), r.rest);
    }
  }

  lemma EntryWidth(max: u32, s: seq<byte>)
    ensures ParseEntry(max, s).Done? ==> |ParseEntry(max, s).rest| + 44 <= |s|
  {
    hide ParseList, EncodeList;
    if ParseEntry(max, s).Done? { ListCanonical(max, ParseSlabId(s).rest); }
  }

  // ----- The section; an empty index is accepted, whatever the documentation says -----

  predicate ValidIndex(max: u32, entries: seq<SlabEntry>) {
    && |entries| < 0x1_0000_0000 && DistinctBy(EntryKey, entries)
    && forall i :: 0 <= i < |entries| ==> ValidEntry(max, entries[i])
  }

  function Encode(entries: seq<SlabEntry>): seq<byte> {
    LE(SECTION_VERSION, 1) + (LE(|entries|, 4) + EncodeMany(EncodeEntry, entries))
  }

  function ParseIndex(max: u32, s: seq<byte>): Parse<seq<SlabEntry>> {
    var (version, s1) :- TakeUint(s, 1);
    if version != SECTION_VERSION then Fail
    else
      var (count, s2) :- TakeUint(s1, 4);
      ParseDistinct(EntryParser(max), EntryKey, count, s2)
  }

  lemma RoundTrip(max: u32, entries: seq<SlabEntry>, rest: seq<byte>)
    requires ValidIndex(max, entries)
    ensures ParseIndex(max, Encode(entries) + rest) == Done(entries, rest)
  {
    hide LE, TakeUint, EncodeMany, EncodeEntry, ParseEntry, ValidEntry;
    var body := EncodeMany(EncodeEntry, entries);
    Widths();
    Assoc(LE(SECTION_VERSION, 1), LE(|entries|, 4) + body, rest);
    Assoc(LE(|entries|, 4), body, rest);
    TakeUintRoundTrip(SECTION_VERSION, 1, LE(|entries|, 4) + (body + rest));
    TakeUintRoundTrip(|entries|, 4, body + rest);
    EntryReads(max);
    assert AllValid(EntryTest(max), entries);
    ManyReads(EntryParser(max), EncodeEntry, EntryTest(max), entries, rest);
  }

  lemma Canonical(max: u32, s: seq<byte>)
    requires ParseIndex(max, s).Done?
    ensures var r := ParseIndex(max, s); ValidIndex(max, r.value) && s == Encode(r.value) + r.rest
  {
    hide LE, TakeUint, EncodeMany, EncodeEntry, ParseEntry, ValidEntry;
    var s1 := TakeUint(s, 1).rest;
    var count, s2 := TakeUint(s1, 4).value, TakeUint(s1, 4).rest;
    Widths();
    TakeUintCanonical(s, 1);
    TakeUintCanonical(s1, 4);
    EntryAccepts(max);
    ManyAccepts(EntryParser(max), EncodeEntry, EntryTest(max), count, s2);
    var r := ParseIndex(max, s);
    assert forall i :: 0 <= i < |r.value| ==> EntryTest(max)(r.value[i]);
    var body := EncodeMany(EncodeEntry, r.value);
    Assoc(LE(count, 4), body, r.rest);
    Assoc(LE(SECTION_VERSION, 1), LE(count, 4) + body, r.rest);
  }

  // ----- Over a cursor -----

  /** One entry of the loop; `known` are the entries already read, checked before the locators. */
  method ReadEntry(c: ManifestCursor, max: u32, known: seq<SlabEntry>)
    returns (r: Result<SlabEntry, CoreError>, duplicate: bool)
    requires c.Valid()
    modifies c
    ensures c.Valid() && old(c.pos) <= c.pos
    ensures duplicate ==> r.Err? && (ParseEntry(max, old(c.Rest())).Done? ==>
      exists k :: 0 <= k < |known| && EntryKey(known[k]) == EntryKey(ParseEntry(max, old(c.Rest())).value))
    ensures !duplicate ==> Follows(ParseEntry(max, old(c.Rest())), r, c.Rest())
    ensures !duplicate && r.Ok? ==> forall k :: 0 <= k < |known| ==> EntryKey(known[k]) != EntryKey(r.value)
  {
    hide ParseList, ParseSlabId;
    duplicate := false;
    var id := SlabIds.Read(c);
    if id.Err? { return Err(id.error), false; }
    if exists k :: 0 <= k < |known| && known[k].slabId == id.value {
      ghost var k :| 0 <= k < |known| && known[k].slabId == id.value;
      assert EntryKey(known[k]) == id.value;
      return Err(Corrupt), true;
    }
    ghost var mid := c.Rest();
    var count := c.ReadUint(4);
    ZeroCount(max, mid);
    if count.Err? { return Err(count.error), false; }
    if count.value == 0 { return Err(Corrupt), false; }
    var uris := ReadMany(c, max, count.value);
    if uris.Err? { return Err(uris.error), false; }
    return Ok(SlabEntry(id.value, uris.value)), false;
  }

  /** Reading a list is reading its count and then that many locators; it is empty iff the count is zero. */
  lemma ZeroCount(max: u32, s: seq<byte>)
    ensures TakeUint(s, 4).Fail? ==> ParseList(max, s).Fail?
    ensures TakeUint(s, 4).Done? ==>
      ParseList(max, s) == ParseMany(LocatorParser(max), TakeUint(s, 4).value, TakeUint(s, 4).rest)
    ensures ParseList(max, s).Done? ==> (ParseList(max, s).value == [] <==> TakeUint(s, 4).value == 0)
  {
    hide ParseLocator;
  }

  method ReadEntries(c: ManifestCursor, max: u32, count: nat) returns (r: Result<seq<SlabEntry>, CoreError>)
    requires c.Valid()
    modifies c
    ensures c.Valid() && old(c.pos) <= c.pos
    ensures Follows(ParseDistinct(EntryParser(max), EntryKey, count, old(c.Rest())), r, c.Rest())
  {
    hide ParseEntry;
    ghost var p := EntryParser(max);
    ghost var all := ParseMany(p, count, c.Rest());
    ResumeStart(all);
    var entries: seq<SlabEntry> := [];
    var i := 0;
    while i < count
      invariant 0 <= i <= count && c.Valid() && old(c.pos) <= c.pos
      invariant DistinctBy(EntryKey, entries)
      invariant Resumes(all, entries, ParseMany(p, count - i, c.Rest()))
    {
      ghost var s := c.Rest();
      ResumeStep(p, all, entries, count - i, s);
      var entry, duplicate := ReadEntry(c, max, entries);
      if duplicate {
        if p(s).Done? {
          DuplicateSpoils(EntryKey, all, entries, p(s).value, ParseMany(p, count - i - 1, p(s).rest));
        }
        return Err(Corrupt);
      }
      if entry.Err? { return Err(entry.error); }
      DistinctSnoc(EntryKey, entries, entry.value);
      entries := entries + [entry.value];
      i := i + 1;
    }
    ResumeEnd(p, all, entries, c.Rest());
    return Ok(entries);
  }

  lemma TooFewBytes(max: u32, count: nat, s: seq<byte>)
    requires |s| < count * 44
    ensures ParseMany(EntryParser(max), count, s).Fail?
  {
    hide ParseEntry;
    if ParseMany(EntryParser(max), count, s).Done? {
      forall t ensures EntryParser(max)(t).Done? ==> |EntryParser(max)(t).rest| + 44 <= |t| { EntryWidth(max, t); }
      ManyNeeds(EntryParser(max), 44, count, s);
    }
  }

  /** `parse_slab_index_with_ceiling`. */
  method Read(c: ManifestCursor, max: u32) returns (r: Result<seq<SlabEntry>, CoreError>)
    requires c.Valid()
    modifies c
    ensures c.Valid() && old(c.pos) <= c.pos
    ensures Follows(ParseIndex(max, old(c.Rest())), r, c.Rest())
  {
    hide TakeUint;
    var version := c.ReadUint(1);
    if version.Err? { return Err(version.error); }
    if version.value != SECTION_VERSION { return Err(UnsupportedFeature); }
    var count := c.ReadUint(4);
    if count.Err? { return Err(count.error); }
    if c.RemainingLen() < count.value * 44 {
      TooFewBytes(max, count.value, c.Rest());
      return Err(TooShort(c.RemainingLen(), count.value * 44));
    }
    r := ReadEntries(c, max, count.value);
  }

  // ----- The bytes by position -----

  /** Version, count, then the entries. */
  lemma Layout(entries: seq<SlabEntry>)
    requires |entries| < 0x1_0000_0000
    ensures var s := Encode(entries);
      |s| >= 5 && s[0] == 1 && U32(s, 1) == |entries| && s[5..] == EncodeMany(EncodeEntry, entries)
  {
    hide LE, EncodeMany;
    var s := Encode(entries);
    Widths();
    assert s[0..1] == LE(SECTION_VERSION, 1) && s[1..5] == LE(|entries|, 4);
    LEAt(s, 0, SECTION_VERSION, 1);
    LEAt(s, 1, |entries|, 4);
  }

  /** An entry: the slab's ordinal and hash, then its locators. */
  lemma EntryLayout(e: SlabEntry)
    ensures var s := EncodeEntry(e);
      |s| >= 40 && U64(s, 0) == e.slabId.ordinal && s[8..40] == e.slabId.hash && s[40..] == EncodeList(e.locators)
  {
    hide EncodeList, SlabIds.Encode;
    SlabIds.Layout(e.slabId);
    var s, id := EncodeEntry(e), SlabIds.Encode(e.slabId);
    assert s[..40] == id && s[8..40] == id[8..40];
    forall i | 0 <= i < 8 ensures s[i] == id[i] { }
  }
}
