/** The feature flags section: encoder, parser, and that the two are inverse. */
module FeatureFlags {
  import opened Bytes
  import opened Wire

  const SECTION_VERSION := 1

  datatype FeatureFlag = FeatureFlag(flagId: u16, required: bool)

  function EncodeFlag(f: FeatureFlag): seq<byte> {
    LE(f.flagId, 2) + LE(if f.required then 1 else 0, 1)
  }

  predicate ValidFlag(f: FeatureFlag) { f.flagId != 0 }

  function ParseFlag(s: seq<byte>): Parse<FeatureFlag> {
    var (id, s1) :- TakeUint(s, 2);
    var (required, s2) :- TakeUint(s1, 1);
    Widths();
    if id == 0 || required > 1 then Fail else Done(FeatureFlag(id, required == 1), s2)
  }

  lemma FlagReads()
    ensures Reads(ParseFlag, EncodeFlag, ValidFlag)
  {
    forall f: FeatureFlag, rest | ValidFlag(f) ensures ParseFlag(EncodeFlag(f) + rest) == Done(f, rest) {
      var b := if f.required then 1 else 0;
      Widths();
      assert EncodeFlag(f) + rest == LE(f.flagId, 2) + (LE(b, 1) + rest);
      TakeUintRoundTrip(f.flagId, 2, LE(b, 1) + rest);
      TakeUintRoundTrip(b, 1, rest);
    }
  }

  lemma FlagAccepts()
    ensures Accepts(ParseFlag, EncodeFlag, ValidFlag)
  {
    forall s | ParseFlag(s).Done?
      ensures ValidFlag(ParseFlag(s).value) && s == EncodeFlag(ParseFlag(s).value) + ParseFlag(s).rest
    {
      var s1 := TakeUint(s, 2).rest;
      TakeUintCanonical(s, 2);
      TakeUintCanonical(s1, 1);
      var f := ParseFlag(s).value;
      assert LE(f.flagId, 2) + (LE(if f.required then 1 else 0, 1) + ParseFlag(s).rest) == s;
    }
  }

  function FlagKey(f: FeatureFlag): u16 { f.flagId }

  /** What a flags section may hold: a count that fits, no reserved id, no id twice. */
  predicate ValidFlags(flags: seq<FeatureFlag>) {
    |flags| < 0x1_0000_0000 && DistinctBy(FlagKey, flags) && forall i :: 0 <= i < |flags| ==> ValidFlag(flags[i])
  }

  function Encode(flags: seq<FeatureFlag>): seq<byte> {
    LE(SECTION_VERSION, 1) + (LE(|flags|, 4) + EncodeMany(EncodeFlag, flags))
  }

  function ParseFlags(s: seq<byte>): Parse<seq<FeatureFlag>> {
    var (version, s1) :- TakeUint(s, 1);
    if version != SECTION_VERSION then Fail
    else
      var (count, s2) :- TakeUint(s1, 4);
      ParseDistinct(ParseFlag, FlagKey, count, s2)
  }

  lemma RoundTrip(flags: seq<FeatureFlag>, rest: seq<byte>)
    requires ValidFlags(flags)
    ensures ParseFlags(Encode(flags) + rest) == Done(flags, rest)
  {
    var body := EncodeMany(EncodeFlag, flags);
    Widths();
    Assoc(LE(SECTION_VERSION, 1), LE(|flags|, 4) + body, rest);
    Assoc(LE(|flags|, 4), body, rest);
    TakeUintRoundTrip(SECTION_VERSION, 1, LE(|flags|, 4) + (body + rest));
    TakeUintRoundTrip(|flags|, 4, body + rest);
    FlagReads();
    ManyReads(ParseFlag, EncodeFlag, ValidFlag, flags, rest);
  }

  lemma Canonical(s: seq<byte>)
    requires ParseFlags(s).Done?
    ensures ValidFlags(ParseFlags(s).value) && s == Encode(ParseFlags(s).value) + ParseFlags(s).rest
  {
    hide TakeUint, LE, EncodeMany, ParseFlag;
    var s1 := TakeUint(s, 1).rest;
    var count, s2 := TakeUint(s1, 4).value, TakeUint(s1, 4).rest;
    Widths();
    TakeUintCanonical(s, 1);
    TakeUintCanonical(s1, 4);
    FlagAccepts();
    ManyAccepts(ParseFlag, EncodeFlag, ValidFlag, count, s2);
    var r := ParseFlags(s);
    var body := EncodeMany(EncodeFlag, r.value);
    Assoc(LE(count, 4), body, r.rest);
    Assoc(LE(SECTION_VERSION, 1), LE(count, 4) + body, r.rest);
  }

  /** `FeatureFlags::get`: the first entry with the id. */
  function Get(flags: seq<FeatureFlag>, id: u16): (r: Option<FeatureFlag>)
    ensures r.Some? ==> r.value in flags && r.value.flagId == id
    ensures r.None? ==> forall f :: f in flags ==> f.flagId != id
  {
    if flags == [] then None else if flags[0].flagId == id then Some(flags[0]) else Get(flags[1..], id)
  }

  /** `FeatureFlags::is_required`. */
  predicate IsRequired(flags: seq<FeatureFlag>, id: u16) {
    Get(flags, id).Some? && Get(flags, id).value.required
  }

  /** The reader's gate for an optional section; the first disjunct never matters. */
  predicate Declared(flags: seq<FeatureFlag>, id: u16) {
    IsRequired(flags, id) || Get(flags, id).Some?
  }

  /** A flag is declared iff the list has it, required or not. */
  lemma DeclaredIff(flags: seq<FeatureFlag>, id: u16)
    ensures Declared(flags, id) <==> exists f :: f in flags && f.flagId == id
  {
    hide Get;
    if Declared(flags, id) { assert Get(flags, id).value in flags; }
  }

  /** One entry of the loop. */
  method ReadFlag(c: ManifestCursor) returns (r: Result<FeatureFlag, CoreError>)
    requires c.Valid()
    modifies c
    ensures c.Valid() && old(c.pos) <= c.pos
    ensures Follows(ParseFlag(old(c.Rest())), r, c.Rest())
  {
    var id := c.ReadUint(2);
    if id.Err? { return Err(id.error); }
    if id.value == 0 { return Err(Corrupt); }
    var required := c.ReadUint(1);
    if required.Err? { return Err(required.error); }
    Widths();
    if required.value > 1 { return Err(Corrupt); }
    return Ok(FeatureFlag(id.value, required.value == 1));
  }

  lemma FlagWidth(s: seq<byte>)
    ensures ParseFlag(s).Done? ==> |ParseFlag(s).rest| + 3 <= |s|
  {
  }

  /** `parse_feature_flags_section`. */
  method Read(c: ManifestCursor) returns (r: Result<seq<FeatureFlag>, CoreError>)
    requires c.Valid()
    modifies c
    ensures c.Valid() && old(c.pos) <= c.pos
    ensures Follows(ParseFlags(old(c.Rest())), r, c.Rest())
  {
    var version := c.ReadUint(1);
    if version.Err? { return Err(version.error); }
    if version.value != SECTION_VERSION { return Err(UnsupportedFeature); }
    var count := c.ReadUint(4);
    if count.Err? { return Err(count.error); }
    if c.RemainingLen() < count.value * 3 {
      TooFewBytes(count.value, c.Rest());
      return Err(TooShort(c.RemainingLen(), count.value * 3));
    }
    r := ReadEntries(c, count.value);
  }

  /** The allocation guard refuses nothing the entries themselves would not. */
  lemma TooFewBytes(count: nat, s: seq<byte>)
    requires |s| < count * 3
    ensures ParseMany(ParseFlag, count, s).Fail?
  {
    forall t ensures ParseFlag(t).Done? ==> |ParseFlag(t).rest| + 3 <= |t| { FlagWidth(t); }
    if ParseMany(ParseFlag, count, s).Done? { ManyNeeds(ParseFlag, 3, count, s); }
  }

  /** The entry loop with its duplicate scan. */
  method ReadEntries(c: ManifestCursor, count: nat) returns (r: Result<seq<FeatureFlag>, CoreError>)
    requires c.Valid()
    modifies c
    ensures c.Valid() && old(c.pos) <= c.pos
    ensures Follows(ParseDistinct(ParseFlag, FlagKey, count, old(c.Rest())), r, c.Rest())
  {
    hide ParseFlag;
    ghost var all := ParseMany(ParseFlag, count, c.Rest());
    ResumeStart(all);
    var flags: seq<FeatureFlag> := [];
    var i := 0;
    while i < count
      invariant 0 <= i <= count && c.Valid() && old(c.pos) <= c.pos
      invariant DistinctBy(FlagKey, flags)
      invariant Resumes(all, flags, ParseMany(ParseFlag, count - i, c.Rest()))
    {
      ResumeStep(ParseFlag, all, flags, count - i, c.Rest());
      var flag := ReadFlag(c);
      if flag.Err? { return Err(flag.error); }
      if exists k :: 0 <= k < |flags| && flags[k].flagId == flag.value.flagId {
        DuplicateSpoils(FlagKey, all, flags, flag.value, ParseMany(ParseFlag, count - i - 1, c.Rest()));
        return Err(Corrupt);
      }
      DistinctSnoc(FlagKey, flags, flag.value);
      flags := flags + [flag.value];
      i := i + 1;
    }
    ResumeEnd(ParseFlag, all, flags, c.Rest());
    return Ok(flags);
  }

  /** Version, count, then three bytes per flag in order: its id and whether it is required. */
  lemma Layout(flags: seq<FeatureFlag>, i: nat)
    requires i < |flags| < 0x1_0000_0000
    ensures var s := Encode(flags);
      && |s| == 5 + 3 * |flags| && s[0] == 1 && U32(s, 1) == |flags|
      && U16(s, 5 + 3 * i) == flags[i].flagId && s[5 + 3 * i + 2] == if flags[i].required then 1 else 0
  {
    hide LE, EncodeMany;
    var s, body := Encode(flags), EncodeMany(EncodeFlag, flags);
    Widths();
    assert s[0..1] == LE(SECTION_VERSION, 1) && s[1..5] == LE(|flags|, 4) && s[5..] == body;
    LEAt(s, 0, SECTION_VERSION, 1);
    LEAt(s, 1, |flags|, 4);
    ManyWidth(EncodeFlag, flags, 3);
    ManyAtWidth(EncodeFlag, flags, 3, i);
    var item, p := EncodeFlag(flags[i]), 5 + 3 * i;
    AtWithin(s, 5, body, 3 * i, item);
    assert item[0..2] == LE(flags[i].flagId, 2) && item[2..3] == LE(if flags[i].required then 1 else 0, 1);
    AtWithin(s, p, item, 0, item[0..2]);
    AtWithin(s, p, item, 2, item[2..3]);
    LEAt(s, p, flags[i].flagId, 2);
    LEAt(s, p + 2, if flags[i].required then 1 else 0, 1);
  }
}
