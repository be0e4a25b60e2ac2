/** The EC params section: encoder, parser, and that the two are inverse. */
module EcParams {
  import opened Bytes
  import opened Wire
  import opened SlabIds

  const SECTION_VERSION := 1
  const DEFAULT_POLYNOMIAL := 0x011D

  datatype EcOverride = EcOverride(slabId: SlabId, k: byte, m: byte)

  datatype EcParams = EcParams(k: byte, m: byte, polynomial: u16, overrides: seq<EcOverride>)

  /** `validate_shard_counts`. */
  predicate ValidShardCounts(k: int, m: int) { k >= 1 && m >= 1 && k + m <= 255 }

  predicate ValidOverride(o: EcOverride) { ValidShardCounts(o.k, o.m) }

  function OverrideKey(o: EcOverride): SlabId { o.slabId }

  predicate ValidParams(p: EcParams) {
    && ValidShardCounts(p.k, p.m) && p.polynomial == DEFAULT_POLYNOMIAL
    && |p.overrides| < 0x1_0000_0000 && DistinctBy(OverrideKey, p.overrides)
    && forall i :: 0 <= i < |p.overrides| ==> ValidOverride(p.overrides[i])
  }

  function EncodeOverride(o: EcOverride): seq<byte> {
    SlabIds.Encode(o.slabId) + (LE(o.k, 1) + LE(o.m, 1))
  }

  function Encode(p: EcParams): seq<byte> {
    LE(SECTION_VERSION, 1) + (LE(p.k, 1) + (LE(p.m, 1) + (LE(p.polynomial, 2) + (LE(|p.overrides|, 4)
    + EncodeMany(EncodeOverride, p.overrides)))))
  }

  function ParseOverride(s: seq<byte>): (r: Parse<EcOverride>)
    ensures r.Done? ==> |r.rest| + 42 <= |s|
  {
    var (id, s1) :- ParseSlabId(s);
    var (k, s2) :- TakeUint(s1, 1);
    var (m, s3) :- TakeUint(s2, 1);
    Widths();
    if ValidShardCounts(k, m) then Done(EcOverride(id, k, m), s3) else Fail
  }

  function ParseParams(s: seq<byte>): Parse<EcParams> {
    var (version, s1) :- TakeUint(s, 1);
    if version != SECTION_VERSION then Fail
    else
      var (k, s2) :- TakeUint(s1, 1);
      var (m, s3) :- TakeUint(s2, 1);
      if !ValidShardCounts(k, m) then Fail
      else
        var (polynomial, s4) :- TakeUint(s3, 2);
        if polynomial != DEFAULT_POLYNOMIAL then Fail
        else
          var (count, s5) :- TakeUint(s4, 4);
          var (overrides, s6) :- ParseDistinct(ParseOverride, OverrideKey, count, s5);
          Done(EcParams(k, m, polynomial, overrides), s6)
  }

  lemma OverrideReads()
    ensures Reads(ParseOverride, EncodeOverride, ValidOverride)
  {
    forall o: EcOverride, rest | ValidOverride(o) ensures ParseOverride(EncodeOverride(o) + rest) == Done(o, rest) {
      Widths();
      Assoc(SlabIds.Encode(o.slabId), LE(o.k, 1) + LE(o.m, 1), rest);
      Assoc(LE(o.k, 1), LE(o.m, 1), rest);
      SlabIds.RoundTrip(o.slabId, LE(o.k, 1) + (LE(o.m, 1) + rest));
      TakeUintRoundTrip(o.k, 1, LE(o.m, 1) + rest);
      TakeUintRoundTrip(o.m, 1, rest);
    }
  }

  lemma OverrideAccepts()
    ensures Accepts(ParseOverride, EncodeOverride, ValidOverride)
  {
    forall s | ParseOverride(s).Done?
      ensures ValidOverride(ParseOverride(s).value)
      ensures s == EncodeOverride(ParseOverride(s).value) + ParseOverride(s).rest
    {
      var o, end := ParseOverride(s).value, ParseOverride(s).rest;
      var s1 := ParseSlabId(s).rest;
      var s2 := TakeUint(s1, 1).rest;
      SlabIds.Canonical(s);
      TakeUintCanonical(s1, 1);
      TakeUintCanonical(s2, 1);
      Assoc(SlabIds.Encode(o.slabId), LE(o.k, 1) + LE(o.m, 1), end);
      Assoc(LE(o.k, 1), LE(o.m, 1), end);
    }
  }

  /** The encoding followed by `rest`, field by field. */
  lemma EncodeOnto(p: EcParams, rest: seq<byte>)
    ensures Encode(p) + rest == LE(SECTION_VERSION, 1) + (LE(p.k, 1) + (LE(p.m, 1) + (LE(p.polynomial, 2)
      + (LE(|p.overrides|, 4) + (EncodeMany(EncodeOverride, p.overrides) + rest)))))
  {
    hide LE, EncodeMany;
    var e5 := EncodeMany(EncodeOverride, p.overrides);
    var e4 := LE(|p.overrides|, 4) + e5;
    var e3 := LE(p.polynomial, 2) + e4;
    var e2 := LE(p.m, 1) + e3;
    var e1 := LE(p.k, 1) + e2;
    Assoc(LE(SECTION_VERSION, 1), e1, rest);
    Assoc(LE(p.k, 1), e2, rest);
    Assoc(LE(p.m, 1), e3, rest);
    Assoc(LE(p.polynomial, 2), e4, rest);
    Assoc(LE(|p.overrides|, 4), e5, rest);
  }

  lemma RoundTrip(p: EcParams, rest: seq<byte>)
    requires ValidParams(p)
    ensures ParseParams(Encode(p) + rest) == Done(p, rest)
  {
    hide TakeUint, LE, EncodeMany, ParseOverride;
    var t5 := EncodeMany(EncodeOverride, p.overrides) + rest;
    var t4 := LE(|p.overrides|, 4) + t5;
    var t3 := LE(p.polynomial, 2) + t4;
    var t2 := LE(p.m, 1) + t3;
    var t1 := LE(p.k, 1) + t2;
    Widths();
    EncodeOnto(p, rest);
    TakeUintRoundTrip(SECTION_VERSION, 1, t1);
    TakeUintRoundTrip(p.k, 1, t2);
    TakeUintRoundTrip(p.m, 1, t3);
    TakeUintRoundTrip(p.polynomial, 2, t4);
    TakeUintRoundTrip(|p.overrides|, 4, t5);
    OverrideReads();
    ManyReads(ParseOverride, EncodeOverride, ValidOverride, p.overrides, rest);
  }

  lemma Canonical(s: seq<byte>)
    requires ParseParams(s).Done?
    ensures ValidParams(ParseParams(s).value) && s == Encode(ParseParams(s).value) + ParseParams(s).rest
  {
    hide TakeUint, LE, EncodeMany, ParseOverride;
    var p, end := ParseParams(s).value, ParseParams(s).rest;
    var s1 := TakeUint(s, 1).rest;
    var s2 := TakeUint(s1, 1).rest;
    var s3 := TakeUint(s2, 1).rest;
    var s4 := TakeUint(s3, 2).rest;
    var s5 := TakeUint(s4, 4).rest;
    Widths();
    TakeUintCanonical(s, 1);
    TakeUintCanonical(s1, 1);
    TakeUintCanonical(s2, 1);
    TakeUintCanonical(s3, 2);
    TakeUintCanonical(s4, 4);
    OverrideAccepts();
    ManyAccepts(ParseOverride, EncodeOverride, ValidOverride, TakeUint(s4, 4).value, s5);
    EncodeOnto(p, end);
  }

  method ReadOverride(c: ManifestCursor) returns (r: Result<EcOverride, CoreError>)
    requires c.Valid()
    modifies c
    ensures c.Valid() && old(c.pos) <= c.pos
    ensures Follows(ParseOverride(old(c.Rest())), r, c.Rest())
  {
    var id := SlabIds.Read(c);
    if id.Err? { return Err(id.error); }
    var k := c.ReadUint(1);
    if k.Err? { return Err(k.error); }
    var m := c.ReadUint(1);
    if m.Err? { return Err(m.error); }
    Widths();
    if !ValidShardCounts(k.value, m.value) { return Err(Corrupt); }
    return Ok(EcOverride(id.value, k.value, m.value));
  }

  lemma TooFewBytes(count: nat, s: seq<byte>)
    requires |s| < count * 42
    ensures ParseMany(ParseOverride, count, s).Fail?
  {
    if ParseMany(ParseOverride, count, s).Done? { ManyNeeds(ParseOverride, 42, count, s); }
  }

  /** The override loop with its duplicate scan. */
  method ReadOverrides(c: ManifestCursor, count: nat) returns (r: Result<seq<EcOverride>, CoreError>)
    requires c.Valid()
    modifies c
    ensures c.Valid() && old(c.pos) <= c.pos
    ensures Follows(ParseDistinct(ParseOverride, OverrideKey, count, old(c.Rest())), r, c.Rest())
  {
    hide ParseOverride;
    ghost var all := ParseMany(ParseOverride, count, c.Rest());
    ResumeStart(all);
    var overrides: seq<EcOverride> := [];
    var i := 0;
    while i < count
      invariant 0 <= i <= count && c.Valid() && old(c.pos) <= c.pos
      invariant DistinctBy(OverrideKey, overrides)
      invariant Resumes(all, overrides, ParseMany(ParseOverride, count - i, c.Rest()))
    {
      ResumeStep(ParseOverride, all, overrides, count - i, c.Rest());
      var o := ReadOverride(c);
      if o.Err? { return Err(o.error); }
      if exists k :: 0 <= k < |overrides| && overrides[k].slabId == o.value.slabId {
        DuplicateSpoils(OverrideKey, all, overrides, o.value, ParseMany(ParseOverride, count - i - 1, c.Rest()));
        return Err(Corrupt);
      }
      DistinctSnoc(OverrideKey, overrides, o.value);
      overrides := overrides + [o.value];
      i := i + 1;
    }
    ResumeEnd(ParseOverride, all, overrides, c.Rest());
    return Ok(overrides);
  }

  /** `parse_ec_params`. */
  method Read(c: ManifestCursor) returns (r: Result<EcParams, CoreError>)
    requires c.Valid()
    modifies c
    ensures c.Valid() && old(c.pos) <= c.pos
    ensures Follows(ParseParams(old(c.Rest())), r, c.Rest())
  {
    var version := c.ReadUint(1);
    if version.Err? { return Err(version.error); }
    if version.value != SECTION_VERSION { return Err(UnsupportedFeature); }
    var k := c.ReadUint(1);
    if k.Err? { return Err(k.error); }
    var m := c.ReadUint(1);
    if m.Err? { return Err(m.error); }
    if !ValidShardCounts(k.value, m.value) { return Err(Corrupt); }
    var polynomial := c.ReadUint(2);
    if polynomial.Err? { return Err(polynomial.error); }
    if polynomial.value != DEFAULT_POLYNOMIAL { return Err(UnsupportedFeature); }
    var count := c.ReadUint(4);
    if count.Err? { return Err(count.error); }
    if c.RemainingLen() < count.value * 42 {
      TooFewBytes(count.value, c.Rest());
      return Err(TooShort(c.RemainingLen(), count.value * 42));
    }
    var overrides := ReadOverrides(c, count.value);
    if overrides.Err? { return Err(overrides.error); }
    Widths();
    return Ok(EcParams(k.value, m.value, polynomial.value, overrides.value));
  }

  /** Version, shard counts, polynomial, count, then 42 bytes per override in order. */
  lemma Layout(p: EcParams)
    requires |p.overrides| < 0x1_0000_0000
    ensures var s := Encode(p);
      && |s| == 9 + 42 * |p.overrides|
      && s[0] == 1 && s[1] == p.k && s[2] == p.m && U16(s, 3) == p.polynomial && U32(s, 5) == |p.overrides|
      && At(s, 9, EncodeMany(EncodeOverride, p.overrides))
  {
    hide LE, EncodeMany;
    var s, body := Encode(p), EncodeMany(EncodeOverride, p.overrides);
    Widths();
    ManyWidth(EncodeOverride, p.overrides, 42);
    assert s[0..1] == LE(SECTION_VERSION, 1) && s[1..2] == LE(p.k, 1) && s[2..3] == LE(p.m, 1);
    assert s[3..5] == LE(p.polynomial, 2) && s[5..9] == LE(|p.overrides|, 4) && s[9..9 + |body|] == body;
    LEAt(s, 0, SECTION_VERSION, 1);
    LEAt(s, 1, p.k, 1);
    LEAt(s, 2, p.m, 1);
    LEAt(s, 3, p.polynomial, 2);
    LEAt(s, 5, |p.overrides|, 4);
  }

  lemma OverrideLayout(p: EcParams, i: nat)
    requires i < |p.overrides| < 0x1_0000_0000
    ensures var s, at, o := Encode(p), 9 + 42 * i, p.overrides[i];
      && at + 42 <= |s| && At(s, at, SlabIds.Encode(o.slabId)) && s[at + 40] == o.k && s[at + 41] == o.m
  {
    Layout(p);
    ManyAtWidth(EncodeOverride, p.overrides, 42, i);
    var s, at, o := Encode(p), 9 + 42 * i, p.overrides[i];
    hide LE, EncodeMany, Encode, SlabIds.Encode;
    AtWithin(s, 9, EncodeMany(EncodeOverride, p.overrides), 42 * i, EncodeOverride(o));
    OverrideAt(s, at, o);
  }

  lemma OverrideAt(s: seq<byte>, at: nat, o: EcOverride)
    requires At(s, at, EncodeOverride(o))
    ensures at + 42 <= |s| && At(s, at, SlabIds.Encode(o.slabId)) && s[at + 40] == o.k && s[at + 41] == o.m
  {
    hide LE, SlabIds.Encode;
    var item := EncodeOverride(o);
    assert item[0..40] == SlabIds.Encode(o.slabId) && item[40..41] == LE(o.k, 1) && item[41..42] == LE(o.m, 1);
    AtWithin(s, at, item, 0, item[0..40]);
    AtWithin(s, at, item, 40, item[40..41]);
    AtWithin(s, at, item, 41, item[41..42]);
    Widths();
    hide EncodeOverride;
    LEAt(s, at + 40, o.k, 1);
    LEAt(s, at + 41, o.m, 1);
  }
}
