/** The metadata reference section, both wire versions: encoder, parser, and that the two are inverse. */
module MetadataReference {
  import opened Bytes
  import opened Wire
  import opened Locators

  const VERSION_1 := 1
  const VERSION_2 := 2
  const CODEC_STORE: byte := 0
  const DEFAULT_INLINE_MAX: u32 := 0x10_0000

  datatype Ceilings = Ceilings(uri: u32, inline: u32)

  const DEFAULT_CEILINGS := Ceilings(DEFAULT_MAX_URI_BYTES, DEFAULT_INLINE_MAX)

  /** The codec registry: codec id, stored bytes and the declared length to the plain bytes, or a failure. */
  type Decompressor = (byte, seq<byte>, u32) -> Option<seq<byte>>

  datatype MetadataReference = MetadataReference(
    metadataHash: Digest, locators: seq<seq<byte>>, inlineMetadata: Option<seq<byte>>,
    codec: byte, uncompressedLen: u32)

  /** Where the metadata is to be found: locators and the stored inline bytes (none when empty). */
  datatype Sources = Sources(locators: seq<seq<byte>>, stored: seq<byte>)

  /** The section as it stands on the wire. */
  datatype Section =
    | V1(metadataHash: Digest, sources: Sources)
    | V2(metadataHash: Digest, uncompressedLen: u32, codec: byte, sources: Sources)

  // ----- The sources -----

  predicate ValidSources(max: Ceilings, x: Sources) {
    ValidList(max.uri, x.locators) && |x.stored| <= max.inline && (x.locators != [] || x.stored != [])
  }

  function EncodeSources(x: Sources): seq<byte> {
    EncodeList(x.locators) + EncodeBlob(x.stored)
  }

  function ParseSources(max: Ceilings, s: seq<byte>): Parse<Sources> {
    var (locators, s1) :- ParseList(max.uri, s);
    var (stored, s2) :- TakeBlob(s1, max.inline);
    if locators == [] && stored == [] then Fail else Done(Sources(locators, stored), s2)
  }

  lemma SourcesRoundTrip(max: Ceilings, x: Sources, rest: seq<byte>)
    requires ValidSources(max, x)
    ensures ParseSources(max, EncodeSources(x) + rest) == Done(x, rest)
  {
    hide EncodeList, EncodeBlob, ParseList, TakeBlob, ValidList;
    Assoc(EncodeList(x.locators), EncodeBlob(x.stored), rest);
    ListRoundTrip(max.uri, x.locators, EncodeBlob(x.stored) + rest);
    BlobRoundTrip(x.stored, max.inline, rest);
  }

  lemma SourcesCanonical(max: Ceilings, s: seq<byte>)
    requires ParseSources(max, s).Done?
    ensures var r := ParseSources(max, s); ValidSources(max, r.value) && s == EncodeSources(r.value) + r.rest
  {
    hide EncodeList, EncodeBlob, ParseList, TakeBlob, ValidList;
    var s1 := ParseList(max.uri, s).rest;
    ListCanonical(max.uri, s);
    BlobCanonical(s1, max.inline);
    var r := ParseSources(max, s);
    Assoc(EncodeList(r.value.locators), EncodeBlob(r.value.stored), r.rest);
  }

  // ----- The section -----

  function Encode(x: Section): seq<byte> {
    match x
    case V1(hash, sources) => LE(VERSION_1, 1) + (hash + EncodeSources(sources))
    case V2(hash, len, codec, sources) =>
      LE(VERSION_2, 1) + (hash + (LE(len, 4) + (LE(codec, 1) + EncodeSources(sources))))
  }

  function ParseV1(max: Ceilings, s: seq<byte>): Parse<Section> {
    var (hash, s1) :- Take(s, 32);
    var (sources, s2) :- ParseSources(max, s1);
    Done(V1(hash, sources), s2)
  }

  function ParseV2(max: Ceilings, s: seq<byte>): Parse<Section> {
    var (hash, s1) :- Take(s, 32);
    var (len, s2) :- TakeUint(s1, 4);
    var (codec, s3) :- TakeUint(s2, 1);
    var (sources, s4) :- ParseSources(max, s3);
    Widths();
    Done(V2(hash, len, codec, sources), s4)
  }

  function ParseSection(max: Ceilings, s: seq<byte>): Parse<Section> {
    var (version, s1) :- TakeUint(s, 1);
    if version == VERSION_1 then ParseV1(max, s1)
    else if version == VERSION_2 then ParseV2(max, s1)
    else Fail
  }

  /** `read_inline_blob` after the bytes are read, and the record the parser returns. */
  function Interpret(decompress: Decompressor, x: Section): Option<MetadataReference> {
    var stored := x.sources.stored;
    match x
    case V1(hash, sources) =>
      var data := if stored == [] then None else Some(stored);
      Some(MetadataReference(hash, sources.locators, data, CODEC_STORE, |stored| % 0x1_0000_0000))
    case V2(hash, len, codec, sources) =>
      if stored == [] then Some(MetadataReference(hash, sources.locators, None, codec, len))
      else if codec == CODEC_STORE then Some(MetadataReference(hash, sources.locators, Some(stored), codec, len))
      else
        match decompress(codec, stored, len)
        case None => None
        case Some(plain) =>
          if Clamp32(|plain|) == len then Some(MetadataReference(hash, sources.locators, Some(plain), codec, len))
          else None
  }

  /** `u32::try_from(n).unwrap_or(u32::MAX)`. */
  function Clamp32(n: nat): u32 { if n < 0x1_0000_0000 then n else 0xFFFF_FFFF }

  predicate ValidSection(max: Ceilings, decompress: Decompressor, x: Section) {
    ValidSources(max, x.sources) && Interpret(decompress, x).Some?
  }

  function ParseReference(max: Ceilings, decompress: Decompressor, s: seq<byte>): Parse<MetadataReference> {
    var (x, rest) :- ParseSection(max, s);
    match Interpret(decompress, x)
    case None => Fail
    case Some(reference) => Done(reference, rest)
  }

  lemma SectionRoundTrip(max: Ceilings, x: Section, rest: seq<byte>)
    requires ValidSources(max, x.sources)
    ensures ParseSection(max, Encode(x) + rest) == Done(x, rest)
  {
    hide LE, TakeUint, EncodeSources, ParseSources;
    var tail := EncodeSources(x.sources);
    Widths();
    SourcesRoundTrip(max, x.sources, rest);
    if x.V1? {
      Assoc(LE(VERSION_1, 1), x.metadataHash + tail, rest);
      Assoc(x.metadataHash, tail, rest);
      TakeUintRoundTrip(VERSION_1, 1, x.metadataHash + (tail + rest));
      TakeRoundTrip(x.metadataHash, tail + rest);
    } else {
      var t3 := LE(x.codec, 1) + tail;
      var t2 := LE(x.uncompressedLen, 4) + t3;
      Assoc(LE(VERSION_2, 1), x.metadataHash + t2, rest);
      Assoc(x.metadataHash, t2, rest);
      Assoc(LE(x.uncompressedLen, 4), t3, rest);
      Assoc(LE(x.codec, 1), tail, rest);
      TakeUintRoundTrip(VERSION_2, 1, x.metadataHash + (t2 + rest));
      TakeRoundTrip(x.metadataHash, t2 + rest);
      TakeUintRoundTrip(x.uncompressedLen, 4, t3 + rest);
      TakeUintRoundTrip(x.codec, 1, tail + rest);
    }
  }

  lemma V1Canonical(max: Ceilings, s: seq<byte>)
    requires ParseV1(max, s).Done?
    ensures var r := ParseV1(max, s);
      ValidSources(max, r.value.sources) && LE(VERSION_1, 1) + s == Encode(r.value) + r.rest
  {
    hide LE, EncodeSources, ParseSources, ValidSources;
    var s1 := Take(s, 32).rest;
    SourcesCanonical(max, s1);
    var r := ParseV1(max, s);
    var tail := EncodeSources(r.value.sources);
    assert s == s[..32] + s[32..];
    Assoc(s[..32], tail, r.rest);
    Assoc(LE(VERSION_1, 1), s[..32] + tail, r.rest);
  }

  lemma V2Canonical(max: Ceilings, s: seq<byte>)
    requires ParseV2(max, s).Done?
    ensures var r := ParseV2(max, s);
      ValidSources(max, r.value.sources) && LE(VERSION_2, 1) + s == Encode(r.value) + r.rest
  {
    hide LE, TakeUint, EncodeSources, ParseSources, ValidSources;
    var s1 := Take(s, 32).rest;
    var s2 := TakeUint(s1, 4).rest;
    var s3 := TakeUint(s2, 1).rest;
    TakeUintCanonical(s1, 4);
    TakeUintCanonical(s2, 1);
    SourcesCanonical(max, s3);
    var r := ParseV2(max, s);
    var tail := EncodeSources(r.value.sources);
    var t3 := LE(r.value.codec, 1) + tail;
    var t2 := LE(r.value.uncompressedLen, 4) + t3;
    assert s == s[..32] + s[32..];
    Assoc(LE(r.value.codec, 1), tail, r.rest);
    Assoc(LE(r.value.uncompressedLen, 4), t3, r.rest);
    Assoc(s[..32], t2, r.rest);
    Assoc(LE(VERSION_2, 1), s[..32] + t2, r.rest);
  }

  lemma SectionCanonical(max: Ceilings, s: seq<byte>)
    requires ParseSection(max, s).Done?
    ensures var r := ParseSection(max, s); ValidSources(max, r.value.sources) && s == Encode(r.value) + r.rest
  {
    hide LE, TakeUint, ParseV1, ParseV2, Encode, ValidSources;
    TakeUintCanonical(s, 1);
    var t := TakeUint(s, 1);
    if t.value == VERSION_1 { V1Canonical(max, t.rest); } else { V2Canonical(max, t.rest); }
  }

  /** Every admissible section, followed by anything, parses to the record it stands for. */
  lemma RoundTrip(max: Ceilings, decompress: Decompressor, x: Section, rest: seq<byte>)
    requires ValidSection(max, decompress, x)
    ensures ParseReference(max, decompress, Encode(x) + rest) == Done(Interpret(decompress, x).value, rest)
  {
    hide ParseSection, Encode, Interpret;
    SectionRoundTrip(max, x, rest);
  }

  /** Whatever the parser accepts is the encoding of exactly one section, which stands for the record returned. */
  lemma Canonical(max: Ceilings, decompress: Decompressor, s: seq<byte>)
    requires ParseReference(max, decompress, s).Done?
    ensures var x, r := ParseSection(max, s).value, ParseReference(max, decompress, s);
      ValidSection(max, decompress, x) && s == Encode(x) + r.rest && Interpret(decompress, x) == Some(r.value)
  {
    hide ParseSection, Encode, Interpret;
    SectionCanonical(max, s);
  }

  // ----- Over a cursor -----

  /** The locator list, the stored bytes, and the refusal of an unreachable reference, read without decoding. */
  method ReadSources(c: ManifestCursor, max: Ceilings) returns (r: Result<Sources, CoreError>)
    requires c.Valid()
    modifies c
    ensures c.Valid() && old(c.pos) <= c.pos
    ensures Follows(ParseSources(max, old(c.Rest())), r, c.Rest())
  {
    hide ParseList, TakeUint;
    var locators := ReadList(c, max.uri);
    if locators.Err? { return Err(locators.error); }
    var stored := c.ReadBlob(max.inline);
    if stored.Err? { return Err(stored.error); }
    if locators.value == [] && stored.value == [] { return Err(Corrupt); }
    return Ok(Sources(locators.value, stored.value));
  }

  method ReadV1(c: ManifestCursor, max: Ceilings) returns (r: Result<Section, CoreError>)
    requires c.Valid()
    modifies c
    ensures c.Valid() && old(c.pos) <= c.pos
    ensures Follows(ParseV1(max, old(c.Rest())), r, c.Rest())
  {
    hide ParseSources;
    var hash := c.ReadN(32);
    if hash.Err? { return Err(hash.error); }
    var sources := ReadSources(c, max);
    if sources.Err? { return Err(sources.error); }
    return Ok(V1(hash.value, sources.value));
  }

  method ReadV2(c: ManifestCursor, max: Ceilings) returns (r: Result<Section, CoreError>)
    requires c.Valid()
    modifies c
    ensures c.Valid() && old(c.pos) <= c.pos
    ensures Follows(ParseV2(max, old(c.Rest())), r, c.Rest())
  {
    hide ParseSources, TakeUint;
    var hash := c.ReadN(32);
    if hash.Err? { return Err(hash.error); }
    var len := c.ReadUint(4);
    if len.Err? { return Err(len.error); }
    var codec := c.ReadUint(1);
    if codec.Err? { return Err(codec.error); }
    var sources := ReadSources(c, max);
    if sources.Err? { return Err(sources.error); }
    Widths();
    return Ok(V2(hash.value, len.value, codec.value, sources.value));
  }

  /** `parse_metadata_reference_with_ceilings`. */
  method Read(c: ManifestCursor, max: Ceilings, decompress: Decompressor)
    returns (r: Result<MetadataReference, CoreError>)
    requires c.Valid()
    modifies c
    ensures c.Valid() && old(c.pos) <= c.pos
    ensures Follows(ParseReference(max, decompress, old(c.Rest())), r, c.Rest())
  {
    hide ParseV1, ParseV2, TakeUint, Interpret;
    var version := c.ReadUint(1);
    if version.Err? { return Err(version.error); }
    var section: Result<Section, CoreError>;
    if version.value == VERSION_1 {
      section := ReadV1(c, max);
    } else if version.value == VERSION_2 {
      section := ReadV2(c, max);
    } else {
      return Err(UnsupportedFeature);
    }
    if section.Err? { return Err(section.error); }
    var reference := Interpret(decompress, section.value);
    if reference.None? { return Err(Corrupt); }
    return Ok(reference.value);
  }

  // ----- The bytes by position -----

  /** The locators, then the stored bytes behind their length. */
  lemma SourcesLayout(x: Sources)
    requires |x.stored| < 0x1_0000_0000
    ensures var s, n := EncodeSources(x), |EncodeList(x.locators)|;
      && |s| == n + 4 + |x.stored| && s[..n] == EncodeList(x.locators)
      && U32(s, n) == |x.stored| && s[n + 4..] == x.stored
  {
    hide EncodeList, EncodeBlob;
    BlobLayout(x.stored);
    var s, n, b := EncodeSources(x), |EncodeList(x.locators)|, EncodeBlob(x.stored);
    assert s[n..] == b && s[n + 4..] == b[4..];
    forall i | 0 <= i < 4 ensures s[n + i] == b[i] { }
  }

  /** Version, hash, in version 2 the length and the codec, then the sources. */
  lemma Layout(x: Section)
    ensures var s := Encode(x);
      && |s| > 33 && s[1..33] == x.metadataHash
      && (x.V1? ==> s[0] == 1 && s[33..] == EncodeSources(x.sources))
      && (x.V2? ==> |s| > 38 && s[0] == 2 && U32(s, 33) == x.uncompressedLen && s[37] == x.codec)
      && (x.V2? ==> s[38..] == EncodeSources(x.sources))
  {
    hide LE, EncodeMany;
    var s := Encode(x);
    Widths();
    assert |EncodeSources(x.sources)| >= 8;
    hide EncodeSources;
    if x.V1? {
      assert s[0..1] == LE(VERSION_1, 1);
      LEAt(s, 0, VERSION_1, 1);
    } else {
      assert s[0..1] == LE(VERSION_2, 1) && s[33..37] == LE(x.uncompressedLen, 4) && s[37..38] == LE(x.codec, 1);
      LEAt(s, 0, VERSION_2, 1);
      LEAt(s, 33, x.uncompressedLen, 4);
      LEAt(s, 37, x.codec, 1);
    }
  }

  /** Stored bytes are compressed in version 2 under a codec other than 0. */
  predicate Compressed(x: Section) { x.V2? && x.codec != 0 && x.sources.stored != [] }

  /** The record a section stands for; it is refused iff it is compressed and does not give the length announced. */
  lemma InterpretIs(decompress: Decompressor, x: Section)
    requires |x.sources.stored| < 0x1_0000_0000
    ensures var r, stored := Interpret(decompress, x), x.sources.stored;
      var plain := if Compressed(x) then decompress(x.codec, stored, x.uncompressedLen) else Some(stored);
      && (r.Some? <==> !Compressed(x) || (plain.Some? && Clamp32(|plain.value|) == x.uncompressedLen))
      && (r.Some? ==> r.value.metadataHash == x.metadataHash && r.value.locators == x.sources.locators)
      && (r.Some? ==> r.value.inlineMetadata == if stored == [] then None else plain)
      && (r.Some? ==> r.value.codec == if x.V1? then 0 else x.codec)
      && (r.Some? ==> r.value.uncompressedLen == if x.V1? then |stored| else x.uncompressedLen)
  {
  }
}
