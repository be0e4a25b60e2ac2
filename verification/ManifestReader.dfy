/** The reader: one cursor over the image, section boundaries remembered, the root recomputed from them. */
module ManifestReader {
  import opened Bytes
  import opened Wire
  import Header
  import FeatureFlags
  import MetadataReference
  import SlabIndex
  import EcParams
  import DmsPolicy
  import History
  import opened Merkle
  import opened Manifest

  datatype ManifestView = ManifestView(
    header: Header.ManifestHeader, flags: seq<FeatureFlags.FeatureFlag>, reference: MetadataReference.MetadataReference,
    slabIndexLen: nat, historyLen: nat, extraBytesRemaining: nat, merkleRoot: Digest)

  /** What is to be seen of a manifest followed by `extra` bytes. */
  function ViewOf(hash: HashFunction, decompress: Decompressor, m: Manifest, extra: nat): ManifestView
    requires MetadataReference.Interpret(decompress, m.reference).Some?
  {
    ManifestView(m.header, m.flags, MetadataReference.Interpret(decompress, m.reference).value,
                 |m.slabIndex|, |m.history|, extra, Root(hash, m))
  }

  /** A refusal exactly where the parse refuses; otherwise the view of the manifest parsed. */
  ghost predicate Views(
    hash: HashFunction, decompress: Decompressor, bytes: seq<byte>, r: Result<ManifestView, CoreError>)
  {
    match ParseManifest(decompress, bytes)
    case Fail => r.Err?
    case Done(m, rest) =>
      && MetadataReference.Interpret(decompress, m.reference).Some?
      && r == Ok(ViewOf(hash, decompress, m, |rest|))
  }

  /** The bytes between two cursor positions are the section read there. */
  lemma Between(bytes: seq<byte>, start: nat, end: nat, section: seq<byte>)
    requires start <= end <= |bytes| && bytes[start..] == section + bytes[end..]
    ensures bytes[start..end] == section
  {
    assert bytes[start..end] == bytes[start..][..end - start];
    assert |section| == end - start;
  }

  /** What the reader keeps of the required sections. */
  datatype HeadView = HeadView(
    header: Header.ManifestHeader, flags: seq<FeatureFlags.FeatureFlag>, reference: MetadataReference.MetadataReference,
    slabIndexLen: nat)

  /** Where the sections read so far ended. */
  datatype HeadEnds = HeadEnds(header: nat, flags: nat, reference: nat, slabIndex: nat)
  datatype TailEnds = TailEnds(ecParams: nat, dmsPolicy: nat, history: nat)

  /** The four required sections lie between `start` and the recorded ends. */
  ghost predicate HeadLies(bytes: seq<byte>, start: nat, ends: HeadEnds, h: Head) {
    && start <= ends.header <= ends.flags <= ends.reference <= ends.slabIndex <= |bytes|
    && bytes[start..ends.header] == Header.Encode(h.header)
    && bytes[ends.header..ends.flags] == FeatureFlags.Encode(h.flags)
    && bytes[ends.flags..ends.reference] == MetadataReference.Encode(h.reference)
    && bytes[ends.reference..ends.slabIndex] == SlabIndex.Encode(h.slabIndex)
  }

  ghost predicate TailLies(bytes: seq<byte>, start: nat, ends: TailEnds, t: Tail) {
    && start <= ends.ecParams <= ends.dmsPolicy <= ends.history <= |bytes|
    && bytes[start..ends.ecParams] == EncodeEc(t.ecParams)
    && bytes[ends.ecParams..ends.dmsPolicy] == EncodeDms(t.dmsPolicy)
    && bytes[ends.dmsPolicy..ends.history] == History.Encode(t.history)
  }

  /** The cursor's record parses exactly when the section does, and keeps the section's hash. */
  lemma ReferenceInterpreted(decompress: Decompressor, s: seq<byte>)
    ensures ParseReference(decompress, s).Fail? <==>
      MetadataReference.ParseReference(REFERENCE_CEILINGS, decompress, s).Fail?
    ensures ParseReference(decompress, s).Done? ==>
      var x, r := ParseReference(decompress, s), MetadataReference.ParseReference(REFERENCE_CEILINGS, decompress, s);
      && r.rest == x.rest && MetadataReference.Interpret(decompress, x.value) == Some(r.value)
      && r.value.metadataHash == x.value.metadataHash
  {
    hide MetadataReference.ParseSection;
  }

  /** The erasure-coding section, read when its flag is declared. */
  method ReadEc(c: ManifestCursor, flags: seq<FeatureFlags.FeatureFlag>)
    returns (r: Result<Option<EcParams.EcParams>, CoreError>)
    requires c.Valid()
    modifies c
    ensures c.Valid() && old(c.pos) <= c.pos
    ensures Follows(ParseEc(flags, old(c.Rest())), r, c.Rest())
    ensures r.Ok? && r.value.None? ==> c.pos == old(c.pos)
  {
    hide EcParams.ParseParams;
    var hasEc := FeatureFlags.IsRequired(flags, EC_FLAG) || FeatureFlags.Get(flags, EC_FLAG).Some?;
    if hasEc {
      var ec := EcParams.Read(c);
      if ec.Err? { return Err(ec.error); }
      return Ok(Some(ec.value));
    }
    return Ok(None);
  }

  /** The policy section, read when its flag is declared. */
  method ReadDms(c: ManifestCursor, flags: seq<FeatureFlags.FeatureFlag>)
    returns (r: Result<Option<DmsPolicy.DmsPolicy>, CoreError>)
    requires c.Valid()
    modifies c
    ensures c.Valid() && old(c.pos) <= c.pos
    ensures Follows(ParseDms(flags, old(c.Rest())), r, c.Rest())
    ensures r.Ok? && r.value.None? ==> c.pos == old(c.pos)
  {
    hide DmsPolicy.ParsePolicy;
    var hasDms := FeatureFlags.IsRequired(flags, DMS_FLAG) || FeatureFlags.Get(flags, DMS_FLAG).Some?;
    if hasDms {
      var dms := DmsPolicy.Read(c, DMS_CEILINGS);
      if dms.Err? { return Err(dms.error); }
      return Ok(Some(dms.value));
    }
    return Ok(None);
  }

  method ReadHead(c: ManifestCursor, decompress: Decompressor)
    returns (r: Result<HeadView, CoreError>, ends: HeadEnds)
    requires c.Valid()
    modifies c
    ensures c.Valid() && old(c.pos) <= c.pos
    ensures match ParseHead(decompress, old(c.Rest()))
      case Fail => r.Err?
      case Done(h, rest) =>
        && r.Ok? && c.Rest() == rest && c.pos == ends.slabIndex && HeadLies(c.bytes, old(c.pos), ends, h)
        && r.value.header == h.header && r.value.flags == h.flags && r.value.slabIndexLen == |h.slabIndex|
        && MetadataReference.Interpret(decompress, h.reference) == Some(r.value.reference)
        && r.value.reference.metadataHash == h.reference.metadataHash
  {
    hide Header.ParseHeader, FeatureFlags.ParseFlags;
    hide ParseReference, MetadataReference.ParseReference, MetadataReference.Interpret;
    hide SlabIndex.ParseIndex, Header.Encode, FeatureFlags.Encode, MetadataReference.Encode, SlabIndex.Encode;
    ends := HeadEnds(0, 0, 0, 0);
    ghost var p0, s0 := c.pos, c.Rest();
    var header := Header.Read(c);
    if header.Err? { return Err(header.error), ends; }
    var headerEnd := c.pos;
    HeaderSpan(c.bytes, p0, headerEnd);

    ghost var s1 := c.Rest();
    var flags := FeatureFlags.Read(c);
    if flags.Err? { return Err(flags.error), ends; }
    var flagsEnd := c.pos;
    FlagsSpan(c.bytes, headerEnd, flagsEnd);

    ghost var s2 := c.Rest();
    ReferenceInterpreted(decompress, s2);
    var reference := MetadataReference.Read(c, REFERENCE_CEILINGS, decompress);
    if reference.Err? { return Err(reference.error), ends; }
    var referenceEnd := c.pos;
    ReferenceSpan(decompress, c.bytes, flagsEnd, referenceEnd);

    var slabs := SlabIndex.Read(c, URI_CEILING);
    if slabs.Err? { return Err(slabs.error), ends; }
    SlabSpan(c.bytes, referenceEnd, c.pos);
    ends := HeadEnds(headerEnd, flagsEnd, referenceEnd, c.pos);
    return Ok(HeadView(header.value, flags.value, reference.value, |slabs.value|)), ends;
  }

  lemma HeaderSpan(bytes: seq<byte>, start: nat, end: nat)
    requires start <= end <= |bytes| && Header.ParseHeader(bytes[start..]).Done?
    requires Header.ParseHeader(bytes[start..]).rest == bytes[end..]
    ensures bytes[start..end] == Header.Encode(Header.ParseHeader(bytes[start..]).value)
  {
    hide Header.ParseHeader, Header.Encode;
    Header.Canonical(bytes[start..]);
    Between(bytes, start, end, Header.Encode(Header.ParseHeader(bytes[start..]).value));
  }

  lemma FlagsSpan(bytes: seq<byte>, start: nat, end: nat)
    requires start <= end <= |bytes| && FeatureFlags.ParseFlags(bytes[start..]).Done?
    requires FeatureFlags.ParseFlags(bytes[start..]).rest == bytes[end..]
    ensures bytes[start..end] == FeatureFlags.Encode(FeatureFlags.ParseFlags(bytes[start..]).value)
  {
    hide FeatureFlags.ParseFlags, FeatureFlags.Encode;
    FeatureFlags.Canonical(bytes[start..]);
    Between(bytes, start, end, FeatureFlags.Encode(FeatureFlags.ParseFlags(bytes[start..]).value));
  }

  lemma ReferenceSpan(decompress: Decompressor, bytes: seq<byte>, start: nat, end: nat)
    requires start <= end <= |bytes| && ParseReference(decompress, bytes[start..]).Done?
    requires ParseReference(decompress, bytes[start..]).rest == bytes[end..]
    ensures bytes[start..end] == MetadataReference.Encode(ParseReference(decompress, bytes[start..]).value)
  {
    hide MetadataReference.ParseSection, MetadataReference.Encode;
    MetadataReference.SectionCanonical(REFERENCE_CEILINGS, bytes[start..]);
    Between(bytes, start, end, MetadataReference.Encode(ParseReference(decompress, bytes[start..]).value));
  }

  lemma SlabSpan(bytes: seq<byte>, start: nat, end: nat)
    requires start <= end <= |bytes| && SlabIndex.ParseIndex(URI_CEILING, bytes[start..]).Done?
    requires SlabIndex.ParseIndex(URI_CEILING, bytes[start..]).rest == bytes[end..]
    ensures bytes[start..end] == SlabIndex.Encode(SlabIndex.ParseIndex(URI_CEILING, bytes[start..]).value)
  {
    hide SlabIndex.ParseIndex, SlabIndex.Encode;
    SlabIndex.Canonical(URI_CEILING, bytes[start..]);
    Between(bytes, start, end, SlabIndex.Encode(SlabIndex.ParseIndex(URI_CEILING, bytes[start..]).value));
  }

  method ReadTail(c: ManifestCursor, flags: seq<FeatureFlags.FeatureFlag>)
    returns (r: Result<Tail, CoreError>, ends: TailEnds)
    requires c.Valid()
    modifies c
    ensures c.Valid() && old(c.pos) <= c.pos
    ensures Follows(ParseTail(flags, old(c.Rest())), r, c.Rest())
    ensures r.Ok? ==> c.pos == ends.history && TailLies(c.bytes, old(c.pos), ends, r.value)
  {
    hide ParseEc, ParseDms, History.ParseHistory, EncodeEc, EncodeDms, History.Encode;
    ends := TailEnds(0, 0, 0);
    ghost var p0 := c.pos;
    var ec := ReadEc(c, flags);
    if ec.Err? { return Err(ec.error), ends; }
    var ecEnd := c.pos;
    EcCanonical(flags, c.bytes[p0..]);
    Between(c.bytes, p0, ecEnd, EncodeEc(ec.value));

    var dms := ReadDms(c, flags);
    if dms.Err? { return Err(dms.error), ends; }
    var dmsEnd := c.pos;
    DmsCanonical(flags, c.bytes[ecEnd..]);
    Between(c.bytes, ecEnd, dmsEnd, EncodeDms(dms.value));

    var history := History.Read(c, HISTORY_CEILING);
    if history.Err? { return Err(history.error), ends; }
    History.Canonical(HISTORY_CEILING, c.bytes[dmsEnd..]);
    Between(c.bytes, dmsEnd, c.pos, History.Encode(history.value));
    return Ok(Tail(ec.value, dms.value, history.value)), TailEnds(ecEnd, dmsEnd, c.pos);
  }

  predicate InOrder(he: HeadEnds, te: TailEnds, n: nat) {
    he.header <= he.flags <= he.reference <= he.slabIndex <= te.ecParams <= te.dmsPolicy <= te.history <= n
  }

  /** The ten slots, from the bytes between the recorded ends. */
  function FoundHashes(
    hash: HashFunction, bytes: seq<byte>, he: HeadEnds, te: TailEnds, metadata: Digest, hasEc: bool, hasDms: bool)
    : SectionHashes
    requires InOrder(he, te, |bytes|)
  {
    SectionHashes(
      metadata, hash(bytes[0..he.header]), hash(bytes[he.header..he.flags]), hash(bytes[he.flags..he.reference]),
      hash(bytes[he.reference..he.slabIndex]), hash([]),
      if hasEc then hash(bytes[he.slabIndex..te.ecParams]) else hash([]),
      if hasDms then hash(bytes[te.ecParams..te.dmsPolicy]) else hash([]), hash([]),
      hash(bytes[te.dmsPolicy..te.history]))
  }

  /** Where a manifest's sections lie, the hashes found are the hashes of its sections. */
  lemma HashesFound(hash: HashFunction, bytes: seq<byte>, he: HeadEnds, te: TailEnds, m: Manifest)
    requires HeadLies(bytes, 0, he, Head(m.header, m.flags, m.reference, m.slabIndex))
    requires TailLies(bytes, he.slabIndex, te, Tail(m.ecParams, m.dmsPolicy, m.history))
    ensures InOrder(he, te, |bytes|)
    ensures FoundHashes(hash, bytes, he, te, m.reference.metadataHash, m.ecParams.Some?, m.dmsPolicy.Some?)
         == HashesOf(hash, m.reference.metadataHash, SectionsOf(m))
  {
    hide Header.Encode, FeatureFlags.Encode, MetadataReference.Encode;
    hide SlabIndex.Encode, EcParams.Encode, DmsPolicy.Encode, History.Encode;
  }

  /** `read_manifest` and `parse_and_recompute_root`, the image's bytes in hand. */
  method ReadManifest(bytes: seq<byte>, hash: HashFunction, decompress: Decompressor)
    returns (r: Result<ManifestView, CoreError>)
    requires |bytes| <= USIZE_MAX
    ensures Views(hash, decompress, bytes, r)
  {
    hide ParseHead, ParseTail, MetadataReference.Interpret, Preimage, HeadLies;
    hide TailLies, SectionsOf, HashesOf, FoundHashes, InOrder;
    var c := new ManifestCursor(bytes);
    var head, he := ReadHead(c, decompress);
    if head.Err? { return Err(head.error); }
    var tail, te := ReadTail(c, head.value.flags);
    if tail.Err? { return Err(tail.error); }
    ghost var m := ParseManifest(decompress, bytes).value;
    HashesFound(hash, bytes, he, te, m);
    var hashes := FoundHashes(
      hash, bytes, he, te, head.value.reference.metadataHash, tail.value.ecParams.Some?, tail.value.dmsPolicy.Some?);
    var root := ComputeMerkleRoot(hash, hashes);
    var HeadView(header, flags, reference, slabIndexLen) := head.value;
    return Ok(ManifestView(header, flags, reference, slabIndexLen, |tail.value.history|, c.RemainingLen(), root));
  }

  /** A buffer that holds the whole manifest parses as the whole image does, but for the bytes after it. */
  lemma PrefixSuffices(decompress: Decompressor, buffer: seq<byte>, more: seq<byte>)
    requires ParseManifest(decompress, buffer).Done?
    ensures var m, rest := ParseManifest(decompress, buffer).value, ParseManifest(decompress, buffer).rest;
      ParseManifest(decompress, buffer + more) == Done(m, rest + more)
  {
    hide ParseManifest, Encode, Valid;
    Canonical(decompress, buffer);
    var m, rest := ParseManifest(decompress, buffer).value, ParseManifest(decompress, buffer).rest;
    Assoc(Encode(m), rest, more);
    RoundTrip(decompress, m, rest + more);
  }

  // ----- The read budget -----

  const VERIFY_READ_BUDGET := 0x10_0000

  /** The first `n` bytes of an image are accepted iff the image is and its manifest lies within them. */
  lemma PrefixParsesIff(decompress: Decompressor, image: seq<byte>, n: nat)
    requires n <= |image|
    ensures ParseManifest(decompress, image[..n]).Done? <==>
      ParseManifest(decompress, image).Done? && |Encode(ParseManifest(decompress, image).value)| <= n
    ensures ParseManifest(decompress, image[..n]).Done? ==>
      var m := ParseManifest(decompress, image).value;
      ParseManifest(decompress, image[..n]) == Done(m, image[|Encode(m)|..n])
  {
    hide ParseManifest, Encode, Valid;
    assert image == image[..n] + image[n..];
    if ParseManifest(decompress, image[..n]).Done? {
      PrefixSuffices(decompress, image[..n], image[n..]);
      Canonical(decompress, image[..n]);
    }
    if ParseManifest(decompress, image).Done? {
      var m, rest := ParseManifest(decompress, image).value, ParseManifest(decompress, image).rest;
      Canonical(decompress, image);
      if |Encode(m)| <= n {
        assert image[..n] == Encode(m) + image[|Encode(m)|..n];
        RoundTrip(decompress, m, image[|Encode(m)|..n]);
      }
    }
  }

  /** `read_manifest`: one `read` call yields the first `n` bytes of the image, at most the budget. */
  method ReadImage(image: seq<byte>, n: nat, hash: HashFunction, decompress: Decompressor)
    returns (r: Result<ManifestView, CoreError>)
    requires n <= |image| && n <= VERIFY_READ_BUDGET
    ensures r.Ok? <==>
      ParseManifest(decompress, image).Done? && |Encode(ParseManifest(decompress, image).value)| <= n
    ensures r.Ok? ==>
      var m := ParseManifest(decompress, image).value;
      && r.value.header == m.header && r.value.flags == m.flags
      && Some(r.value.reference) == MetadataReference.Interpret(decompress, m.reference)
      && r.value.slabIndexLen == |m.slabIndex| && r.value.historyLen == |m.history|
      && r.value.extraBytesRemaining == n - |Encode(m)| && r.value.merkleRoot == Root(hash, m)
  {
    hide ParseManifest, Encode, Root, MetadataReference.Interpret;
    PrefixParsesIff(decompress, image, n);
    r := ReadManifest(image[..n], hash, decompress);
  }

  function LargeManifest(): Manifest {
    Manifest(Header.ManifestHeader(1, 1, 1), [],
      MetadataReference.V1(seq(32, _ => 0), MetadataReference.Sources([], seq(0x10_0000, _ => 0))), [], None, None,
      [History.HistoryEntry(History.Build, 0, [], [])])
  }

  /** Inline metadata of the largest admitted size takes a valid manifest past the budget, and it is refused. */
  lemma LargeManifestRefused(decompress: Decompressor, n: nat)
    requires n <= VERIFY_READ_BUDGET
    ensures var image := Encode(LargeManifest());
      && Valid(decompress, LargeManifest()) && n < |image|
      && ParseManifest(decompress, image).Done? && !ParseManifest(decompress, image[..n]).Done?
  {
    var m := LargeManifest();
    var image := Encode(m);
    assert m.reference.sources.stored != [];
    assert Valid(decompress, m);
    LongerThanMetadata(m);
    hide ParseManifest, Encode, Valid;
    RoundTrip(decompress, m, []);
    assert image + [] == image;
    PrefixParsesIff(decompress, image, n);
  }

  lemma LongerThanMetadata(m: Manifest)
    requires m.reference.V1?
    ensures |Encode(m)| > |m.reference.sources.stored|
  {
    hide Header.Encode, FeatureFlags.Encode, SlabIndex.Encode, EcParams.Encode, DmsPolicy.Encode, History.Encode;
    hide LE, EncodeMany;
    assert |MetadataReference.Encode(m.reference)| > |m.reference.sources.stored|;
    hide MetadataReference.Encode;
  }
}
