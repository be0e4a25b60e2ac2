/** The whole manifest: seven self-delimiting sections, two of them gated by feature flags, and its root. */
module Manifest {
  import opened Bytes
  import opened Wire
  import Header
  import FeatureFlags
  import MetadataReference
  import SlabIndex
  import EcParams
  import DmsPolicy
  import History
  import opened Merkle
  import Locators

  const EC_FLAG: u16 := 0x0001
  const DMS_FLAG: u16 := 0x0002

  const DMS_CEILINGS := DmsPolicy.Ceilings(DmsPolicy.DEFAULT_SHARE_DATA_MAX, DmsPolicy.DEFAULT_HINT_MAX)
  const REFERENCE_CEILINGS := MetadataReference.DEFAULT_CEILINGS
  const URI_CEILING := Locators.DEFAULT_MAX_URI_BYTES
  const HISTORY_CEILING := History.DEFAULT_PARAMS_MAX

  type Decompressor = MetadataReference.Decompressor

  datatype Manifest = Manifest(
    header: Header.ManifestHeader,
    flags: seq<FeatureFlags.FeatureFlag>,
    reference: MetadataReference.Section,
    slabIndex: seq<SlabIndex.SlabEntry>,
    ecParams: Option<EcParams.EcParams>,
    dmsPolicy: Option<DmsPolicy.DmsPolicy>,
    history: seq<History.HistoryEntry>)

  /** Every section within the parsers' limits, and an optional section present iff its flag is declared. */
  ghost predicate Valid(decompress: Decompressor, m: Manifest) {
    MetadataReference.ValidSection(REFERENCE_CEILINGS, decompress, m.reference) && ValidOthers(m)
  }

  /** The same for all sections but the metadata reference. */
  ghost predicate ValidOthers(m: Manifest) {
    && FeatureFlags.ValidFlags(m.flags)
    && SlabIndex.ValidIndex(URI_CEILING, m.slabIndex)
    && (m.ecParams.Some? <==> FeatureFlags.Declared(m.flags, EC_FLAG))
    && (m.ecParams.Some? ==> EcParams.ValidParams(m.ecParams.value))
    && (m.dmsPolicy.Some? <==> FeatureFlags.Declared(m.flags, DMS_FLAG))
    && (m.dmsPolicy.Some? ==> DmsPolicy.ValidPolicy(DMS_CEILINGS, m.dmsPolicy.value))
    && History.ValidHistory(HISTORY_CEILING, m.history)
  }

  // ----- The bytes, section by section -----

  /** The bytes of each section; an absent optional section has none. */
  datatype Sections = Sections(
    header: seq<byte>, flags: seq<byte>, reference: seq<byte>, slabIndex: seq<byte>,
    ecParams: seq<byte>, dmsPolicy: seq<byte>, history: seq<byte>)

  function EncodeEc(ec: Option<EcParams.EcParams>): seq<byte> {
    if ec.Some? then EcParams.Encode(ec.value) else []
  }

  function EncodeDms(dms: Option<DmsPolicy.DmsPolicy>): seq<byte> {
    if dms.Some? then DmsPolicy.Encode(dms.value) else []
  }

  function SectionsOf(m: Manifest): Sections {
    Sections(Header.Encode(m.header), FeatureFlags.Encode(m.flags), MetadataReference.Encode(m.reference),
             SlabIndex.Encode(m.slabIndex), EncodeEc(m.ecParams), EncodeDms(m.dmsPolicy), History.Encode(m.history))
  }

  function Join(x: Sections): seq<byte> {
    x.header + (x.flags + (x.reference + (x.slabIndex + (x.ecParams + (x.dmsPolicy + x.history)))))
  }

  function Encode(m: Manifest): seq<byte> { Join(SectionsOf(m)) }

  lemma JoinOnto(x: Sections, rest: seq<byte>)
    ensures Join(x) + rest
         == x.header + (x.flags + (x.reference + (x.slabIndex + (x.ecParams + (x.dmsPolicy + (x.history + rest))))))
  {
    var e6 := x.dmsPolicy + x.history;
    var e5 := x.ecParams + e6;
    var e4 := x.slabIndex + e5;
    var e3 := x.reference + e4;
    var e2 := x.flags + e3;
    Assoc(x.header, e2, rest);
    Assoc(x.flags, e3, rest);
    Assoc(x.reference, e4, rest);
    Assoc(x.slabIndex, e5, rest);
    Assoc(x.ecParams, e6, rest);
    Assoc(x.dmsPolicy, x.history, rest);
  }

  // ----- The reader's parse -----

  function ParseReference(decompress: Decompressor, s: seq<byte>): Parse<MetadataReference.Section> {
    var (x, rest) :- MetadataReference.ParseSection(REFERENCE_CEILINGS, s);
    if MetadataReference.Interpret(decompress, x).Some? then Done(x, rest) else Fail
  }

  function ParseEc(flags: seq<FeatureFlags.FeatureFlag>, s: seq<byte>): Parse<Option<EcParams.EcParams>> {
    if FeatureFlags.Declared(flags, EC_FLAG) then
      var (ec, rest) :- EcParams.ParseParams(s);
      Done(Some(ec), rest)
    else Done(None, s)
  }

  function ParseDms(flags: seq<FeatureFlags.FeatureFlag>, s: seq<byte>): Parse<Option<DmsPolicy.DmsPolicy>> {
    if FeatureFlags.Declared(flags, DMS_FLAG) then
      var (dms, rest) :- DmsPolicy.ParsePolicy(DMS_CEILINGS, s);
      Done(Some(dms), rest)
    else Done(None, s)
  }

  /** The sections every manifest has, up to the slab index. */
  datatype Head = Head(
    header: Header.ManifestHeader, flags: seq<FeatureFlags.FeatureFlag>, reference: MetadataReference.Section,
    slabIndex: seq<SlabIndex.SlabEntry>)

  /** The two optional sections and the history. */
  datatype Tail = Tail(
    ecParams: Option<EcParams.EcParams>, dmsPolicy: Option<DmsPolicy.DmsPolicy>, history: seq<History.HistoryEntry>)

  function ParseHead(decompress: Decompressor, s: seq<byte>): Parse<Head> {
    var (header, s1) :- Header.ParseHeader(s);
    var (flags, s2) :- FeatureFlags.ParseFlags(s1);
    var (reference, s3) :- ParseReference(decompress, s2);
    var (slabIndex, s4) :- SlabIndex.ParseIndex(URI_CEILING, s3);
    Done(Head(header, flags, reference, slabIndex), s4)
  }

  function ParseTail(flags: seq<FeatureFlags.FeatureFlag>, s: seq<byte>): Parse<Tail> {
    var (ec, s1) :- ParseEc(flags, s);
    var (dms, s2) :- ParseDms(flags, s1);
    var (history, s3) :- History.ParseHistory(HISTORY_CEILING, s2);
    Done(Tail(ec, dms, history), s3)
  }

  function ParseManifest(decompress: Decompressor, s: seq<byte>): Parse<Manifest> {
    var (head, s1) :- ParseHead(decompress, s);
    var (tail, s2) :- ParseTail(head.flags, s1);
    Done(Manifest(head.header, head.flags, head.reference, head.slabIndex, tail.ecParams, tail.dmsPolicy,
      tail.history), s2)
  }

  /** Each parser against its encoder, for the sections of `m` in place. */
  lemma EcRoundTrip(decompress: Decompressor, m: Manifest, rest: seq<byte>)
    requires Valid(decompress, m)
    ensures ParseEc(m.flags, EncodeEc(m.ecParams) + rest) == Done(m.ecParams, rest)
  {
    hide EcParams.Encode, EcParams.ParseParams, FeatureFlags.Declared;
    if m.ecParams.Some? { EcParams.RoundTrip(m.ecParams.value, rest); } else { assert [] + rest == rest; }
  }

  lemma DmsRoundTrip(decompress: Decompressor, m: Manifest, rest: seq<byte>)
    requires Valid(decompress, m)
    ensures ParseDms(m.flags, EncodeDms(m.dmsPolicy) + rest) == Done(m.dmsPolicy, rest)
  {
    hide DmsPolicy.Encode, DmsPolicy.ParsePolicy, FeatureFlags.Declared;
    assert [] + rest == rest;
    if m.dmsPolicy.Some? { DmsPolicy.RoundTrip(DMS_CEILINGS, m.dmsPolicy.value, rest); }
  }

  /** Parsing what was encoded recovers every section's value and stops exactly at its end. */
  lemma RoundTrip(decompress: Decompressor, m: Manifest, rest: seq<byte>)
    requires Valid(decompress, m)
    ensures ParseManifest(decompress, Encode(m) + rest) == Done(m, rest)
  {
    hide Join, Header.Encode, FeatureFlags.Encode, MetadataReference.Encode;
    hide SlabIndex.Encode, EncodeEc, EncodeDms, History.Encode;
    hide Header.ParseHeader, FeatureFlags.ParseFlags;
    hide MetadataReference.ParseSection, MetadataReference.Interpret, SlabIndex.ParseIndex;
    hide ParseEc, ParseDms, History.ParseHistory;
    hide FeatureFlags.ValidFlags, FeatureFlags.Declared, SlabIndex.ValidIndex;
    hide EcParams.ValidParams, DmsPolicy.ValidPolicy, History.ValidHistory;
    var x := SectionsOf(m);
    JoinOnto(x, rest);
    var r6 := x.history + rest;
    var r5 := x.dmsPolicy + r6;
    var r4 := x.ecParams + r5;
    var r3 := x.slabIndex + r4;
    var r2 := x.reference + r3;
    Header.RoundTrip(m.header, x.flags + r2);
    FeatureFlags.RoundTrip(m.flags, r2);
    MetadataReference.SectionRoundTrip(REFERENCE_CEILINGS, m.reference, r3);
    SlabIndex.RoundTrip(URI_CEILING, m.slabIndex, r4);
    EcRoundTrip(decompress, m, r5);
    DmsRoundTrip(decompress, m, r6);
    History.RoundTrip(HISTORY_CEILING, m.history, rest);
  }

  lemma EcCanonical(flags: seq<FeatureFlags.FeatureFlag>, s: seq<byte>)
    requires ParseEc(flags, s).Done?
    ensures var r := ParseEc(flags, s);
      && (r.value.Some? <==> FeatureFlags.Declared(flags, EC_FLAG))
      && (r.value.Some? ==> EcParams.ValidParams(r.value.value))
      && s == EncodeEc(r.value) + r.rest
  {
    hide EcParams.Encode, EcParams.ParseParams, FeatureFlags.Declared, EcParams.ValidParams;
    if FeatureFlags.Declared(flags, EC_FLAG) { EcParams.Canonical(s); } else { assert s == [] + s; }
  }

  lemma DmsCanonical(flags: seq<FeatureFlags.FeatureFlag>, s: seq<byte>)
    requires ParseDms(flags, s).Done?
    ensures var r := ParseDms(flags, s);
      && (r.value.Some? <==> FeatureFlags.Declared(flags, DMS_FLAG))
      && (r.value.Some? ==> DmsPolicy.ValidPolicy(DMS_CEILINGS, r.value.value))
      && s == EncodeDms(r.value) + r.rest
  {
    hide DmsPolicy.Encode, DmsPolicy.ParsePolicy, FeatureFlags.Declared, DmsPolicy.ValidPolicy;
    if FeatureFlags.Declared(flags, DMS_FLAG) { DmsPolicy.Canonical(DMS_CEILINGS, s); } else { assert s == [] + s; }
  }

  /** Whatever the reader accepts is the encoding of the manifest it returns, followed by the unread bytes. */
  lemma Canonical(decompress: Decompressor, s: seq<byte>)
    requires ParseManifest(decompress, s).Done?
    ensures var r := ParseManifest(decompress, s); Valid(decompress, r.value) && s == Encode(r.value) + r.rest
  {
    hide Join, Header.Encode, FeatureFlags.Encode, MetadataReference.Encode;
    hide SlabIndex.Encode, EncodeEc, EncodeDms, History.Encode;
    hide Header.ParseHeader, FeatureFlags.ParseFlags;
    hide MetadataReference.ParseSection, MetadataReference.Interpret, SlabIndex.ParseIndex;
    hide ParseEc, ParseDms, History.ParseHistory;
    hide FeatureFlags.ValidFlags, FeatureFlags.Declared, SlabIndex.ValidIndex;
    hide EcParams.ValidParams, DmsPolicy.ValidPolicy, History.ValidHistory;
    var r := ParseManifest(decompress, s);
    var s1 := Header.ParseHeader(s).rest;
    var s2 := FeatureFlags.ParseFlags(s1).rest;
    var s3 := ParseReference(decompress, s2).rest;
    var s4 := SlabIndex.ParseIndex(URI_CEILING, s3).rest;
    var s5 := ParseEc(r.value.flags, s4).rest;
    var s6 := ParseDms(r.value.flags, s5).rest;
    Header.Canonical(s);
    FeatureFlags.Canonical(s1);
    MetadataReference.SectionCanonical(REFERENCE_CEILINGS, s2);
    SlabIndex.Canonical(URI_CEILING, s3);
    EcCanonical(r.value.flags, s4);
    DmsCanonical(r.value.flags, s5);
    History.Canonical(HISTORY_CEILING, s6);
    JoinOnto(SectionsOf(r.value), r.rest);
  }

  // ----- The root -----

  /** The ten slots: crypto and delta are never present, and an absent section hashes as empty. */
  function HashesOf(hash: HashFunction, metadata: Digest, x: Sections): SectionHashes {
    SectionHashes(metadata, hash(x.header), hash(x.flags), hash(x.reference), hash(x.slabIndex),
                  hash([]), hash(x.ecParams), hash(x.dmsPolicy), hash([]), hash(x.history))
  }

  function Root(hash: HashFunction, m: Manifest): Digest {
    hash(Preimage(HashesOf(hash, m.reference.metadataHash, SectionsOf(m))))
  }

  /**
   * What is hashed for the root, by position: the separator, the metadata hash, then the hash of each section
   * in its place, where the sections that are absent or never present hash as nothing.
   */
  lemma RootLayout(hash: HashFunction, m: Manifest) returns (p: seq<byte>)
    ensures Root(hash, m) == hash(p) && |p| == 330 && p[..10] == Ascii("limnifs/v1")
    ensures p[10..42] == m.reference.metadataHash && p[42..74] == hash(Header.Encode(m.header))
    ensures p[74..106] == hash(FeatureFlags.Encode(m.flags))
    ensures p[106..138] == hash(MetadataReference.Encode(m.reference))
    ensures p[138..170] == hash(SlabIndex.Encode(m.slabIndex)) && p[170..202] == hash([])
    ensures p[202..234] == hash(if m.ecParams.Some? then EcParams.Encode(m.ecParams.value) else [])
    ensures p[234..266] == hash(if m.dmsPolicy.Some? then DmsPolicy.Encode(m.dmsPolicy.value) else [])
    ensures p[266..298] == hash([]) && p[298..330] == hash(History.Encode(m.history))
  {
    var hashes := HashesOf(hash, m.reference.metadataHash, SectionsOf(m));
    p := Preimage(hashes);
    PreimageLayout(hashes);
    hide Preimage, Header.Encode, FeatureFlags.Encode, MetadataReference.Encode;
    hide SlabIndex.Encode, EcParams.Encode, DmsPolicy.Encode, History.Encode;
  }

  /** The sections one after the other, each where the ones before it end. */
  lemma Layout(m: Manifest)
    ensures var s := Encode(m);
      var header, flags, reference := Header.Encode(m.header), FeatureFlags.Encode(m.flags),
                                      MetadataReference.Encode(m.reference);
      var index, history := SlabIndex.Encode(m.slabIndex), History.Encode(m.history);
      var ec := if m.ecParams.Some? then EcParams.Encode(m.ecParams.value) else [];
      var dms := if m.dmsPolicy.Some? then DmsPolicy.Encode(m.dmsPolicy.value) else [];
      var p := 16 + |flags| + |reference|;
      && At(s, 0, header) && At(s, 16, flags) && At(s, 16 + |flags|, reference) && At(s, p, index)
      && At(s, p + |index|, ec) && At(s, p + |index| + |ec|, dms) && At(s, p + |index| + |ec| + |dms|, history)
      && |s| == p + |index| + |ec| + |dms| + |history|
  {
    hide Header.Encode, FeatureFlags.Encode, MetadataReference.Encode;
    hide SlabIndex.Encode, EcParams.Encode, DmsPolicy.Encode, History.Encode;
    JoinLayout(SectionsOf(m));
  }

  lemma JoinLayout(x: Sections)
    ensures var s := Join(x);
      var p := |x.header| + |x.flags| + |x.reference|;
      var q := p + |x.slabIndex| + |x.ecParams| + |x.dmsPolicy|;
      && At(s, 0, x.header) && At(s, |x.header|, x.flags) && At(s, |x.header| + |x.flags|, x.reference)
      && At(s, p, x.slabIndex) && At(s, p + |x.slabIndex|, x.ecParams)
      && At(s, p + |x.slabIndex| + |x.ecParams|, x.dmsPolicy) && At(s, q, x.history) && |s| == q + |x.history|
  {
    var s := Join(x);
    var e3 := x.slabIndex + (x.ecParams + (x.dmsPolicy + x.history));
    assert s[0..] == s == x.header + (x.flags + (x.reference + e3));
    hide Join, At;
    Follow(x.header, x.flags + (x.reference + e3), s, 0);
    Follow(x.flags, x.reference + e3, s, |x.header|);
    Follow(x.reference, e3, s, |x.header| + |x.flags|);
    TailLayout(x, s, |x.header| + |x.flags| + |x.reference|);
  }

  lemma TailLayout(x: Sections, s: seq<byte>, p: nat)
    requires p <= |s| && s[p..] == x.slabIndex + (x.ecParams + (x.dmsPolicy + x.history))
    ensures At(s, p, x.slabIndex) && At(s, p + |x.slabIndex|, x.ecParams)
    ensures At(s, p + |x.slabIndex| + |x.ecParams|, x.dmsPolicy)
    ensures At(s, p + |x.slabIndex| + |x.ecParams| + |x.dmsPolicy|, x.history)
    ensures |s| == p + |x.slabIndex| + |x.ecParams| + |x.dmsPolicy| + |x.history|
  {
    Follow(x.slabIndex, x.ecParams + (x.dmsPolicy + x.history), s, p);
    Follow(x.ecParams, x.dmsPolicy + x.history, s, p + |x.slabIndex|);
    Follow(x.dmsPolicy, x.history, s, p + |x.slabIndex| + |x.ecParams|);
  }

  lemma Follow(a: seq<byte>, b: seq<byte>, s: seq<byte>, p: nat)
    requires p <= |s| && s[p..] == a + b
    ensures At(s, p, a) && p + |a| <= |s| && s[p + |a|..] == b
  {
    assert s[p..][|a|..] == s[p + |a|..];
  }

  /** Two different inputs with one digest. */
  predicate Collide(hash: HashFunction, x: seq<byte>, y: seq<byte>) { x != y && hash(x) == hash(y) }

  /** One of the inputs hashed for `a` collides with its counterpart for `b`. */
  predicate RootsCollide(hash: HashFunction, a: Manifest, b: Manifest) {
    var x, y := SectionsOf(a), SectionsOf(b);
    || Collide(hash, Preimage(HashesOf(hash, a.reference.metadataHash, x)),
      Preimage(HashesOf(hash, b.reference.metadataHash, y)))
    || Collide(hash, x.header, y.header) || Collide(hash, x.flags, y.flags) || Collide(hash, x.reference, y.reference)
    || Collide(hash, x.slabIndex, y.slabIndex) || Collide(hash, x.ecParams, y.ecParams)
    || Collide(hash, x.dmsPolicy, y.dmsPolicy) || Collide(hash, x.history, y.history)
  }

  /** Equal roots mean byte-equal sections, unless the two computations themselves exhibit a collision. */
  lemma RootDeterminesSections(hash: HashFunction, a: Manifest, b: Manifest)
    requires Root(hash, a) == Root(hash, b) && !RootsCollide(hash, a, b)
    ensures SectionsOf(a) == SectionsOf(b)
  {
    hide SectionsOf, Preimage;
    var x, y := SectionsOf(a), SectionsOf(b);
    PreimageDetermines(HashesOf(hash, a.reference.metadataHash, x), HashesOf(hash, b.reference.metadataHash, y));
  }

  /** The root is the image's identity: accepted manifests with one root are the same manifest. */
  lemma RootDeterminesManifest(hash: HashFunction, decompress: Decompressor, s: seq<byte>, t: seq<byte>)
    requires ParseManifest(decompress, s).Done? && ParseManifest(decompress, t).Done?
    ensures var a, b := ParseManifest(decompress, s), ParseManifest(decompress, t);
      Root(hash, a.value) == Root(hash, b.value) && !RootsCollide(hash, a.value, b.value) ==>
        a.value == b.value && s == Encode(a.value) + a.rest && t == Encode(a.value) + b.rest
  {
    hide ParseManifest, SectionsOf, Root, RootsCollide, Valid;
    var a, b := ParseManifest(decompress, s), ParseManifest(decompress, t);
    Canonical(decompress, s);
    Canonical(decompress, t);
    if Root(hash, a.value) == Root(hash, b.value) && !RootsCollide(hash, a.value, b.value) {
      RootDeterminesSections(hash, a.value, b.value);
      RoundTrip(decompress, a.value, []);
      RoundTrip(decompress, b.value, []);
    }
  }
}
