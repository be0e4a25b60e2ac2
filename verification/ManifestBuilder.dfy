/** The builder: a declarative spec printed section by section into one growing byte vector, with its root. */
module ManifestBuilder {
  import opened Bytes
  import opened Wire
  import Header
  import FeatureFlags
  import MetadataReference
  import Locators
  import SlabIds
  import SlabIndex
  import EcParams
  import DmsPolicy
  import History
  import opened Merkle
  import opened Manifest
  import opened ManifestReader

  datatype ReferenceSpec = External(metadataHash: Digest, locators: seq<seq<byte>>) | Inlined(metadata: seq<byte>)

  datatype ManifestSpec = ManifestSpec(
    header: Header.ManifestHeader,
    flags: seq<FeatureFlags.FeatureFlag>,
    reference: ReferenceSpec,
    slabIndex: seq<SlabIndex.SlabEntry>,
    ecParams: Option<EcParams.EcParams>,
    dmsPolicy: Option<DmsPolicy.DmsPolicy>,
    history: seq<History.HistoryEntry>)

  datatype ManifestArtifact = ManifestArtifact(bytes: seq<byte>, merkleRoot: Digest, sectionHashes: SectionHashes)

  /** The section a reference spec stands for: always version 1, the hash of inlined metadata computed here. */
  function ReferenceOf(hash: HashFunction, r: ReferenceSpec): MetadataReference.Section {
    match r
    case External(metadataHash, locators) => MetadataReference.V1(metadataHash, MetadataReference.Sources(locators, []))
    case Inlined(metadata) => MetadataReference.V1(hash(metadata), MetadataReference.Sources([], metadata))
  }

  function ManifestOf(hash: HashFunction, spec: ManifestSpec): Manifest {
    Manifest(spec.header, spec.flags, ReferenceOf(hash, spec.reference), spec.slabIndex, spec.ecParams, spec.dmsPolicy,
      spec.history)
  }

  // ----- What a spec must satisfy -----

  ghost predicate Short<T>(xs: seq<T>) { |xs| < 0x1_0000_0000 }

  ghost predicate ShortEach(xs: seq<seq<byte>>) { Short(xs) && forall i :: 0 <= i < |xs| ==> Short(xs[i]) }

  /** Every count and length fits 32 bits: the builder panics otherwise. */
  ghost predicate Encodable(spec: ManifestSpec) {
    && Short(spec.flags) && Short(spec.slabIndex) && Short(spec.history)
    && (spec.reference.External? ==> ShortEach(spec.reference.locators))
    && (spec.reference.Inlined? ==> Short(spec.reference.metadata))
    && (forall i :: 0 <= i < |spec.slabIndex| ==> ShortEach(spec.slabIndex[i].locators))
    && (spec.ecParams.Some? ==> Short(spec.ecParams.value.overrides))
    && (spec.dmsPolicy.Some? ==> EncodablePolicy(spec.dmsPolicy.value))
    && (forall i :: 0 <= i < |spec.history| ==> Short(spec.history[i].inputs) && Short(spec.history[i].params))
  }

  ghost predicate EncodablePolicy(p: DmsPolicy.DmsPolicy) {
    && Short(p.shares) && (p.hint.Some? ==> Short(p.hint.value))
    && forall i :: 0 <= i < |p.shares| ==> Short(p.shares[i].custodianId) && Short(p.shares[i].shareData)
  }

  /** The reference can be reached: locators, or inlined metadata within the inline ceiling. */
  predicate WellFormedReference(r: ReferenceSpec) {
    match r
    case External(_, locators) => locators != [] && Locators.ValidList(URI_CEILING, locators)
    case Inlined(metadata) => 0 < |metadata| <= MetadataReference.DEFAULT_INLINE_MAX
  }

  /** Flags declared iff their sections are present, and every parser limit met. */
  ghost predicate WellFormed(hash: HashFunction, spec: ManifestSpec) {
    WellFormedReference(spec.reference) && ValidOthers(ManifestOf(hash, spec))
  }

  lemma WellFormedIsValid(hash: HashFunction, decompress: Decompressor, spec: ManifestSpec)
    requires WellFormed(hash, spec)
    ensures Valid(decompress, ManifestOf(hash, spec))
  {
    hide ValidOthers, Locators.ValidLocator;
    assert Locators.ValidList(URI_CEILING, []);
  }

  // ----- Length-prefixed values -----

  method EncodeBytes(out: OutputBuffer, xs: seq<byte>)
    requires Short(xs)
    modifies out
    ensures out.bytes == old(out.bytes) + EncodeBlob(xs)
  {
    hide LE;
    out.ExtendCount(|xs|);
    out.Extend(xs);
    Assoc(old(out.bytes), LE(|xs|, 4), xs);
  }

  /** A count and `encode_locator` for each. */
  method EncodeLocators(out: OutputBuffer, uris: seq<seq<byte>>)
    requires ShortEach(uris)
    modifies out
    ensures out.bytes == old(out.bytes) + Locators.EncodeList(uris)
  {
    hide LE, EncodeMany, EncodeBlob;
    out.ExtendCount(|uris|);
    ghost var front := out.bytes;
    var i := 0;
    Nothing(EncodeBlob, uris, front);
    while i < |uris|
      invariant 0 <= i <= |uris|
      invariant out.bytes == front + EncodeMany(EncodeBlob, uris[..i])
    {
      Printed(EncodeBlob, uris, i, front);
      EncodeBytes(out, uris[i]);
      i := i + 1;
    }
    assert uris[..|uris|] == uris;
    Assoc(old(out.bytes), LE(|uris|, 4), EncodeMany(EncodeBlob, uris));
  }

  // ----- One element of each counted list -----

  method EncodeFlag(out: OutputBuffer, flag: FeatureFlags.FeatureFlag)
    modifies out
    ensures out.bytes == old(out.bytes) + FeatureFlags.EncodeFlag(flag)
  {
    hide LE;
    out.Extend(LE(flag.flagId, 2));
    out.Push(if flag.required then 1 else 0);
    Assoc(old(out.bytes), LE(flag.flagId, 2), LE(if flag.required then 1 else 0, 1));
  }

  method EncodeSlabEntry(out: OutputBuffer, entry: SlabIndex.SlabEntry)
    requires ShortEach(entry.locators)
    modifies out
    ensures out.bytes == old(out.bytes) + SlabIndex.EncodeEntry(entry)
  {
    hide SlabIds.Encode, Locators.EncodeList;
    out.Extend(SlabIds.Encode(entry.slabId));
    EncodeLocators(out, entry.locators);
    Assoc(old(out.bytes), SlabIds.Encode(entry.slabId), Locators.EncodeList(entry.locators));
  }

  method EncodeOverride(out: OutputBuffer, o: EcParams.EcOverride)
    modifies out
    ensures out.bytes == old(out.bytes) + EcParams.EncodeOverride(o)
  {
    hide LE, SlabIds.Encode;
    var id := SlabIds.Encode(o.slabId);
    out.Extend(id);
    out.Push(o.k);
    out.Push(o.m);
    Assoc(old(out.bytes) + id, LE(o.k, 1), LE(o.m, 1));
    Assoc(old(out.bytes), id, LE(o.k, 1) + LE(o.m, 1));
  }

  method EncodeShare(out: OutputBuffer, share: DmsPolicy.ShareRecord)
    requires Short(share.custodianId) && Short(share.shareData)
    modifies out
    ensures out.bytes == old(out.bytes) + DmsPolicy.EncodeShare(share)
  {
    hide EncodeBlob;
    EncodeBytes(out, share.custodianId);
    EncodeBytes(out, share.shareData);
    Assoc(old(out.bytes), EncodeBlob(share.custodianId), EncodeBlob(share.shareData));
  }

  lemma {:induction false} FlattenSnoc(xs: seq<Digest>, x: Digest)
    ensures History.Flatten32(xs + [x]) == History.Flatten32(xs) + x
  {
    if xs == [] {
      assert (xs + [x])[1..] == [];
    } else {
      FlattenSnoc(xs[1..], x);
      assert (xs + [x])[1..] == xs[1..] + [x];
      Assoc(xs[0], History.Flatten32(xs[1..]), x);
    }
  }

  method EncodeInputs(out: OutputBuffer, inputs: seq<Digest>)
    requires Short(inputs)
    modifies out
    ensures out.bytes == old(out.bytes) + History.EncodeInputs(inputs)
  {
    hide LE;
    out.ExtendCount(|inputs|);
    ghost var front := out.bytes;
    var i := 0;
    while i < |inputs|
      invariant 0 <= i <= |inputs|
      invariant out.bytes == front + History.Flatten32(inputs[..i])
    {
      assert inputs[..i + 1] == inputs[..i] + [inputs[i]];
      FlattenSnoc(inputs[..i], inputs[i]);
      Assoc(front, History.Flatten32(inputs[..i]), inputs[i]);
      out.Extend(inputs[i]);
      i := i + 1;
    }
    assert inputs[..|inputs|] == inputs;
    Assoc(old(out.bytes), LE(|inputs|, 4), History.Flatten32(inputs));
  }

  method EncodeHistoryEntry(out: OutputBuffer, entry: History.HistoryEntry)
    requires Short(entry.inputs) && Short(entry.params)
    modifies out
    ensures out.bytes == old(out.bytes) + History.EncodeEntry(entry)
  {
    hide LE, History.EncodeInputs, EncodeBlob;
    var op, time := LE(History.ToByte(entry.op), 1), LE(entry.timestampNs, 8);
    ghost var front, inputs, params := out.bytes, History.EncodeInputs(entry.inputs), EncodeBlob(entry.params);
    out.Push(History.ToByte(entry.op));
    out.Extend(time);
    EncodeInputs(out, entry.inputs);
    EncodeBytes(out, entry.params);
    Assoc((front + op) + time, inputs, params);
    Assoc(front + op, time, inputs + params);
    Assoc(front, op, time + (inputs + params));
  }

  // ----- The counted lists -----

  method EncodeFlags(out: OutputBuffer, xs: seq<FeatureFlags.FeatureFlag>)
    requires Short(xs)
    modifies out
    ensures out.bytes == old(out.bytes) + (LE(|xs|, 4) + EncodeMany(FeatureFlags.EncodeFlag, xs))
  {
    hide LE, EncodeMany, FeatureFlags.EncodeFlag;
    out.ExtendCount(|xs|);
    ghost var front := out.bytes;
    var i := 0;
    Nothing(FeatureFlags.EncodeFlag, xs, front);
    while i < |xs|
      invariant 0 <= i <= |xs|
      invariant out.bytes == front + EncodeMany(FeatureFlags.EncodeFlag, xs[..i])
    {
      Printed(FeatureFlags.EncodeFlag, xs, i, front);
      EncodeFlag(out, xs[i]);
      i := i + 1;
    }
    assert xs[..|xs|] == xs;
    Assoc(old(out.bytes), LE(|xs|, 4), EncodeMany(FeatureFlags.EncodeFlag, xs));
  }

  method EncodeSlabs(out: OutputBuffer, xs: seq<SlabIndex.SlabEntry>)
    requires Short(xs) && forall i :: 0 <= i < |xs| ==> ShortEach(xs[i].locators)
    modifies out
    ensures out.bytes == old(out.bytes) + (LE(|xs|, 4) + EncodeMany(SlabIndex.EncodeEntry, xs))
  {
    hide LE, EncodeMany, SlabIndex.EncodeEntry;
    out.ExtendCount(|xs|);
    ghost var front := out.bytes;
    var i := 0;
    Nothing(SlabIndex.EncodeEntry, xs, front);
    while i < |xs|
      invariant 0 <= i <= |xs|
      invariant out.bytes == front + EncodeMany(SlabIndex.EncodeEntry, xs[..i])
    {
      Printed(SlabIndex.EncodeEntry, xs, i, front);
      EncodeSlabEntry(out, xs[i]);
      i := i + 1;
    }
    assert xs[..|xs|] == xs;
    Assoc(old(out.bytes), LE(|xs|, 4), EncodeMany(SlabIndex.EncodeEntry, xs));
  }

  method EncodeOverrides(out: OutputBuffer, xs: seq<EcParams.EcOverride>)
    requires Short(xs)
    modifies out
    ensures out.bytes == old(out.bytes) + (LE(|xs|, 4) + EncodeMany(EcParams.EncodeOverride, xs))
  {
    hide LE, EncodeMany, EcParams.EncodeOverride;
    out.ExtendCount(|xs|);
    ghost var front := out.bytes;
    var i := 0;
    Nothing(EcParams.EncodeOverride, xs, front);
    while i < |xs|
      invariant 0 <= i <= |xs|
      invariant out.bytes == front + EncodeMany(EcParams.EncodeOverride, xs[..i])
    {
      Printed(EcParams.EncodeOverride, xs, i, front);
      EncodeOverride(out, xs[i]);
      i := i + 1;
    }
    assert xs[..|xs|] == xs;
    Assoc(old(out.bytes), LE(|xs|, 4), EncodeMany(EcParams.EncodeOverride, xs));
  }

  method EncodeShares(out: OutputBuffer, xs: seq<DmsPolicy.ShareRecord>)
    requires Short(xs) && forall i :: 0 <= i < |xs| ==> Short(xs[i].custodianId) && Short(xs[i].shareData)
    modifies out
    ensures out.bytes == old(out.bytes) + (LE(|xs|, 4) + EncodeMany(DmsPolicy.EncodeShare, xs))
  {
    hide LE, EncodeMany, DmsPolicy.EncodeShare;
    out.ExtendCount(|xs|);
    ghost var front := out.bytes;
    var i := 0;
    Nothing(DmsPolicy.EncodeShare, xs, front);
    while i < |xs|
      invariant 0 <= i <= |xs|
      invariant out.bytes == front + EncodeMany(DmsPolicy.EncodeShare, xs[..i])
    {
      Printed(DmsPolicy.EncodeShare, xs, i, front);
      EncodeShare(out, xs[i]);
      i := i + 1;
    }
    assert xs[..|xs|] == xs;
    Assoc(old(out.bytes), LE(|xs|, 4), EncodeMany(DmsPolicy.EncodeShare, xs));
  }

  method EncodeEntries(out: OutputBuffer, xs: seq<History.HistoryEntry>)
    requires Short(xs) && forall i :: 0 <= i < |xs| ==> Short(xs[i].inputs) && Short(xs[i].params)
    modifies out
    ensures out.bytes == old(out.bytes) + (LE(|xs|, 4) + EncodeMany(History.EncodeEntry, xs))
  {
    hide LE, EncodeMany, History.EncodeEntry;
    out.ExtendCount(|xs|);
    ghost var front := out.bytes;
    var i := 0;
    Nothing(History.EncodeEntry, xs, front);
    while i < |xs|
      invariant 0 <= i <= |xs|
      invariant out.bytes == front + EncodeMany(History.EncodeEntry, xs[..i])
    {
      Printed(History.EncodeEntry, xs, i, front);
      EncodeHistoryEntry(out, xs[i]);
      i := i + 1;
    }
    assert xs[..|xs|] == xs;
    Assoc(old(out.bytes), LE(|xs|, 4), EncodeMany(History.EncodeEntry, xs));
  }

  // ----- The builder -----

  class ManifestBuilder {
    const spec: ManifestSpec
    const hash: HashFunction

    constructor (spec: ManifestSpec, hash: HashFunction)
      ensures this.spec == spec && this.hash == hash
    {
      this.spec, this.hash := spec, hash;
    }

    method EncodeHeader(out: OutputBuffer)
      modifies out
      ensures out.bytes == old(out.bytes) + Header.Encode(spec.header)
    {
      hide LE;
      out.Extend(Header.MANIFEST_MAGIC);
      out.Extend(LE(spec.header.dropStoreVersion, 2));
      out.Extend(LE(spec.header.metadataVersion, 2));
      out.Extend(LE(spec.header.manifestVersion, 2));
      out.Extend(Header.RESERVED);
      Nest4(old(out.bytes), Header.MANIFEST_MAGIC, LE(spec.header.dropStoreVersion, 2),
        LE(spec.header.metadataVersion, 2),
            LE(spec.header.manifestVersion, 2), Header.RESERVED);
    }

    method EncodeFeatureFlags(out: OutputBuffer)
      requires Encodable(spec)
      modifies out
      ensures out.bytes == old(out.bytes) + FeatureFlags.Encode(spec.flags)
    {
      hide LE, EncodeMany;
      out.Push(FeatureFlags.SECTION_VERSION);
      EncodeFlags(out, spec.flags);
      Assoc(old(out.bytes), LE(FeatureFlags.SECTION_VERSION, 1), LE(|spec.flags|, 4)
        + EncodeMany(FeatureFlags.EncodeFlag, spec.flags));
    }

    /** Also returns the metadata hash it wrote. */
    method EncodeMetadataReference(out: OutputBuffer) returns (metadataHash: Digest)
      requires Encodable(spec)
      modifies out
      ensures out.bytes == old(out.bytes) + MetadataReference.Encode(ReferenceOf(hash, spec.reference))
      ensures metadataHash == ReferenceOf(hash, spec.reference).metadataHash
    {
      hide LE, EncodeBlob, Locators.EncodeList;
      out.Push(MetadataReference.VERSION_1);
      var locators: seq<seq<byte>>, stored: seq<byte>;
      match spec.reference {
        case External(given, uris) => metadataHash, locators, stored := given, uris, [];
        case Inlined(metadata) => metadataHash, locators, stored := hash(metadata), [], metadata;
      }
      out.Extend(metadataHash);
      EncodeLocators(out, locators);
      EncodeBytes(out, stored);
      ghost var front, version := old(out.bytes), LE(MetadataReference.VERSION_1, 1);
      ghost var l, b := Locators.EncodeList(locators), EncodeBlob(stored);
      Assoc((front + version) + metadataHash, l, b);
      Assoc(front + version, metadataHash, l + b);
      Assoc(front, version, metadataHash + (l + b));
    }

    method EncodeSlabIndex(out: OutputBuffer)
      requires Encodable(spec)
      modifies out
      ensures out.bytes == old(out.bytes) + SlabIndex.Encode(spec.slabIndex)
    {
      hide LE, EncodeMany;
      out.Push(SlabIndex.SECTION_VERSION);
      EncodeSlabs(out, spec.slabIndex);
      Assoc(old(out.bytes), LE(SlabIndex.SECTION_VERSION, 1), LE(|spec.slabIndex|, 4)
        + EncodeMany(SlabIndex.EncodeEntry, spec.slabIndex));
    }

    method EncodeEcParams(out: OutputBuffer) returns (present: bool)
      requires Encodable(spec)
      modifies out
      ensures out.bytes == old(out.bytes) + EncodeEc(spec.ecParams)
      ensures present == spec.ecParams.Some?
    {
      hide LE, EncodeMany;
      if spec.ecParams.None? { return false; }
      var p := spec.ecParams.value;
      ghost var front := out.bytes;
      ghost var a, b, d, e := LE(EcParams.SECTION_VERSION, 1), LE(p.k, 1), LE(p.m, 1), LE(p.polynomial, 2);
      ghost var body := LE(|p.overrides|, 4) + EncodeMany(EcParams.EncodeOverride, p.overrides);
      out.Push(EcParams.SECTION_VERSION);
      out.Push(p.k);
      out.Push(p.m);
      out.Extend(LE(p.polynomial, 2));
      EncodeOverrides(out, p.overrides);
      Nest4(front, a, b, d, e, body);
      return true;
    }

    method EncodeDmsPolicy(out: OutputBuffer) returns (present: bool)
      requires Encodable(spec)
      modifies out
      ensures out.bytes == old(out.bytes) + EncodeDms(spec.dmsPolicy)
      ensures present == spec.dmsPolicy.Some?
    {
      hide LE, EncodeMany, EncodeBlob;
      if spec.dmsPolicy.None? { return false; }
      var p := spec.dmsPolicy.value;
      ghost var front := out.bytes;
      ghost var a, b, d, e := LE(DmsPolicy.SECTION_VERSION, 1), LE(DmsPolicy.SCHEME_SHAMIR, 1), LE(p.k, 1), LE(p.n, 1);
      ghost var count, shares := LE(|p.shares|, 4), EncodeMany(DmsPolicy.EncodeShare, p.shares);
      out.Push(DmsPolicy.SECTION_VERSION);
      out.Push(DmsPolicy.SCHEME_SHAMIR);
      out.Push(p.k);
      out.Push(p.n);
      EncodeShares(out, p.shares);
      EncodeBytes(out, if p.hint.Some? then p.hint.value else []);
      ghost var hint := DmsPolicy.EncodeHint(p.hint);
      Assoc((((front + a) + b) + d) + e, count + shares, hint);
      Assoc(count, shares, hint);
      Nest4(front, a, b, d, e, count + (shares + hint));
      return true;
    }

    method EncodeHistory(out: OutputBuffer)
      requires Encodable(spec)
      modifies out
      ensures out.bytes == old(out.bytes) + History.Encode(spec.history)
    {
      hide LE, EncodeMany;
      out.Push(History.SECTION_VERSION);
      EncodeEntries(out, spec.history);
      Assoc(old(out.bytes), LE(History.SECTION_VERSION, 1), LE(|spec.history|, 4)
        + EncodeMany(History.EncodeEntry, spec.history));
    }

    /** The section hashes come from the offsets recorded while the vector grew. */
    method Build() returns (artifact: ManifestArtifact)
      requires Encodable(spec)
      ensures var m := ManifestOf(hash, spec);
        && artifact.bytes == Encode(m)
        && artifact.sectionHashes == HashesOf(hash, m.reference.metadataHash, SectionsOf(m))
        && artifact.merkleRoot == Root(hash, m)
    {
      hide Header.Encode, FeatureFlags.Encode, MetadataReference.Encode;
      hide SlabIndex.Encode, EncodeEc, EncodeDms, History.Encode;
      hide Encodable, ReferenceOf, Preimage;
      ghost var x := SectionsOf(ManifestOf(hash, spec));
      var out := new OutputBuffer();
      var headerStart := |out.bytes|;
      EncodeHeader(out);
      var headerEnd := |out.bytes|;
      ghost var b1 := out.bytes;

      var flagsStart := |out.bytes|;
      EncodeFeatureFlags(out);
      var flagsEnd := |out.bytes|;
      ghost var b2 := out.bytes;

      var referenceStart := |out.bytes|;
      var metadataHash := EncodeMetadataReference(out);
      var referenceEnd := |out.bytes|;
      ghost var b3 := out.bytes;

      var slabsStart := |out.bytes|;
      EncodeSlabIndex(out);
      var slabsEnd := |out.bytes|;
      ghost var b4 := out.bytes;

      var ecStart := |out.bytes|;
      var hasEc := EncodeEcParams(out);
      var ecEnd := |out.bytes|;
      ghost var b5 := out.bytes;

      var dmsStart := |out.bytes|;
      var hasDms := EncodeDmsPolicy(out);
      var dmsEnd := |out.bytes|;
      ghost var b6 := out.bytes;

      var historyStart := |out.bytes|;
      EncodeHistory(out);
      var historyEnd := |out.bytes|;
      var bytes := out.bytes;
      Offsets(x, b1, b2, b3, b4, b5, b6, bytes);
      AbsentIsEmpty(spec);

      var hashes := SectionHashes(
        metadataHash, hash(bytes[headerStart..headerEnd]), hash(bytes[flagsStart..flagsEnd]),
        hash(bytes[referenceStart..referenceEnd]), hash(bytes[slabsStart..slabsEnd]), hash([]),
        if hasEc then hash(bytes[ecStart..ecEnd]) else hash([]),
        if hasDms then hash(bytes[dmsStart..dmsEnd]) else hash([]),
        hash([]), hash(bytes[historyStart..historyEnd]));
      var root := ComputeMerkleRoot(hash, hashes);
      return ManifestArtifact(bytes, root, hashes);
    }
  }

  lemma Nest4(front: seq<byte>, a: seq<byte>, b: seq<byte>, c: seq<byte>, d: seq<byte>, body: seq<byte>)
    ensures ((((front + a) + b) + c) + d) + body == front + (a + (b + (c + (d + body))))
  {
    Assoc(((front + a) + b) + c, d, body);
    Assoc((front + a) + b, c, d + body);
    Assoc(front + a, b, c + (d + body));
    Assoc(front, a, b + (c + (d + body)));
  }

  lemma AbsentIsEmpty(spec: ManifestSpec)
    ensures spec.ecParams.None? ==> EncodeEc(spec.ecParams) == []
    ensures spec.dmsPolicy.None? ==> EncodeDms(spec.dmsPolicy) == []
  {
    hide EcParams.Encode, DmsPolicy.Encode;
  }

  /** A section appended when the vector was `before` long is found there at the end. */
  lemma Placed(before: seq<byte>, section: seq<byte>, after: seq<byte>, bytes: seq<byte>)
    requires after == before + section && after <= bytes
    ensures bytes[|before|..|after|] == section && before <= bytes
  {
  }

  /** The offsets recorded while printing cut the finished bytes into exactly the sections. */
  lemma Offsets(x: Sections, b1: seq<byte>, b2: seq<byte>, b3: seq<byte>, b4: seq<byte>, b5: seq<byte>, b6: seq<byte>,
    bytes: seq<byte>)
    requires b1 == x.header && b2 == b1 + x.flags && b3 == b2 + x.reference && b4 == b3 + x.slabIndex
    requires b5 == b4 + x.ecParams && b6 == b5 + x.dmsPolicy && bytes == b6 + x.history
    ensures bytes == Join(x)
    ensures |b1| <= |b2| <= |b3| <= |b4| <= |b5| <= |b6| <= |bytes|
    ensures bytes[0..|b1|] == x.header && bytes[|b1|..|b2|] == x.flags && bytes[|b2|..|b3|] == x.reference
    ensures bytes[|b3|..|b4|] == x.slabIndex && bytes[|b4|..|b5|] == x.ecParams && bytes[|b5|..|b6|] == x.dmsPolicy
    ensures bytes[|b6|..|bytes|] == x.history
  {
    Placed(b6, x.history, bytes, bytes);
    Placed(b5, x.dmsPolicy, b6, bytes);
    Placed(b4, x.ecParams, b5, bytes);
    Placed(b3, x.slabIndex, b4, bytes);
    Placed(b2, x.reference, b3, bytes);
    Placed(b1, x.flags, b2, bytes);
    Placed([], x.header, b1, bytes);
    var e6 := x.dmsPolicy + x.history;
    var e5 := x.ecParams + e6;
    var e4 := x.slabIndex + e5;
    Assoc(b5, x.dmsPolicy, x.history);
    Assoc(b4, x.ecParams, e6);
    Assoc(b3, x.slabIndex, e5);
    Assoc(b2, x.reference, e4);
    Assoc(b1, x.flags, x.reference + e4);
  }

  // ----- Builder and reader together -----

  /** Parsing what was built from a well-formed spec recovers every section and leaves nothing over. */
  lemma BuiltParses(hash: HashFunction, decompress: Decompressor, spec: ManifestSpec)
    requires WellFormed(hash, spec)
    ensures ParseManifest(decompress, Encode(ManifestOf(hash, spec))) == Done(ManifestOf(hash, spec), [])
  {
    hide ParseManifest, Encode, Valid, ManifestOf;
    WellFormedIsValid(hash, decompress, spec);
    var m := ManifestOf(hash, spec);
    RoundTrip(decompress, m, []);
    assert Encode(m) + [] == Encode(m);
  }

  /** Well-formed specs never make the builder panic. */
  lemma WellFormedEncodable(hash: HashFunction, spec: ManifestSpec)
    requires WellFormed(hash, spec)
    ensures Encodable(spec)
  {
    hide Locators.ValidUri, FeatureFlags.Declared, DistinctBy;
    forall i | 0 <= i < |spec.slabIndex| ensures ShortEach(spec.slabIndex[i].locators) {
      assert SlabIndex.ValidEntry(URI_CEILING, spec.slabIndex[i]);
    }
  }

  /** Section by section the same bytes, unless two of the hashed inputs collide. */
  ghost predicate SameSections(hash: HashFunction, a: Manifest, b: Manifest) {
    SectionsOf(a) == SectionsOf(b) || RootsCollide(hash, a, b)
  }

  /**
   * `try_round_trip`: build, read back, compare roots. It succeeds iff the reader accepts the built bytes and
   * its manifest has the builder's root; on every well-formed spec it does. A success on any spec means that
   * the manifest read has the spec's sections byte for byte, or that inputs hashed on the two sides collide.
   */
  method TryRoundTrip(hash: HashFunction, decompress: Decompressor, spec: ManifestSpec)
    returns (r: Option<ManifestView>)
    requires Encodable(spec) && |Encode(ManifestOf(hash, spec))| <= USIZE_MAX
    ensures MetadataReference.Interpret(decompress, ReferenceOf(hash, spec.reference)).Some?
    ensures WellFormed(hash, spec) ==> r == Some(ViewOf(hash, decompress, ManifestOf(hash, spec), 0))
    ensures var built, read := ManifestOf(hash, spec), ParseManifest(decompress, Encode(ManifestOf(hash, spec)));
      && (r.Some? <==> read.Done? && Root(hash, read.value) == Root(hash, built))
      && (r.Some? ==> r.value.merkleRoot == Root(hash, built))
      && (r.Some? ==> Valid(decompress, read.value) && SameSections(hash, read.value, built))
  {
    assert MetadataReference.Interpret(decompress, ReferenceOf(hash, spec.reference)).Some?;
    hide ParseManifest, Encode, SectionsOf, Valid, RootsCollide, Root, ReferenceOf, Encodable, WellFormed;
    hide MetadataReference.Interpret;
    if WellFormed(hash, spec) { BuiltParses(hash, decompress, spec); }
    ghost var built := ManifestOf(hash, spec);
    var builder := new ManifestBuilder(spec, hash);
    var artifact := builder.Build();
    var view := ReadManifest(artifact.bytes, hash, decompress);
    if view.Err? || view.value.merkleRoot != artifact.merkleRoot { return None; }
    ghost var m := ParseManifest(decompress, artifact.bytes).value;
    Canonical(decompress, artifact.bytes);
    if !RootsCollide(hash, m, built) { RootDeterminesSections(hash, m, built); }
    return Some(view.value);
  }
}
