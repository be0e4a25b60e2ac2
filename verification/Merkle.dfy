/** The manifest root: one hash over a domain separator and ten section hashes. */
module Merkle {
  import opened Bytes
  import opened Wire

  /** ASCII `limnifs/v1`. */
  const DOMAIN_SEPARATOR: seq<byte> := [0x6C, 0x69, 0x6D, 0x6E, 0x69, 0x66, 0x73, 0x2F, 0x76, 0x31]

  datatype SectionHashes = SectionHashes(
    metadata: Digest, formatHeader: Digest, featureFlags: Digest, metadataReference: Digest, slabIndex: Digest,
    cryptoParams: Digest, ecParams: Digest, dmsPolicy: Digest, deltaLinkage: Digest, history: Digest)
  {
    /** The slots in hashing order. */
    function Slots(): (slots: seq<Digest>)
      ensures |slots| == 10
    {
      [metadata, formatHeader, featureFlags, metadataReference, slabIndex,
       cryptoParams, ecParams, dmsPolicy, deltaLinkage, history]
    }
  }

  function Concat(parts: seq<seq<byte>>): seq<byte> {
    if parts == [] then [] else parts[0] + Concat(parts[1..])
  }

  /** The bytes the hasher is fed. */
  function Preimage(hashes: SectionHashes): seq<byte> {
    Concat([DOMAIN_SEPARATOR] + hashes.Slots())
  }

  lemma {:induction false} ConcatSnoc(parts: seq<seq<byte>>, last: seq<byte>)
    ensures Concat(parts + [last]) == Concat(parts) + last
  {
    if parts == [] {
      assert Concat([last]) == last + Concat([]);
    } else {
      ConcatSnoc(parts[1..], last);
      assert (parts + [last])[1..] == parts[1..] + [last];
    }
  }

  /** Equally many digests with the same concatenation are the same digests: the input splits one way. */
  lemma {:induction false} DigestsSplit(a: seq<Digest>, b: seq<Digest>)
    requires |a| == |b| && Concat(a) == Concat(b)
    ensures a == b
  {
    if a != [] {
      assert Concat(a)[..32] == a[0] && Concat(b)[..32] == b[0];
      assert Concat(a)[32..] == Concat(a[1..]) && Concat(b)[32..] == Concat(b[1..]);
      DigestsSplit(a[1..], b[1..]);
      assert a == [a[0]] + a[1..] && b == [b[0]] + b[1..];
    }
  }

  lemma {:induction false} DigestsLength(a: seq<Digest>)
    ensures |Concat(a)| == 32 * |a|
  {
    if a != [] { DigestsLength(a[1..]); }
  }

  /** The input is 330 bytes and determines all ten hashes. */
  lemma PreimageDetermines(a: SectionHashes, b: SectionHashes)
    ensures |Preimage(a)| == 330
    ensures Preimage(a) == Preimage(b) ==> a == b
  {
    var xs, ys := a.Slots(), b.Slots();
    assert ([DOMAIN_SEPARATOR] + xs)[1..] == xs && ([DOMAIN_SEPARATOR] + ys)[1..] == ys;
    DigestsLength(xs);
    if Preimage(a) == Preimage(b) {
      assert Preimage(a)[10..] == Concat(xs) && Preimage(b)[10..] == Concat(ys);
      DigestsSplit(xs, ys);
      assert forall i :: 0 <= i < 10 ==> xs[i] == ys[i];
      assert xs[0] == ys[0] && xs[1] == ys[1] && xs[2] == ys[2] && xs[3] == ys[3] && xs[4] == ys[4];
      assert xs[5] == ys[5] && xs[6] == ys[6] && xs[7] == ys[7] && xs[8] == ys[8] && xs[9] == ys[9];
    }
  }

  lemma {:induction false} DigestAt(a: seq<Digest>, i: nat)
    requires i < |a|
    ensures 32 * i + 32 <= |Concat(a)| && Concat(a)[32 * i..32 * i + 32] == a[i]
    decreases i
  {
    DigestsLength(a);
    var s := Concat(a);
    assert s[32..] == Concat(a[1..]);
    if i > 0 {
      DigestAt(a[1..], i - 1);
      assert s[32..][32 * (i - 1)..32 * i] == s[32 * i..32 * i + 32];
    }
  }

  /** The input by position: the separator, then each section's hash in its fixed place. */
  lemma PreimageLayout(h: SectionHashes)
    ensures var p := Preimage(h);
      && |p| == 330 && p[..10] == Ascii("limnifs/v1")
      && p[10..42] == h.metadata && p[42..74] == h.formatHeader && p[74..106] == h.featureFlags
      && p[106..138] == h.metadataReference && p[138..170] == h.slabIndex && p[170..202] == h.cryptoParams
      && p[202..234] == h.ecParams && p[234..266] == h.dmsPolicy && p[266..298] == h.deltaLinkage
      && p[298..330] == h.history
  {
    PreimageDetermines(h, h);
    var p, slots := Preimage(h), h.Slots();
    assert ([DOMAIN_SEPARATOR] + slots)[1..] == slots;
    assert p[..10] == DOMAIN_SEPARATOR && p[10..] == Concat(slots);
    SeparatorText();
    hide Concat, Preimage, Ascii;
    SlotAt(p, slots, 0);
    SlotAt(p, slots, 1);
    SlotAt(p, slots, 2);
    SlotAt(p, slots, 3);
    SlotAt(p, slots, 4);
    SlotAt(p, slots, 5);
    SlotAt(p, slots, 6);
    SlotAt(p, slots, 7);
    SlotAt(p, slots, 8);
    SlotAt(p, slots, 9);
  }

  lemma SeparatorText()
    ensures DOMAIN_SEPARATOR == Ascii("limnifs/v1")
  {
  }

  lemma SlotAt(p: seq<byte>, slots: seq<Digest>, i: nat)
    requires i < |slots| && |p| >= 10 && p[10..] == Concat(slots)
    ensures 42 + 32 * i <= |p| && p[10 + 32 * i..42 + 32 * i] == slots[i]
  {
    DigestAt(slots, i);
    hide Concat;
    Nested(p, 10, 32 * i, 32 * i + 32);
  }

  /** An incremental hasher: the digest of everything it was fed, in order. */
  class Hasher {
    const hash: HashFunction
    var fed: seq<byte>

    constructor (hash: HashFunction)
      ensures this.hash == hash && fed == []
    {
      this.hash, fed := hash, [];
    }

    method Update(data: seq<byte>)
      modifies this
      ensures fed == old(fed) + data
    {
      fed := fed + data;
    }

    method Finalize() returns (digest: Digest)
      ensures digest == hash(fed)
    {
      return hash(fed);
    }
  }

  /** `compute_merkle_root`. */
  method ComputeMerkleRoot(hash: HashFunction, hashes: SectionHashes) returns (root: Digest)
    ensures root == hash(Preimage(hashes))
  {
    hide Concat;
    var state := new Hasher(hash);
    ghost var parts: seq<seq<byte>> := [DOMAIN_SEPARATOR] + hashes.Slots();
    ConcatTake(parts, 0);
    state.Update(DOMAIN_SEPARATOR);
    ConcatTake(parts, 1);
    state.Update(hashes.metadata);
    ConcatTake(parts, 2);
    state.Update(hashes.formatHeader);
    ConcatTake(parts, 3);
    state.Update(hashes.featureFlags);
    ConcatTake(parts, 4);
    state.Update(hashes.metadataReference);
    ConcatTake(parts, 5);
    state.Update(hashes.slabIndex);
    ConcatTake(parts, 6);
    state.Update(hashes.cryptoParams);
    ConcatTake(parts, 7);
    state.Update(hashes.ecParams);
    ConcatTake(parts, 8);
    state.Update(hashes.dmsPolicy);
    ConcatTake(parts, 9);
    state.Update(hashes.deltaLinkage);
    ConcatTake(parts, 10);
    state.Update(hashes.history);
    assert state.fed == Concat(parts[..11]);
    assert parts[..11] == parts;
    root := state.Finalize();
  }

  /** Feeding one more part. */
  lemma ConcatTake(parts: seq<seq<byte>>, n: nat)
    requires n < |parts|
    ensures Concat(parts[..n + 1]) == Concat(parts[..n]) + parts[n]
    ensures n == 0 ==> Concat(parts[..n]) == []
  {
    assert parts[..n + 1] == parts[..n] + [parts[n]];
    ConcatSnoc(parts[..n], parts[n]);
  }
}
