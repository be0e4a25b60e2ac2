/** Slab identifiers: an ordinal and a hash, 40 bytes on the wire. */
module SlabIds {
  import opened Bytes
  import opened Wire

  datatype SlabId = SlabId(ordinal: u64, hash: Digest)

  /** `SlabId::to_bytes`. */
  function Encode(id: SlabId): (s: seq<byte>)
    ensures |s| == 40
  {
    LE(id.ordinal, 8) + id.hash
  }

  function ParseSlabId(s: seq<byte>): (r: Parse<SlabId>)
    ensures r.Done? ==> |r.rest| + 40 == |s|
  {
    var (ordinal, s1) :- TakeUint(s, 8);
    var (hash, s2) :- Take(s1, 32);
    Widths();
    Done(SlabId(ordinal, hash), s2)
  }

  lemma RoundTrip(id: SlabId, rest: seq<byte>)
    ensures ParseSlabId(Encode(id) + rest) == Done(id, rest)
  {
    Widths();
    assert Encode(id) + rest == LE(id.ordinal, 8) + (id.hash + rest);
    TakeUintRoundTrip(id.ordinal, 8, id.hash + rest);
    TakeRoundTrip(id.hash, rest);
  }

  lemma Canonical(s: seq<byte>)
    requires ParseSlabId(s).Done?
    ensures s == Encode(ParseSlabId(s).value) + ParseSlabId(s).rest
  {
    var s1 := TakeUint(s, 8).rest;
    TakeUintCanonical(s, 8);
    assert s1 == s1[..32] + s1[32..];
    assert s == LE(ParseSlabId(s).value.ordinal, 8) + (s1[..32] + s1[32..]);
  }

  method Read(c: ManifestCursor) returns (r: Result<SlabId, CoreError>)
    requires c.Valid()
    modifies c
    ensures c.Valid() && old(c.pos) <= c.pos
    ensures Follows(ParseSlabId(old(c.Rest())), r, c.Rest())
  {
    var ordinal := c.ReadUint(8);
    if ordinal.Err? { return Err(ordinal.error); }
    var hash := c.ReadN(32);
    if hash.Err? { return Err(hash.error); }
    Widths();
    return Ok(SlabId(ordinal.value, hash.value));
  }

  /** The ordinal, then the hash. */
  lemma Layout(id: SlabId)
    ensures U64(Encode(id), 0) == id.ordinal && Encode(id)[8..40] == id.hash
  {
    hide LE;
    Widths();
    assert Encode(id)[0..8] == LE(id.ordinal, 8);
    LEAt(Encode(id), 0, id.ordinal, 8);
  }
}
