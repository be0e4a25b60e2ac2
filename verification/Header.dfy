/** The 16-byte manifest header: encoder, parser, and that the two are inverse. */
module Header {
  import opened Bytes
  import opened Wire

  const MANIFEST_MAGIC: seq<byte> := [0x4C, 0x4D, 0x46, 0x53]
  const RESERVED: seq<byte> := [0, 0, 0, 0, 0, 0]

  datatype ManifestHeader = ManifestHeader(dropStoreVersion: u16, metadataVersion: u16, manifestVersion: u16)

  function Encode(h: ManifestHeader): (s: seq<byte>)
    ensures |s| == 16
  {
    MANIFEST_MAGIC + (LE(h.dropStoreVersion, 2) + (LE(h.metadataVersion, 2) + (LE(h.manifestVersion, 2) + RESERVED)))
  }

  function ParseHeader(s: seq<byte>): Parse<ManifestHeader> {
    var (magic, s1) :- Take(s, 4);
    if magic != MANIFEST_MAGIC then Fail
    else
      var (a, s2) :- TakeUint(s1, 2);
      var (b, s3) :- TakeUint(s2, 2);
      var (d, s4) :- TakeUint(s3, 2);
      var (reserved, s5) :- Take(s4, 6);
      Widths();
      if reserved != RESERVED then Fail else Done(ManifestHeader(a, b, d), s5)
  }

  lemma RoundTrip(h: ManifestHeader, rest: seq<byte>)
    ensures ParseHeader(Encode(h) + rest) == Done(h, rest)
  {
    hide LE, TakeUint;
    Widths();
    var t3 := LE(h.manifestVersion, 2) + RESERVED;
    var t2 := LE(h.metadataVersion, 2) + t3;
    var t1 := LE(h.dropStoreVersion, 2) + t2;
    Assoc(MANIFEST_MAGIC, t1, rest);
    Assoc(LE(h.dropStoreVersion, 2), t2, rest);
    Assoc(LE(h.metadataVersion, 2), t3, rest);
    Assoc(LE(h.manifestVersion, 2), RESERVED, rest);
    TakeRoundTrip(MANIFEST_MAGIC, t1 + rest);
    TakeUintRoundTrip(h.dropStoreVersion, 2, t2 + rest);
    TakeUintRoundTrip(h.metadataVersion, 2, t3 + rest);
    TakeUintRoundTrip(h.manifestVersion, 2, RESERVED + rest);
    TakeRoundTrip(RESERVED, rest);
  }

  lemma Canonical(s: seq<byte>)
    requires ParseHeader(s).Done?
    ensures s == Encode(ParseHeader(s).value) + ParseHeader(s).rest
  {
    hide LE, TakeUint;
    var h, rest := ParseHeader(s).value, ParseHeader(s).rest;
    var s1 := Take(s, 4).rest;
    var s2 := TakeUint(s1, 2).rest;
    var s3 := TakeUint(s2, 2).rest;
    var s4 := TakeUint(s3, 2).rest;
    assert s == s[..4] + s1 && s4 == s4[..6] + rest;
    TakeUintCanonical(s1, 2);
    TakeUintCanonical(s2, 2);
    TakeUintCanonical(s3, 2);
    var t3 := LE(h.manifestVersion, 2) + RESERVED;
    var t2 := LE(h.metadataVersion, 2) + t3;
    Assoc(LE(h.manifestVersion, 2), RESERVED, rest);
    Assoc(LE(h.metadataVersion, 2), t3, rest);
    Assoc(LE(h.dropStoreVersion, 2), t2, rest);
    Assoc(MANIFEST_MAGIC, LE(h.dropStoreVersion, 2) + t2, rest);
  }

  /** `ManifestHeader::to_bytes`, filling a zeroed array in place. */
  method ToBytes(h: ManifestHeader) returns (out: array<byte>)
    ensures fresh(out) && out[..] == Encode(h)
  {
    out := new byte[16](_ => 0);
    out[0], out[1], out[2], out[3] := 0x4C, 0x4D, 0x46, 0x53;
    out[4], out[5] := h.dropStoreVersion % 256, h.dropStoreVersion / 256;
    out[6], out[7] := h.metadataVersion % 256, h.metadataVersion / 256;
    out[8], out[9] := h.manifestVersion % 256, h.manifestVersion / 256;
    TwoBytes(h.dropStoreVersion);
    TwoBytes(h.metadataVersion);
    TwoBytes(h.manifestVersion);
  }

  lemma TwoBytes(n: u16)
    ensures LE(n, 2) == [n % 256, n / 256]
  {
    assert LE(n, 2) == [n % 256] + LE(n / 256, 1);
    assert LE(n / 256, 1) == [n / 256 % 256] + LE(n / 256 / 256, 0);
  }

  /** `parse_manifest_header`. */
  method Read(c: ManifestCursor) returns (r: Result<ManifestHeader, CoreError>)
    requires c.Valid()
    modifies c
    ensures c.Valid() && old(c.pos) <= c.pos
    ensures Follows(ParseHeader(old(c.Rest())), r, c.Rest())
    ensures |old(c.Rest())| >= 4 && old(c.Rest())[..4] != MANIFEST_MAGIC ==> r == Err(BadMagic(old(c.Rest())[..4]))
  {
    hide TakeUint;
    var magic := c.ReadN(4);
    if magic.Err? { return Err(magic.error); }
    if magic.value != MANIFEST_MAGIC { return Err(BadMagic(magic.value)); }
    var a := c.ReadUint(2);
    if a.Err? { return Err(a.error); }
    var b := c.ReadUint(2);
    if b.Err? { return Err(b.error); }
    var d := c.ReadUint(2);
    if d.Err? { return Err(d.error); }
    var reserved := c.ReadN(6);
    if reserved.Err? { return Err(reserved.error); }
    if exists i :: 0 <= i < 6 && reserved.value[i] != 0 { return Err(Corrupt); }
    assert reserved.value == RESERVED;
    Widths();
    return Ok(ManifestHeader(a.value, b.value, d.value));
  }

  /** The sixteen bytes: `LMFS`, three 16-bit versions and six zeros. */
  lemma Layout(h: ManifestHeader)
    ensures var s := Encode(h);
      && |s| == 16 && s[0..4] == Ascii("LMFS")
      && U16(s, 4) == h.dropStoreVersion && U16(s, 6) == h.metadataVersion && U16(s, 8) == h.manifestVersion
      && s[10..16] == [0, 0, 0, 0, 0, 0]
  {
    hide LE;
    var s := Encode(h);
    Widths();
    assert s[0..4] == MANIFEST_MAGIC;
    assert s[4..6] == LE(h.dropStoreVersion, 2) && s[6..8] == LE(h.metadataVersion, 2);
    assert s[8..10] == LE(h.manifestVersion, 2) && s[10..16] == RESERVED;
    LEAt(s, 4, h.dropStoreVersion, 2);
    LEAt(s, 6, h.metadataVersion, 2);
    LEAt(s, 8, h.manifestVersion, 2);
  }
}
