/** Multihashes, CIDs and CARv1 archives: four layers of framing on top of varints. */
module Car {
  import opened Bytes
  import opened Bits
  import opened Wire
  import opened Varint

  const MULTIHASH_BLAKE3_256: u64 := 0x1E
  const CID_VERSION: u64 := 1
  const CID_CODEC_RAW: u64 := 0x55

  datatype CarBlock = CarBlock(digest: Digest, data: seq<byte>)

  // ----- Multihash and CID -----

  function Multihash(digest: Digest): seq<byte> {
    Varint.Encode(MULTIHASH_BLAKE3_256) + (Varint.Encode(32) + digest)
  }

  function Cid(digest: Digest): (s: seq<byte>)
    ensures |s| == 36
  {
    Varint.Encode(CID_VERSION) + (Varint.Encode(CID_CODEC_RAW) + Multihash(digest))
  }

  /** The bytes of a CID: version 1, the raw codec, BLAKE3 with 32 bytes, and the digest. */
  lemma CidLayout(digest: Digest)
    ensures Cid(digest) == [0x01, 0x55, 0x1E, 0x20] + digest
  {
    assert Varint.Encode(1) == [0x01] && Varint.Encode(0x55) == [0x55];
    assert Varint.Encode(0x1E) == [0x1E] && Varint.Encode(32) == [0x20];
  }

  /** `decode_blake3_multihash`. */
  function DecodeMultihash(s: seq<byte>): (r: Result<Digest, CarError>)
    ensures r.Ok? ==> |s| >= 34
  {
    match Varint.Decode(s)
    case Err(e) => Err(e)
    case Ok((code, n)) =>
      if code != MULTIHASH_BLAKE3_256 then Err(UnsupportedMultihash(code))
      else
        match Varint.Decode(s[n..])
        case Err(e) => Err(e)
        case Ok((len, k)) =>
          if len != 32 then Err(UnsupportedMultihash(len))
          else if |s| < n + k + 32 then Err(TruncatedMultihash)
          else Ok(s[n + k..n + k + 32])
  }

  /** `decode_raw_cid`, with its fixed width of the multihash; the bytes it claims are always there. */
  function DecodeCid(s: seq<byte>): (r: Result<(Digest, nat), CarError>)
    ensures r.Ok? ==> 36 <= r.value.1 <= |s|
  {
    match Varint.Decode(s)
    case Err(e) => Err(e)
    case Ok((version, n)) =>
      if version != CID_VERSION then Err(UnsupportedCidVersion(version))
      else
        match Varint.Decode(s[n..])
        case Err(e) => Err(e)
        case Ok((codec, k)) =>
          if codec != CID_CODEC_RAW then Err(UnsupportedCodec(codec))
          else
            match DecodeMultihash(s[n + k..])
            case Err(e) => Err(e)
            case Ok(digest) => Ok((digest, n + k + 2 + 32))
  }

  lemma MultihashRoundTrip(digest: Digest, rest: seq<byte>)
    ensures DecodeMultihash(Multihash(digest) + rest) == Ok(digest)
  {
    hide Varint.Encode, Varint.Decode;
    var s := Multihash(digest) + rest;
    var code, len := Varint.Encode(MULTIHASH_BLAKE3_256), Varint.Encode(32);
    Assoc(code, len + digest, rest);
    Assoc(len, digest, rest);
    Varint.RoundTrip(MULTIHASH_BLAKE3_256, len + (digest + rest));
    Varint.RoundTrip(32, digest + rest);
    assert s[|code|..] == len + (digest + rest);
    assert s[|code| + |len|..] == digest + rest;
    assert s[|code| + |len|..|code| + |len| + 32] == digest;
  }

  lemma CidRoundTrip(digest: Digest, rest: seq<byte>)
    ensures DecodeCid(Cid(digest) + rest) == Ok((digest, 36))
  {
    assert |Varint.Encode(CID_VERSION)| == 1 && |Varint.Encode(CID_CODEC_RAW)| == 1;
    hide Varint.Encode, Varint.Decode, Multihash, DecodeMultihash;
    var s := Cid(digest) + rest;
    var version, codec, hash := Varint.Encode(CID_VERSION), Varint.Encode(CID_CODEC_RAW), Multihash(digest);
    Assoc(version, codec + hash, rest);
    Assoc(codec, hash, rest);
    Varint.RoundTrip(CID_VERSION, codec + (hash + rest));
    Varint.RoundTrip(CID_CODEC_RAW, hash + rest);
    assert s[1..] == codec + (hash + rest);
    assert s[2..] == hash + rest;
    MultihashRoundTrip(digest, rest);
  }

  // ----- The fixed width -----

  /** How many bytes the two varints of an accepted CID's prefix take, and the two of its multihash. */
  function PrefixWidth(s: seq<byte>): nat
    requires DecodeCid(s).Ok?
  {
    var n := Varint.Decode(s).value.1;
    n + Varint.Decode(s[n..]).value.1
  }

  function HashPrefixWidth(s: seq<byte>): nat
    requires DecodeMultihash(s).Ok?
  {
    var n := Varint.Decode(s).value.1;
    n + Varint.Decode(s[n..]).value.1
  }

  /** Where an accepted CID really ends. */
  function CidEnd(s: seq<byte>): nat
    requires DecodeCid(s).Ok?
  {
    hide Varint.Decode, DecodeMultihash;
    PrefixWidth(s) + HashPrefixWidth(s[PrefixWidth(s)..]) + 32
  }

  /**
   * The fixed width never reaches past the end of the CID, so the data slice is in bounds; it is the
   * CID's true width iff both multihash varints are one byte, that is iff the fixed bytes stand there.
   */
  lemma FixedWidth(s: seq<byte>)
    requires DecodeCid(s).Ok?
    ensures DecodeCid(s).value.1 <= CidEnd(s) <= |s|
    ensures DecodeCid(s).value.1 == CidEnd(s) <==> s[PrefixWidth(s)..PrefixWidth(s) + 2] == [0x1E, 0x20]
  {
    hide Varint.Decode, DecodeMultihash, HashPrefixWidth;
    var t := s[PrefixWidth(s)..];
    HashPrefix(t);
    assert s[PrefixWidth(s)..PrefixWidth(s) + 2] == t[..2];
  }

  lemma HashPrefix(t: seq<byte>)
    requires DecodeMultihash(t).Ok?
    ensures 2 <= HashPrefixWidth(t) <= |t| - 32
    ensures HashPrefixWidth(t) == 2 <==> t[..2] == [0x1E, 0x20]
  {
    hide Varint.Decode;
    var (code, n) := Varint.Decode(t).value;
    var (len, k) := Varint.Decode(t[n..]).value;
    assert t[..2] == [t[0], t[1]];
    if n == 1 && k == 1 {
      OneByte(t);
      OneByte(t[1..]);
    }
    if t[0] == 0x1E && t[1] == 0x20 {
      FirstIsShort(t);
      FirstIsShort(t[1..]);
    }
  }

  lemma OneByte(s: seq<byte>)
    requires Varint.Decode(s).Ok? && Varint.Decode(s).value.1 == 1
    ensures Varint.Decode(s).value.0 == s[0]
  {
    assert s[..1] == [s[0]] && s[..1][1..] == [];
    assert Varint.GroupSum(s[..1]) == s[0];
  }

  /** A multihash code spelled in two bytes: accepted, and the digest's last byte is taken for data. */
  lemma OverlongCodeMisaligns(s: seq<byte>)
    requires |s| >= 37 && s[..5] == [0x01, 0x55, 0x9E, 0x00, 0x20]
    ensures DecodeCid(s) == Ok((s[5..37], 36)) && CidEnd(s) == 37
  {
    hide Varint.Decode, DecodeMultihash, HashPrefixWidth;
    assert s[0] == 0x01 && s[1] == 0x55 && s[2] == 0x9E && s[3] == 0x00 && s[4] == 0x20;
    FirstIsShort(s);
    FirstIsShort(s[1..]);
    OverlongMultihash(s[2..]);
    Nested(s, 2, 3, 35);
  }

  lemma OverlongMultihash(t: seq<byte>)
    requires |t| >= 35 && t[0] == 0x9E && t[1] == 0 && t[2] == 0x20
    ensures DecodeMultihash(t) == Ok(t[3..35]) && HashPrefixWidth(t) == 3
  {
    hide Varint.Decode;
    OverlongThirty(t);
    FirstIsShort(t[2..]);
  }

  lemma OverlongThirty(t: seq<byte>)
    requires |t| >= 2 && t[0] == 0x9E && t[1] == 0
    ensures Varint.Decode(t) == Ok((0x1E, 2))
  {
    assert Varint.Stop(t) == 1 by { assert Varint.Stop(t[1..]) == 0; }
    var front := t[..2];
    assert front == [0x9E, 0] && front[1..] == [0];
    GroupOfZero();
    assert Varint.GroupSum(front) == 0x1E;
  }

  lemma GroupOfZero()
    ensures Varint.GroupSum([0]) == 0
  {
    var z: seq<byte> := [0];
    assert z[1..] == [];
  }

  lemma FirstIsShort(s: seq<byte>)
    requires s != [] && s[0] < 128
    ensures Varint.Decode(s) == Ok((s[0], 1))
  {
    assert Varint.Stop(s) == 0;
    OneByte(s);
  }

  // ----- Archives -----

  /** `encode_car_header`; only the framing around it matters to the reader. */
  function CarHeader(rootCid: seq<byte>): (s: seq<byte>)
    ensures |s| == 18 + |rootCid|
  {
    [0xA2, 0x67, 0x76, 0x65, 0x72, 0x73, 0x69, 0x6F, 0x6E, 0x01, 0x65, 0x72, 0x6F, 0x6F, 0x74, 0x73, 0x81]
      + [0x40 + |rootCid| % 32] + rootCid
  }

  function RootCid(blocks: seq<CarBlock>): seq<byte> {
    if blocks == [] then [] else Cid(blocks[0].digest)
  }

  /**
   * The header's CBOR by position: a map of `version` to 1 and `roots` to one byte string. The length
   * announced for that string is the CID's only in an archive without blocks: 36 needs more than five bits.
   */
  lemma HeaderLayout(blocks: seq<CarBlock>)
    ensures var cid := RootCid(blocks); var s := CarHeader(cid);
      && |s| == 18 + |cid| && s[0] == 0xA2 && s[1] == 0x67 && s[2..9] == Ascii("version") && s[9] == 1
      && s[10] == 0x65 && s[11..16] == Ascii("roots") && s[16] == 0x81 && s[18..] == cid
      && (s[17] == 0x40 + |cid| <==> blocks == [])
  {
    var cid := RootCid(blocks);
    var s := CarHeader(cid);
    assert s[2..9] == [0x76, 0x65, 0x72, 0x73, 0x69, 0x6F, 0x6E] && s[11..16] == [0x72, 0x6F, 0x6F, 0x74, 0x73];
  }

  function Frame(b: CarBlock): seq<byte> {
    Varint.Encode(36 + |b.data|) + (Cid(b.digest) + b.data)
  }

  function Archive(blocks: seq<CarBlock>): seq<byte> {
    var header := CarHeader(RootCid(blocks));
    Varint.Encode(|header|) + (header + EncodeMany(Frame, blocks))
  }

  // ----- Writing -----

  method WriteCid(digest: Digest, out: OutputBuffer)
    modifies out
    ensures out.bytes == old(out.bytes) + Cid(digest)
  {
    hide Varint.Encode;
    ghost var front := out.bytes;
    ghost var a, b := Varint.Encode(CID_VERSION), Varint.Encode(CID_CODEC_RAW);
    ghost var c, d := Varint.Encode(MULTIHASH_BLAKE3_256), Varint.Encode(32);
    Varint.WriteVarint(CID_VERSION, out);
    Varint.WriteVarint(CID_CODEC_RAW, out);
    Varint.WriteVarint(MULTIHASH_BLAKE3_256, out);
    Varint.WriteVarint(32, out);
    out.Extend(digest);
    Assoc((((front + a) + b) + c), d, digest);
    Assoc(((front + a) + b), c, d + digest);
    Assoc(front + a, b, c + (d + digest));
    Assoc(front, a, b + (c + (d + digest)));
  }

  method WriteFrame(block: CarBlock, out: OutputBuffer)
    requires 36 + |block.data| <= USIZE_MAX
    modifies out
    ensures out.bytes == old(out.bytes) + Frame(block)
  {
    hide Varint.Encode, Cid;
    ghost var front, len := out.bytes, Varint.Encode(36 + |block.data|);
    Varint.WriteVarint(36 + |block.data|, out);
    WriteCid(block.digest, out);
    out.Extend(block.data);
    Assoc(front + len, Cid(block.digest), block.data);
    Assoc(front, len, Cid(block.digest) + block.data);
  }

  /** `encode_car_v1`. */
  method EncodeCar(blocks: seq<CarBlock>) returns (bytes: seq<byte>)
    requires forall i :: 0 <= i < |blocks| ==> 36 + |blocks[i].data| <= USIZE_MAX
    ensures bytes == Archive(blocks)
  {
    hide Varint.Encode, Cid, EncodeMany, Frame, CarHeader;
    var root := new OutputBuffer();
    if blocks != [] { WriteCid(blocks[0].digest, root); }
    assert root.bytes == RootCid(blocks);
    var header := CarHeader(root.bytes);
    var out := new OutputBuffer();
    Varint.WriteVarint(|header|, out);
    out.Extend(header);
    ghost var front := out.bytes;
    Nothing(Frame, blocks, front);
    var i := 0;
    while i < |blocks|
      invariant 0 <= i <= |blocks|
      invariant out.bytes == front + EncodeMany(Frame, blocks[..i])
    {
      Printed(Frame, blocks, i, front);
      WriteFrame(blocks[i], out);
      i := i + 1;
    }
    assert blocks[..|blocks|] == blocks;
    Assoc(Varint.Encode(|header|), header, EncodeMany(Frame, blocks));
    return out.bytes;
  }

  // ----- Reading -----

  /** Reading one frame at `pos`: the block and where the next frame starts. */
  function DecodeFrame(s: seq<byte>, pos: nat): (r: Result<(CarBlock, nat), CarError>)
    requires pos < |s| <= USIZE_MAX
    ensures r.Ok? ==> pos < r.value.1 <= |s|
  {
    match Varint.Decode(s[pos..])
    case Err(e) => Err(e)
    case Ok((len, n)) =>
      if pos + n + len > USIZE_MAX then Err(LengthOverflow)
      else if |s| < pos + n + len then Err(TruncatedBlock)
      else
        match DecodeBlock(s[pos + n..pos + n + len])
        case Err(e) => Err(e)
        case Ok(block) => Ok((block, pos + n + len))
  }

  /** The CID in front, and the rest as data. */
  function DecodeBlock(s: seq<byte>): Result<CarBlock, CarError> {
    match DecodeCid(s)
    case Err(e) => Err(e)
    case Ok((digest, width)) => Ok(CarBlock(digest, s[width..]))
  }

  function DecodeFrames(s: seq<byte>, pos: nat): Result<seq<CarBlock>, CarError>
    requires pos <= |s| <= USIZE_MAX
    decreases |s| - pos
  {
    if pos == |s| then Ok([])
    else
      match DecodeFrame(s, pos)
      case Err(e) => Err(e)
      case Ok((block, next)) =>
        match DecodeFrames(s, next)
        case Err(e) => Err(e)
        case Ok(blocks) => Ok([block] + blocks)
  }

  function DecodeArchive(s: seq<byte>): Result<seq<CarBlock>, CarError>
    requires |s| <= USIZE_MAX
  {
    match Varint.Decode(s)
    case Err(e) => Err(e)
    case Ok((len, n)) =>
      if n + len > USIZE_MAX then Err(LengthOverflow)
      else if |s| < n + len then Err(TruncatedHeader)
      else DecodeFrames(s, n + len)
  }

  /** `decode_car_v1`: every byte string gets an answer, with the position advancing at each turn. */
  method DecodeCar(s: seq<byte>) returns (r: Result<seq<CarBlock>, CarError>)
    requires |s| <= USIZE_MAX
    ensures r == DecodeArchive(s)
  {
    hide Varint.Decode, DecodeCid;
    var header := Varint.ReadVarint(s);
    if header.Err? { return Err(header.error); }
    var headerEnd := header.value.1 + header.value.0;
    if headerEnd > USIZE_MAX { return Err(LengthOverflow); }
    if |s| < headerEnd { return Err(TruncatedHeader); }
    var blocks: seq<CarBlock> := [];
    var pos := headerEnd;
    ghost var all := DecodeFrames(s, headerEnd);
    assert all.Ok? ==> blocks + all.value == all.value;
    while pos < |s|
      invariant 0 <= pos <= |s|
      invariant Continues(all, blocks, DecodeFrames(s, pos))
      decreases |s| - pos
    {
      var prefix := Varint.ReadVarint(s[pos..]);
      if prefix.Err? { return Err(prefix.error); }
      var start := pos + prefix.value.1;
      var end := start + prefix.value.0;
      if start > USIZE_MAX || end > USIZE_MAX { return Err(LengthOverflow); }
      if |s| < end { return Err(TruncatedBlock); }
      var block := s[start..end];
      var cid := DecodeCid(block);
      if cid.Err? { return Err(cid.error); }
      ghost var before := blocks;
      blocks := blocks + [CarBlock(cid.value.0, block[cid.value.1..])];
      Pushed(all, before, blocks[|before|], DecodeFrames(s, end));
      pos := end;
    }
    assert blocks + [] == blocks;
    return Ok(blocks);
  }

  /** With `read` decoded already, finishing with `left` finishes the whole. */
  ghost predicate Continues(
    all: Result<seq<CarBlock>, CarError>, read: seq<CarBlock>, left: Result<seq<CarBlock>, CarError>)
  {
    match left
    case Err(e) => all == Err(e)
    case Ok(blocks) => all == Ok(read + blocks)
  }

  lemma Pushed(
    all: Result<seq<CarBlock>, CarError>, read: seq<CarBlock>, block: CarBlock, left: Result<seq<CarBlock>, CarError>)
    requires left.Ok? ==> Continues(all, read, Ok([block] + left.value))
    requires left.Err? ==> Continues(all, read, left)
    ensures Continues(all, read + [block], left)
  {
    if left.Ok? { assert read + ([block] + left.value) == (read + [block]) + left.value; }
  }

  // ----- The round trip -----

  lemma FrameRoundTrip(s: seq<byte>, pos: nat, block: CarBlock, rest: seq<byte>)
    requires pos < |s| <= USIZE_MAX && s[pos..] == Frame(block) + rest
    ensures DecodeFrame(s, pos) == Ok((block, pos + |Frame(block)|))
  {
    hide Varint.Encode, Varint.Decode, Cid, DecodeBlock;
    var len, cid := Varint.Encode(36 + |block.data|), Cid(block.digest);
    Assoc(len, cid + block.data, rest);
    Varint.RoundTrip(36 + |block.data|, (cid + block.data) + rest);
    Middle(s, pos, len, cid + block.data, rest);
    BlockRoundTrip(block);
  }

  lemma Middle(s: seq<byte>, pos: nat, front: seq<byte>, mid: seq<byte>, rest: seq<byte>)
    requires pos <= |s| && s[pos..] == front + (mid + rest)
    ensures pos + |front| + |mid| <= |s| && s[pos + |front|..pos + |front| + |mid|] == mid
  {
    Nested(s, pos, |front|, |front| + |mid|);
  }

  lemma BlockRoundTrip(block: CarBlock)
    ensures DecodeBlock(Cid(block.digest) + block.data) == Ok(block)
  {
    hide Cid, DecodeCid;
    CidRoundTrip(block.digest, block.data);
    assert (Cid(block.digest) + block.data)[36..] == block.data;
  }

  lemma {:induction false} FramesRoundTrip(s: seq<byte>, pos: nat, blocks: seq<CarBlock>)
    requires pos <= |s| <= USIZE_MAX && s[pos..] == EncodeMany(Frame, blocks)
    ensures DecodeFrames(s, pos) == Ok(blocks)
    decreases |blocks|
  {
    hide Frame, DecodeFrame;
    if blocks == [] {
      assert |s[pos..]| == 0;
    } else {
      var rest := EncodeMany(Frame, blocks[1..]);
      FrameNonEmpty(blocks[0]);
      FrameRoundTrip(s, pos, blocks[0], rest);
      var next := pos + |Frame(blocks[0])|;
      assert s[next..] == s[pos..][|Frame(blocks[0])|..];
      assert s[next..] == rest;
      FramesRoundTrip(s, next, blocks[1..]);
      assert blocks == [blocks[0]] + blocks[1..];
    }
  }

  lemma FrameNonEmpty(block: CarBlock)
    ensures |Frame(block)| > 36
  {
  }

  /** Decoding an encoded archive gives back its blocks: any list, the empty one and empty data included. */
  lemma RoundTrip(blocks: seq<CarBlock>)
    requires |Archive(blocks)| <= USIZE_MAX
    ensures DecodeArchive(Archive(blocks)) == Ok(blocks)
  {
    hide Varint.Encode, Varint.Decode, Cid, Frame, EncodeMany, CarHeader, DecodeFrames;
    var header := CarHeader(RootCid(blocks));
    var s, len := Archive(blocks), Varint.Encode(|header|);
    Varint.RoundTrip(|header|, header + EncodeMany(Frame, blocks));
    assert s[|len| + |header|..] == EncodeMany(Frame, blocks);
    FramesRoundTrip(s, |len| + |header|, blocks);
  }

  // ----- When an accepted archive is the one the writer emits -----

  /** The varint in front is spelled as the writer spells it. */
  predicate PlainVarint(s: seq<byte>)
    requires Varint.Decode(s).Ok?
  {
    var n := Varint.Decode(s).value.1;
    Varint.Shortest(s[..n]) && Varint.GroupSum(s[..n]) < TWO64
  }

  /** The four varints of a CID are in their one-byte forms. */
  predicate PlainCid(s: seq<byte>) { |s| >= 4 && s[..4] == [0x01, 0x55, 0x1E, 0x20] }

  lemma CidBytes(digest: Digest)
    ensures Cid(digest) == [0x01, 0x55, 0x1E, 0x20] + digest
  {
  }

  lemma PlainBlockIff(s: seq<byte>)
    requires DecodeBlock(s).Ok?
    ensures var b := DecodeBlock(s).value; s == Cid(b.digest) + b.data <==> PlainCid(s)
  {
    hide DecodeCid, Cid;
    var b := DecodeBlock(s).value;
    CidBytes(b.digest);
    var front: seq<byte> := [0x01, 0x55, 0x1E, 0x20];
    if s == Cid(b.digest) + b.data {
      Assoc(front, b.digest, b.data);
      CutIff(s, 4, front, b.digest + b.data);
    }
    if PlainCid(s) {
      assert forall i :: 0 <= i < 4 ==> s[i] == s[..4][i];
      PlainDecodes(s);
      CutTwiceIff(s, 4, 32, front, b.digest, b.data);
      Assoc(front, b.digest, b.data);
    }
  }

  lemma CutIff(s: seq<byte>, n: nat, a: seq<byte>, b: seq<byte>)
    requires n <= |s|
    ensures s == a + b && |a| == n <==> s[..n] == a && s[n..] == b
  {
  }

  lemma CutTwiceIff(s: seq<byte>, n: nat, m: nat, a: seq<byte>, b: seq<byte>, c: seq<byte>)
    requires n + m <= |s|
    ensures s == a + (b + c) && |a| == n && |b| == m <==> s[..n] == a && s[n..n + m] == b && s[n + m..] == c
  {
    CutIff(s, n, a, b + c);
    CutIff(s[n..], m, b, c);
    assert s[n..][..m] == s[n..n + m] && s[n..][m..] == s[n + m..];
  }

  lemma CutFromIff(s: seq<byte>, pos: nat, next: nat, a: seq<byte>, b: seq<byte>)
    requires pos <= next <= |s|
    ensures s[pos..] == a + b && |a| == next - pos <==> s[pos..next] == a && s[next..] == b
  {
    CutIff(s[pos..], next - pos, a, b);
    Nested(s, pos, 0, next - pos);
    assert s[pos..][next - pos..] == s[next..];
  }

  lemma PlainDecodes(s: seq<byte>)
    requires DecodeCid(s).Ok? && s[0] == 0x01 && s[1] == 0x55 && s[2] == 0x1E && s[3] == 0x20
    ensures DecodeCid(s) == Ok((s[4..36], 36))
  {
    hide Varint.Decode;
    FirstIsShort(s);
    FirstIsShort(s[1..]);
    FirstIsShort(s[2..]);
    FirstIsShort(s[2..][1..]);
    Nested(s, 2, 2, 34);
  }

  /** One frame is the writer's iff its length is plainly spelled and so is its CID. */
  lemma PlainFrameIff(s: seq<byte>, pos: nat)
    requires pos < |s| <= USIZE_MAX && DecodeFrame(s, pos).Ok?
    ensures var (block, next) := DecodeFrame(s, pos).value; var n := Varint.Decode(s[pos..]).value.1;
      s[pos..next] == Frame(block) <==> PlainVarint(s[pos..]) && PlainCid(s[pos + n..next])
  {
    hide Varint.Encode, Varint.Decode, Cid, DecodeBlock, PlainCid, Varint.Shortest, Varint.GroupSum;
    var (block, next) := DecodeFrame(s, pos).value;
    var t, body := s[pos..], Cid(block.digest) + block.data;
    var (len, n) := Varint.Decode(t).value;
    PlainBlockIff(s[pos + n..next]);
    Varint.CanonicalIff(t);
    Nested(s, pos, 0, n);
    assert s[pos..next] == t[..n] + s[pos + n..next];
    if s[pos..next] == Frame(block) {
      assert t == s[pos..next] + s[next..];
      Assoc(Varint.Encode(36 + |block.data|), body, s[next..]);
      Varint.RoundTrip(36 + |block.data|, body + s[next..]);
      assert t[..n] == Varint.Encode(len) && s[pos + n..next] == body;
    }
  }

  ghost predicate PlainFrames(s: seq<byte>, pos: nat)
    requires pos <= |s| <= USIZE_MAX && DecodeFrames(s, pos).Ok?
    decreases |s| - pos
  {
    pos < |s| ==>
      var next, n := DecodeFrame(s, pos).value.1, Varint.Decode(s[pos..]).value.1;
      PlainVarint(s[pos..]) && PlainCid(s[pos + n..next]) && PlainFrames(s, next)
  }

  lemma {:induction false} PlainFramesIff(s: seq<byte>, pos: nat)
    requires pos <= |s| <= USIZE_MAX && DecodeFrames(s, pos).Ok?
    ensures s[pos..] == EncodeMany(Frame, DecodeFrames(s, pos).value) <==> PlainFrames(s, pos)
    decreases |s| - pos
  {
    if pos < |s| {
      var (block, next) := DecodeFrame(s, pos).value;
      var blocks, rest := DecodeFrames(s, pos).value, DecodeFrames(s, next).value;
      PlainFrameIff(s, pos);
      PlainFramesIff(s, next);
      assert blocks[0] == block && blocks[1..] == rest;
      var more := EncodeMany(Frame, rest);
      assert EncodeMany(Frame, blocks) == Frame(block) + more;
      assert PlainFrames(s, pos) <==> s[pos..next] == Frame(block) && s[next..] == more;
      hide DecodeFrame, Frame, PlainVarint, PlainCid, PlainFrames, EncodeMany, DecodeFrames;
      CutFromIff(s, pos, next, Frame(block), more);
      if s[pos..] == Frame(block) + more { FrameRoundTrip(s, pos, block, more); }
    }
  }

  /**
   * An accepted archive is what the writer emits for its blocks iff the header is the writer's, every length
   * is the shortest varint for it, and every CID has its four varints in one byte each.
   */
  lemma ReencodesIff(s: seq<byte>)
    requires |s| <= USIZE_MAX && DecodeArchive(s).Ok?
    ensures var blocks := DecodeArchive(s).value; var (len, n) := Varint.Decode(s).value;
      Archive(blocks) == s <==> PlainVarint(s) && s[n..n + len] == CarHeader(RootCid(blocks)) && PlainFrames(s, n + len)
  {
    hide Varint.Decode, DecodeFrames, CarHeader, RootCid, PlainFrames, PlainVarint, Archive;
    var (len, n) := Varint.Decode(s).value;
    ReencodesParts(s, len, n, DecodeArchive(s).value);
  }

  lemma ReencodesParts(s: seq<byte>, len: nat, n: nat, blocks: seq<CarBlock>)
    requires n + len <= |s| <= USIZE_MAX && Varint.Decode(s) == Ok((len, n)) && DecodeFrames(s, n + len) == Ok(blocks)
    ensures Archive(blocks) == s <==>
      PlainVarint(s) && s[n..n + len] == CarHeader(RootCid(blocks)) && PlainFrames(s, n + len)
  {
    hide Varint.Encode, Varint.Decode, CarHeader, RootCid, EncodeMany, Frame, DecodeFrames, PlainFrames;
    hide Varint.Shortest, Varint.GroupSum;
    var header, frames := CarHeader(RootCid(blocks)), EncodeMany(Frame, blocks);
    PlainFramesIff(s, n + len);
    Varint.CanonicalIff(s);
    CutTwiceIff(s, n, len, Varint.Encode(|header|), header, frames);
    if Archive(blocks) == s { Varint.RoundTrip(|header|, header + frames); }
  }
}
