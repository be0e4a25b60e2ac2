/** The DMS policy section: encoder, parser, and that the two are inverse. */
module DmsPolicy {
  import opened Bytes
  import opened Utf8
  import opened Wire

  const SECTION_VERSION := 1
  const SCHEME_SHAMIR := 0x00
  const SCHEME_EXTENDED := 0xFF
  const DEFAULT_SHARE_DATA_MAX: u32 := 1024
  const DEFAULT_HINT_MAX: u32 := 4096

  datatype ShareRecord = ShareRecord(custodianId: seq<byte>, shareData: seq<byte>)

  datatype DmsPolicy = DmsPolicy(k: byte, n: byte, shares: seq<ShareRecord>, hint: Option<seq<byte>>)

  /** The ceilings of `parse_dms_policy_with_ceilings`; a custodian id is held to the hint's. */
  datatype Ceilings = Ceilings(shareData: u32, hint: u32)

  // ----- Shares -----

  predicate ValidShare(max: Ceilings, r: ShareRecord) {
    && 0 < |r.custodianId| <= max.hint && IsUtf8(r.custodianId)
    && 0 < |r.shareData| <= max.shareData
  }

  function ShareKey(r: ShareRecord): seq<byte> { r.custodianId }

  function EncodeShare(r: ShareRecord): seq<byte> {
    EncodeBlob(r.custodianId) + EncodeBlob(r.shareData)
  }

  function ParseShare(max: Ceilings, s: seq<byte>): Parse<ShareRecord> {
    var (custodian, s1) :- TakeBlob(s, max.hint);
    if !IsUtf8(custodian) || custodian == [] then Fail
    else
      var (data, s2) :- TakeBlob(s1, max.shareData);
      if data == [] then Fail else Done(ShareRecord(custodian, data), s2)
  }

  function ShareParser(max: Ceilings): Parser<ShareRecord> { s => ParseShare(max, s) }

  function ShareTest(max: Ceilings): ShareRecord -> bool { r => ValidShare(max, r) }

  lemma ShareReads(max: Ceilings)
    ensures Reads(ShareParser(max), EncodeShare, ShareTest(max))
  {
    hide EncodeBlob, TakeBlob, IsUtf8;
    forall r: ShareRecord, rest | ShareTest(max)(r) ensures ShareParser(max)(EncodeShare(r) + rest) == Done(r, rest) {
      Assoc(EncodeBlob(r.custodianId), EncodeBlob(r.shareData), rest);
      BlobRoundTrip(r.custodianId, max.hint, EncodeBlob(r.shareData) + rest);
      BlobRoundTrip(r.shareData, max.shareData, rest);
    }
  }

  lemma ShareAccepts(max: Ceilings)
    ensures Accepts(ShareParser(max), EncodeShare, ShareTest(max))
  {
    hide EncodeBlob, TakeBlob, IsUtf8;
    forall s | ShareParser(max)(s).Done?
      ensures ShareTest(max)(ShareParser(max)(s).value)
      ensures s == EncodeShare(ShareParser(max)(s).value) + ShareParser(max)(s).rest
    {
      var r := ParseShare(max, s);
      BlobCanonical(s, max.hint);
      BlobCanonical(TakeBlob(s, max.hint).rest, max.shareData);
      Assoc(EncodeBlob(r.value.custodianId), EncodeBlob(r.value.shareData), r.rest);
    }
  }

  // ----- The hint: an empty blob stands for none -----

  predicate ValidHint(max: Ceilings, h: Option<seq<byte>>) {
    h.Some? ==> 0 < |h.value| <= max.hint && IsUtf8(h.value)
  }

  function EncodeHint(h: Option<seq<byte>>): seq<byte> {
    EncodeBlob(if h.Some? then h.value else [])
  }

  function ParseHint(max: Ceilings, s: seq<byte>): Parse<Option<seq<byte>>> {
    var (h, rest) :- TakeBlob(s, max.hint);
    if h == [] then Done(None, rest) else if IsUtf8(h) then Done(Some(h), rest) else Fail
  }

  lemma HintRoundTrip(max: Ceilings, h: Option<seq<byte>>, rest: seq<byte>)
    requires ValidHint(max, h)
    ensures ParseHint(max, EncodeHint(h) + rest) == Done(h, rest)
  {
    hide EncodeBlob, TakeBlob, IsUtf8;
    BlobRoundTrip(if h.Some? then h.value else [], max.hint, rest);
  }

  lemma HintCanonical(max: Ceilings, s: seq<byte>)
    requires ParseHint(max, s).Done?
    ensures ValidHint(max, ParseHint(max, s).value) && s == EncodeHint(ParseHint(max, s).value) + ParseHint(max, s).rest
  {
    hide EncodeBlob, TakeBlob, IsUtf8;
    BlobCanonical(s, max.hint);
  }

  // ----- The section -----

  /** `validate_shamir_params`. */
  predicate ValidShamirParams(k: int, n: int) { k >= 1 && n >= 1 && k <= n }

  predicate ValidPolicy(max: Ceilings, p: DmsPolicy) {
    && ValidShamirParams(p.k, p.n) && |p.shares| == p.n && ValidHint(max, p.hint)
    && DistinctBy(ShareKey, p.shares) && forall i :: 0 <= i < |p.shares| ==> ValidShare(max, p.shares[i])
  }

  function Encode(p: DmsPolicy): seq<byte> {
    LE(SECTION_VERSION, 1) + (LE(SCHEME_SHAMIR, 1) + (LE(p.k, 1) + (LE(p.n, 1) + (LE(|p.shares|, 4)
    + (EncodeMany(EncodeShare, p.shares) + EncodeHint(p.hint))))))
  }

  function ParsePolicy(max: Ceilings, s: seq<byte>): Parse<DmsPolicy> {
    var (version, s1) :- TakeUint(s, 1);
    var (scheme, s2) :- TakeUint(s1, 1);
    if version != SECTION_VERSION || scheme != SCHEME_SHAMIR then Fail
    else
      var (k, s3) :- TakeUint(s2, 1);
      var (n, s4) :- TakeUint(s3, 1);
      var (count, s5) :- TakeUint(s4, 4);
      if !ValidShamirParams(k, n) || count != n then Fail
      else
        var (shares, s6) :- ParseDistinct(ShareParser(max), ShareKey, count, s5);
        var (hint, s7) :- ParseHint(max, s6);
        Widths();
        Done(DmsPolicy(k, n, shares, hint), s7)
  }

  lemma EncodeOnto(p: DmsPolicy, rest: seq<byte>)
    ensures Encode(p) + rest == LE(SECTION_VERSION, 1) + (LE(SCHEME_SHAMIR, 1) + (LE(p.k, 1) + (LE(p.n, 1)
      + (LE(|p.shares|, 4) + (EncodeMany(EncodeShare, p.shares) + (EncodeHint(p.hint) + rest))))))
  {
    hide LE, EncodeMany, EncodeHint;
    var e6 := EncodeMany(EncodeShare, p.shares) + EncodeHint(p.hint);
    var e5 := LE(|p.shares|, 4) + e6;
    var e4 := LE(p.n, 1) + e5;
    var e3 := LE(p.k, 1) + e4;
    var e2 := LE(SCHEME_SHAMIR, 1) + e3;
    Assoc(LE(SECTION_VERSION, 1), e2, rest);
    Assoc(LE(SCHEME_SHAMIR, 1), e3, rest);
    Assoc(LE(p.k, 1), e4, rest);
    Assoc(LE(p.n, 1), e5, rest);
    Assoc(LE(|p.shares|, 4), e6, rest);
    Assoc(EncodeMany(EncodeShare, p.shares), EncodeHint(p.hint), rest);
  }

  lemma RoundTrip(max: Ceilings, p: DmsPolicy, rest: seq<byte>)
    requires ValidPolicy(max, p)
    ensures ParsePolicy(max, Encode(p) + rest) == Done(p, rest)
  {
    hide TakeUint, LE, EncodeMany, EncodeShare, ParseShare, EncodeHint, ParseHint, ValidHint;
    var t6 := EncodeHint(p.hint) + rest;
    var t5 := EncodeMany(EncodeShare, p.shares) + t6;
    var t4 := LE(|p.shares|, 4) + t5;
    var t3 := LE(p.n, 1) + t4;
    var t2 := LE(p.k, 1) + t3;
    Widths();
    EncodeOnto(p, rest);
    TakeUintRoundTrip(SECTION_VERSION, 1, LE(SCHEME_SHAMIR, 1) + t2);
    TakeUintRoundTrip(SCHEME_SHAMIR, 1, t2);
    TakeUintRoundTrip(p.k, 1, t3);
    TakeUintRoundTrip(p.n, 1, t4);
    TakeUintRoundTrip(|p.shares|, 4, t5);
    ShareReads(max);
    assert AllValid(ShareTest(max), p.shares);
    ManyReads(ShareParser(max), EncodeShare, ShareTest(max), p.shares, t6);
    HintRoundTrip(max, p.hint, rest);
  }

  lemma Canonical(max: Ceilings, s: seq<byte>)
    requires ParsePolicy(max, s).Done?
    ensures var r := ParsePolicy(max, s); ValidPolicy(max, r.value) && s == Encode(r.value) + r.rest
  {
    hide TakeUint, LE, EncodeMany, EncodeShare, ParseShare, EncodeHint, ParseHint, ValidHint;
    var s1 := TakeUint(s, 1).rest;
    var s2 := TakeUint(s1, 1).rest;
    var s3 := TakeUint(s2, 1).rest;
    var s4 := TakeUint(s3, 1).rest;
    var count, s5 := TakeUint(s4, 4).value, TakeUint(s4, 4).rest;
    var s6 := ParseDistinct(ShareParser(max), ShareKey, count, s5).rest;
    TakeUintCanonical(s, 1);
    TakeUintCanonical(s1, 1);
    TakeUintCanonical(s2, 1);
    TakeUintCanonical(s3, 1);
    TakeUintCanonical(s4, 4);
    ShareAccepts(max);
    ManyAccepts(ShareParser(max), EncodeShare, ShareTest(max), count, s5);
    HintCanonical(max, s6);
    var r := ParsePolicy(max, s);
    assert forall i :: 0 <= i < |r.value.shares| ==> ShareTest(max)(r.value.shares[i]);
    EncodeOnto(r.value, r.rest);
  }

  // ----- The parsers over a cursor -----

  /** `read_string_with_ceiling`. */
  method ReadString(c: ManifestCursor, ceiling: u32) returns (r: Result<seq<byte>, CoreError>)
    requires c.Valid()
    modifies c
    ensures c.Valid() && old(c.pos) <= c.pos
    ensures var p := TakeBlob(old(c.Rest()), ceiling);
      Follows(if p.Done? && !IsUtf8(p.value) then Fail else p, r, c.Rest())
  {
    hide TakeBlob, IsUtf8;
    var b := c.ReadBlob(ceiling);
    if b.Err? { return Err(b.error); }
    if !IsUtf8(b.value) { return Err(Corrupt); }
    return b;
  }

  /** `parse_share_record`. */
  method ReadShare(c: ManifestCursor, max: Ceilings) returns (r: Result<ShareRecord, CoreError>)
    requires c.Valid()
    modifies c
    ensures c.Valid() && old(c.pos) <= c.pos
    ensures Follows(ParseShare(max, old(c.Rest())), r, c.Rest())
  {
    hide TakeBlob, IsUtf8;
    var custodian := ReadString(c, max.hint);
    if custodian.Err? { return Err(custodian.error); }
    if custodian.value == [] { return Err(Corrupt); }
    var data := c.ReadBlob(max.shareData);
    if data.Err? { return Err(data.error); }
    if data.value == [] { return Err(Corrupt); }
    return Ok(ShareRecord(custodian.value, data.value));
  }

  /** `parse_reconstruction_hint`. */
  method ReadHint(c: ManifestCursor, max: Ceilings) returns (r: Result<Option<seq<byte>>, CoreError>)
    requires c.Valid()
    modifies c
    ensures c.Valid() && old(c.pos) <= c.pos
    ensures Follows(ParseHint(max, old(c.Rest())), r, c.Rest())
  {
    hide TakeBlob, IsUtf8;
    var h := c.ReadBlob(max.hint);
    if h.Err? { return Err(h.error); }
    if h.value == [] { return Ok(None); }
    if !IsUtf8(h.value) { return Err(Corrupt); }
    return Ok(Some(h.value));
  }

  /** The share loop; `seen` is the set of custodians met so far. */
  method ReadShares(c: ManifestCursor, max: Ceilings, count: nat) returns (r: Result<seq<ShareRecord>, CoreError>)
    requires c.Valid()
    modifies c
    ensures c.Valid() && old(c.pos) <= c.pos
    ensures Follows(ParseDistinct(ShareParser(max), ShareKey, count, old(c.Rest())), r, c.Rest())
  {
    hide ParseShare;
    ghost var p := ShareParser(max);
    ghost var all := ParseMany(p, count, c.Rest());
    ResumeStart(all);
    var shares: seq<ShareRecord> := [];
    var seen: set<seq<byte>> := {};
    var i := 0;
    while i < count
      invariant 0 <= i <= count && c.Valid() && old(c.pos) <= c.pos
      invariant DistinctBy(ShareKey, shares)
      invariant forall id :: id in seen <==> exists k :: 0 <= k < |shares| && ShareKey(shares[k]) == id
      invariant Resumes(all, shares, ParseMany(p, count - i, c.Rest()))
    {
      ResumeStep(p, all, shares, count - i, c.Rest());
      var share := ReadShare(c, max);
      if share.Err? { return Err(share.error); }
      if share.value.custodianId in seen {
        DuplicateSpoils(ShareKey, all, shares, share.value, ParseMany(p, count - i - 1, c.Rest()));
        return Err(Corrupt);
      }
      SeenSnoc(shares, seen, share.value);
      seen := seen + {share.value.custodianId};
      shares := shares + [share.value];
      i := i + 1;
    }
    ResumeEnd(p, all, shares, c.Rest());
    return Ok(shares);
  }

  lemma SeenSnoc(shares: seq<ShareRecord>, seen: set<seq<byte>>, x: ShareRecord)
    requires DistinctBy(ShareKey, shares) && x.custodianId !in seen
    requires forall id :: id in seen <==> exists k :: 0 <= k < |shares| && ShareKey(shares[k]) == id
    ensures DistinctBy(ShareKey, shares + [x])
    ensures forall id :: id in seen + {x.custodianId} <==>
      exists k :: 0 <= k < |shares + [x]| && ShareKey((shares + [x])[k]) == id
  {
    var all := shares + [x];
    DistinctSnoc(ShareKey, shares, x);
    forall id ensures id in seen + {x.custodianId} <==> exists k :: 0 <= k < |all| && ShareKey(all[k]) == id {
      if id == x.custodianId { assert ShareKey(all[|shares|]) == id; }
      if id in seen {
        var k :| 0 <= k < |shares| && ShareKey(shares[k]) == id;
        assert ShareKey(all[k]) == id;
      }
      if k :| 0 <= k < |all| && ShareKey(all[k]) == id {
        if k < |shares| { assert ShareKey(shares[k]) == id; }
      }
    }
  }

  /** `parse_dms_policy_with_ceilings`. */
  method Read(c: ManifestCursor, max: Ceilings) returns (r: Result<DmsPolicy, CoreError>)
    requires c.Valid()
    modifies c
    ensures c.Valid() && old(c.pos) <= c.pos
    ensures Follows(ParsePolicy(max, old(c.Rest())), r, c.Rest())
  {
    hide TakeUint, ParseHint, ParseDistinct;
    var version := c.ReadUint(1);
    if version.Err? { return Err(version.error); }
    if version.value != SECTION_VERSION { return Err(UnsupportedFeature); }
    var scheme := c.ReadUint(1);
    if scheme.Err? { return Err(scheme.error); }
    if scheme.value == SCHEME_EXTENDED { return Err(UnsupportedFeature); }
    if scheme.value != SCHEME_SHAMIR { return Err(UnsupportedFeature); }
    var k := c.ReadUint(1);
    if k.Err? { return Err(k.error); }
    var n := c.ReadUint(1);
    if n.Err? { return Err(n.error); }
    if !ValidShamirParams(k.value, n.value) { return Err(Corrupt); }
    var count := c.ReadUint(4);
    if count.Err? { return Err(count.error); }
    var narrowed := if count.value < 0x1_0000 then count.value else 0;
    if n.value != narrowed { return Err(Corrupt); }
    var shares := ReadShares(c, max, count.value);
    if shares.Err? { return Err(shares.error); }
    var hint := ReadHint(c, max);
    if hint.Err? { return Err(hint.error); }
    Widths();
    return Ok(DmsPolicy(k.value, n.value, shares.value, hint.value));
  }

  // ----- The bytes by position -----

  /** Version, scheme, k, n, the share count, the shares and at the end the hint. */
  lemma Layout(p: DmsPolicy)
    requires |p.shares| < 0x1_0000_0000
    ensures var s, shares := Encode(p), EncodeMany(EncodeShare, p.shares);
      var hint := if p.hint.Some? then p.hint.value else [];
      && |s| == 8 + |shares| + 4 + |hint|
      && s[0] == 1 && s[1] == 0 && s[2] == p.k && s[3] == p.n && U32(s, 4) == |p.shares|
      && At(s, 8, shares) && At(s, 8 + |shares|, EncodeBlob(hint))
  {
    hide LE, EncodeMany;
    var s, shares := Encode(p), EncodeMany(EncodeShare, p.shares);
    Widths();
    assert s[0..1] == LE(SECTION_VERSION, 1) && s[1..2] == LE(SCHEME_SHAMIR, 1) && s[2..3] == LE(p.k, 1);
    assert s[3..4] == LE(p.n, 1) && s[4..8] == LE(|p.shares|, 4) && s[8..] == shares + EncodeHint(p.hint);
    LEAt(s, 0, SECTION_VERSION, 1);
    LEAt(s, 1, SCHEME_SHAMIR, 1);
    LEAt(s, 2, p.k, 1);
    LEAt(s, 3, p.n, 1);
    LEAt(s, 4, |p.shares|, 4);
    assert s[8..8 + |shares|] == shares && s[8 + |shares|..] == EncodeHint(p.hint);
  }

  /** A share: the custodian behind its length, then the share data behind its length. */
  lemma ShareLayout(r: ShareRecord)
    requires |r.custodianId| < 0x1_0000_0000 && |r.shareData| < 0x1_0000_0000
    ensures var s, n := EncodeShare(r), |r.custodianId|;
      && |s| == 8 + n + |r.shareData| && U32(s, 0) == n && s[4..4 + n] == r.custodianId
      && U32(s, 4 + n) == |r.shareData| && s[8 + n..] == r.shareData
  {
    hide EncodeBlob;
    BlobLayout(r.custodianId);
    BlobLayout(r.shareData);
    var s, a, b := EncodeShare(r), EncodeBlob(r.custodianId), EncodeBlob(r.shareData);
    assert s[..|a|] == a && s[|a|..] == b;
    assert s[4..4 + |r.custodianId|] == a[4..] && s[8 + |r.custodianId|..] == b[4..];
    forall i | 0 <= i < 4 ensures s[i] == a[i] && s[|a| + i] == b[i] { }
  }
}
