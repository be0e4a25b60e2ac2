/** Locator entries: length-prefixed URIs, alone and in counted lists. */
module Locators {
  import opened Bytes
  import opened Utf8
  import opened Wire

  const MIN_URI_BYTES := 4
  const DEFAULT_MAX_URI_BYTES: u32 := 4096
  const COLON: byte := 0x3A

  predicate Alphabetic(b: byte) { 0x41 <= b <= 0x5A || 0x61 <= b <= 0x7A }

  predicate SchemeByte(b: byte) {
    Alphabetic(b) || 0x30 <= b <= 0x39 || b == 0x2B || b == 0x2D || b == 0x2E
  }

  /** `is_valid_scheme`: section 3.1 of RFC 3986. */
  predicate ValidScheme(s: seq<byte>) {
    s != [] && Alphabetic(s[0]) && forall i :: 0 < i < |s| ==> SchemeByte(s[i])
  }

  function FirstColon(s: seq<byte>): (i: nat)
    ensures i <= |s|
  {
    if s == [] || s[0] == COLON then 0 else FirstColon(s[1..]) + 1
  }

  /** The checks of `parse_locator_entry_with_ceiling` after the ceiling. */
  predicate ValidUri(uri: seq<byte>) {
    && |uri| >= MIN_URI_BYTES && IsUtf8(uri)
    && FirstColon(uri) < |uri| && ValidScheme(uri[..FirstColon(uri)]) && uri[FirstColon(uri) + 1..] != []
  }

  predicate LetterText(c: char) { 'a' <= c <= 'z' || 'A' <= c <= 'Z' }

  predicate SchemeText(c: char) { LetterText(c) || '0' <= c <= '9' || c == '+' || c == '-' || c == '.' }

  /** `scheme` is a letter followed by letters, digits, `+`, `-` and `.`. */
  ghost predicate IsScheme(scheme: seq<byte>) {
    && scheme != [] && LetterText(scheme[0] as char)
    && forall i :: 0 <= i < |scheme| ==> SchemeText(scheme[i] as char)
  }

  lemma {:induction false} FirstColonIs(scheme: seq<byte>, rest: seq<byte>)
    requires COLON !in scheme
    ensures FirstColon(scheme + [COLON] + rest) == |scheme|
    decreases |scheme|
  {
    if scheme != [] {
      assert scheme[0] != COLON;
      assert (scheme + [COLON] + rest)[1..] == scheme[1..] + [COLON] + rest;
      FirstColonIs(scheme[1..], rest);
    }
  }

  lemma {:induction false} FirstColonAt(s: seq<byte>)
    ensures FirstColon(s) < |s| ==> s[FirstColon(s)] == COLON
  {
    if s != [] && s[0] != COLON { FirstColonAt(s[1..]); }
  }

  /** A locator is UTF-8 of at least four bytes: a scheme, a colon and something after it. */
  lemma ValidUriIff(uri: seq<byte>)
    ensures ValidUri(uri) <==>
      && |uri| >= 4 && IsUtf8(uri)
      && exists scheme, rest :: IsScheme(scheme) && rest != [] && uri == scheme + Ascii(":") + rest
  {
    hide IsUtf8, IsScheme;
    assert Ascii(":") == [COLON];
    if ValidUri(uri) {
      var n := FirstColon(uri);
      SchemeOf(uri);
      assert uri == uri[..n] + [COLON] + uri[n + 1..];
    }
    if scheme, rest :| IsScheme(scheme) && rest != [] && uri == scheme + Ascii(":") + rest {
      SplitAtColon(uri, scheme, rest);
    }
  }

  lemma SplitAtColon(uri: seq<byte>, scheme: seq<byte>, rest: seq<byte>)
    requires IsScheme(scheme) && uri == scheme + [COLON] + rest
    ensures FirstColon(uri) == |scheme| && ValidScheme(uri[..|scheme|]) && uri[|scheme| + 1..] == rest
  {
    SchemeHasNoColon(scheme);
    FirstColonIs(scheme, rest);
    hide FirstColon, ValidScheme, IsScheme;
    assert uri[..|scheme|] == scheme;
  }

  lemma SchemeOf(uri: seq<byte>)
    requires ValidUri(uri)
    ensures IsScheme(uri[..FirstColon(uri)]) && uri[FirstColon(uri)] == COLON
  {
    hide IsUtf8;
    FirstColonAt(uri);
  }

  lemma SchemeHasNoColon(scheme: seq<byte>)
    requires IsScheme(scheme)
    ensures COLON !in scheme && ValidScheme(scheme)
  {
    forall i | 0 <= i < |scheme| ensures scheme[i] != COLON && SchemeByte(scheme[i]) {
      assert SchemeText(scheme[i] as char);
    }
  }

  predicate ValidLocator(max: u32, uri: seq<byte>) { |uri| <= max && ValidUri(uri) }

  function ParseLocator(max: u32, s: seq<byte>): (r: Parse<seq<byte>>)
    ensures r.Done? ==> |r.rest| + 8 <= |s|
  {
    var (uri, rest) :- TakeBlob(s, max);
    if ValidUri(uri) then Done(uri, rest) else Fail
  }

  function LocatorParser(max: u32): Parser<seq<byte>> { s => ParseLocator(max, s) }

  function LocatorTest(max: u32): seq<byte> -> bool { uri => ValidLocator(max, uri) }

  lemma LocatorReads(max: u32)
    ensures Reads(LocatorParser(max), EncodeBlob, LocatorTest(max))
  {
    hide EncodeBlob, TakeBlob, ValidUri;
    forall uri: seq<byte>, rest | LocatorTest(max)(uri)
      ensures LocatorParser(max)(EncodeBlob(uri) + rest) == Done(uri, rest)
    {
      BlobRoundTrip(uri, max, rest);
    }
  }

  lemma LocatorAccepts(max: u32)
    ensures Accepts(LocatorParser(max), EncodeBlob, LocatorTest(max))
  {
    hide EncodeBlob, TakeBlob, ValidUri;
    forall s | LocatorParser(max)(s).Done?
      ensures LocatorTest(max)(LocatorParser(max)(s).value)
      ensures s == EncodeBlob(LocatorParser(max)(s).value) + LocatorParser(max)(s).rest
    {
      BlobCanonical(s, max);
    }
  }

  // ----- Counted lists -----

  predicate ValidList(max: u32, uris: seq<seq<byte>>) {
    |uris| < 0x1_0000_0000 && forall i :: 0 <= i < |uris| ==> ValidLocator(max, uris[i])
  }

  function EncodeList(uris: seq<seq<byte>>): seq<byte> {
    LE(|uris|, 4) + EncodeMany(EncodeBlob, uris)
  }

  function ParseList(max: u32, s: seq<byte>): (r: Parse<seq<seq<byte>>>) {
    var (count, rest) :- TakeUint(s, 4);
    ParseMany(LocatorParser(max), count, rest)
  }

  lemma ListRoundTrip(max: u32, uris: seq<seq<byte>>, rest: seq<byte>)
    requires ValidList(max, uris)
    ensures ParseList(max, EncodeList(uris) + rest) == Done(uris, rest)
  {
    hide LE, TakeUint, EncodeMany, EncodeBlob, ParseLocator, ValidLocator;
    var body := EncodeMany(EncodeBlob, uris);
    Widths();
    Assoc(LE(|uris|, 4), body, rest);
    TakeUintRoundTrip(|uris|, 4, body + rest);
    LocatorReads(max);
    assert AllValid(LocatorTest(max), uris);
    ManyReads(LocatorParser(max), EncodeBlob, LocatorTest(max), uris, rest);
  }

  lemma ListCanonical(max: u32, s: seq<byte>)
    requires ParseList(max, s).Done?
    ensures var r := ParseList(max, s);
      ValidList(max, r.value) && s == EncodeList(r.value) + r.rest && |r.rest| + 4 <= |s|
  {
    hide LE, TakeUint, EncodeMany, EncodeBlob, ParseLocator, ValidLocator;
    var t := TakeUint(s, 4);
    Widths();
    TakeUintCanonical(s, 4);
    LocatorAccepts(max);
    ManyAccepts(LocatorParser(max), EncodeBlob, LocatorTest(max), t.value, t.rest);
    var r := ParseList(max, s);
    assert forall i :: 0 <= i < |r.value| ==> LocatorTest(max)(r.value[i]);
    Assoc(LE(t.value, 4), EncodeMany(EncodeBlob, r.value), r.rest);
  }

  // ----- Over a cursor -----

  /** `parse_locator_entry_with_ceiling`. */
  method ReadLocator(c: ManifestCursor, max: u32) returns (r: Result<seq<byte>, CoreError>)
    requires c.Valid()
    modifies c
    ensures c.Valid() && old(c.pos) <= c.pos
    ensures Follows(ParseLocator(max, old(c.Rest())), r, c.Rest())
  {
    var uri := c.ReadBlob(max);
    if uri.Err? { return Err(uri.error); }
    if |uri.value| < MIN_URI_BYTES || !IsUtf8(uri.value) { return Err(Corrupt); }
    var colon := FirstColon(uri.value);
    if colon == |uri.value| { return Err(Corrupt); }
    if colon == 0 || !ValidScheme(uri.value[..colon]) { return Err(Corrupt); }
    if colon + 1 == |uri.value| { return Err(Corrupt); }
    return uri;
  }

  /** `parse_locator_entries_with_ceiling`, the count already read. */
  method ReadMany(c: ManifestCursor, max: u32, count: nat) returns (r: Result<seq<seq<byte>>, CoreError>)
    requires c.Valid()
    modifies c
    ensures c.Valid() && old(c.pos) <= c.pos
    ensures Follows(ParseMany(LocatorParser(max), count, old(c.Rest())), r, c.Rest())
  {
    hide ParseLocator;
    ghost var p := LocatorParser(max);
    ghost var all := ParseMany(p, count, c.Rest());
    if c.RemainingLen() < count * 8 {
      if all.Done? { ManyNeeds(p, 8, count, c.Rest()); }
      return Err(TooShort(c.RemainingLen(), count * 8));
    }
    ResumeStart(all);
    var uris: seq<seq<byte>> := [];
    var i := 0;
    while i < count
      invariant 0 <= i <= count && c.Valid() && old(c.pos) <= c.pos
      invariant Resumes(all, uris, ParseMany(p, count - i, c.Rest()))
    {
      ResumeStep(p, all, uris, count - i, c.Rest());
      var uri := ReadLocator(c, max);
      if uri.Err? { return Err(uri.error); }
      uris := uris + [uri.value];
      i := i + 1;
    }
    ResumeEnd(p, all, uris, c.Rest());
    return Ok(uris);
  }

  method ReadList(c: ManifestCursor, max: u32) returns (r: Result<seq<seq<byte>>, CoreError>)
    requires c.Valid()
    modifies c
    ensures c.Valid() && old(c.pos) <= c.pos
    ensures Follows(ParseList(max, old(c.Rest())), r, c.Rest())
  {
    var count := c.ReadUint(4);
    if count.Err? { return Err(count.error); }
    r := ReadMany(c, max, count.value);
  }

  // ----- The bytes by position -----

  /** A count, then every URI behind its length. */
  lemma ListLayout(uris: seq<seq<byte>>)
    requires |uris| < 0x1_0000_0000
    ensures var s := EncodeList(uris);
      |s| >= 4 && U32(s, 0) == |uris| && s[4..] == EncodeMany(EncodeBlob, uris)
  {
    hide LE, EncodeMany;
    Widths();
    assert EncodeList(uris)[0..4] == LE(|uris|, 4);
    LEAt(EncodeList(uris), 0, |uris|, 4);
  }
}
