/** The slice branch of `parse_content_handle`: it accepts exactly the encodings of maps that tile a file. */
module SliceMapWire {
  import opened Bytes
  import opened Metadata
  import opened SliceMaps
  import opened Wire

  predicate ValidSlice(x: SliceRef) { x.fileByteStart < x.fileByteEnd }

  function EncodeSlice(x: SliceRef): seq<byte> {
    LE(x.fileByteStart, 8) + (LE(x.fileByteEnd, 8) + (x.dropId + (LE(x.dropByteStart, 4) + LE(x.dropByteLen, 4))))
  }

  function ParseSlice(s: seq<byte>): Parse<SliceRef> {
    var (start, s1) :- TakeUint(s, 8);
    var (end, s2) :- TakeUint(s1, 8);
    if start >= end then Fail
    else
      var (dropId, s3) :- Take(s2, 32);
      var (from, s4) :- TakeUint(s3, 4);
      var (len, s5) :- TakeUint(s4, 4);
      Widths();
      Done(SliceRef(start, end, dropId, from, len), s5)
  }

  lemma SliceReads()
    ensures Reads(ParseSlice, EncodeSlice, ValidSlice)
  {
    hide LE, TakeUint;
    forall x: SliceRef, rest | ValidSlice(x) ensures ParseSlice(EncodeSlice(x) + rest) == Done(x, rest) {
      var t4 := LE(x.dropByteLen, 4);
      var t3 := LE(x.dropByteStart, 4) + t4;
      var t2 := x.dropId + t3;
      var t1 := LE(x.fileByteEnd, 8) + t2;
      Widths();
      Assoc(LE(x.fileByteStart, 8), t1, rest);
      Assoc(LE(x.fileByteEnd, 8), t2, rest);
      Assoc(x.dropId, t3, rest);
      Assoc(LE(x.dropByteStart, 4), t4, rest);
      TakeUintRoundTrip(x.fileByteStart, 8, t1 + rest);
      TakeUintRoundTrip(x.fileByteEnd, 8, t2 + rest);
      TakeRoundTrip(x.dropId, t3 + rest);
      TakeUintRoundTrip(x.dropByteStart, 4, t4 + rest);
      TakeUintRoundTrip(x.dropByteLen, 4, rest);
    }
  }

  lemma SliceAccepts()
    ensures Accepts(ParseSlice, EncodeSlice, ValidSlice)
  {
    hide LE, TakeUint;
    forall s | ParseSlice(s).Done?
      ensures ValidSlice(ParseSlice(s).value) && s == EncodeSlice(ParseSlice(s).value) + ParseSlice(s).rest
    {
      var s1 := TakeUint(s, 8).rest;
      var s2 := TakeUint(s1, 8).rest;
      var s3 := Take(s2, 32).rest;
      var s4 := TakeUint(s3, 4).rest;
      TakeUintCanonical(s, 8);
      TakeUintCanonical(s1, 8);
      assert s2 == s2[..32] + s3;
      TakeUintCanonical(s3, 4);
      TakeUintCanonical(s4, 4);
      var x, rest := ParseSlice(s).value, ParseSlice(s).rest;
      var t4 := LE(x.dropByteLen, 4);
      var t3 := LE(x.dropByteStart, 4) + t4;
      Assoc(LE(x.dropByteStart, 4), t4, rest);
      Assoc(x.dropId, t3, rest);
      Assoc(LE(x.fileByteEnd, 8), x.dropId + t3, rest);
      Assoc(LE(x.fileByteStart, 8), LE(x.fileByteEnd, 8) + (x.dropId + t3), rest);
    }
  }

  function Encode(slices: seq<SliceRef>): seq<byte> {
    LE(|slices|, 4) + EncodeMany(EncodeSlice, slices)
  }

  ghost function ParseSlices(s: seq<byte>): Parse<seq<SliceRef>> {
    var (count, s1) :- TakeUint(s, 4);
    var (slices, s2) :- ParseMany(ParseSlice, count, s1);
    if Contiguous(slices) then Done(slices, s2) else Fail
  }

  lemma RoundTrip(slices: seq<SliceRef>, rest: seq<byte>)
    requires |slices| < 0x1_0000_0000 && Accepted(slices)
    ensures ParseSlices(Encode(slices) + rest) == Done(slices, rest)
  {
    hide LE, TakeUint, EncodeMany, EncodeSlice, ParseSlice, Contiguous;
    var body := EncodeMany(EncodeSlice, slices);
    Widths();
    Assoc(LE(|slices|, 4), body, rest);
    TakeUintRoundTrip(|slices|, 4, body + rest);
    SliceReads();
    ManyReads(ParseSlice, EncodeSlice, ValidSlice, slices, rest);
  }

  /** Whatever is accepted is the encoding of a map that tiles its file. */
  lemma Canonical(s: seq<byte>)
    requires ParseSlices(s).Done?
    ensures var r := ParseSlices(s); Accepted(r.value) && s == Encode(r.value) + r.rest
  {
    hide LE, TakeUint, EncodeMany, EncodeSlice, ParseSlice, Contiguous;
    var t := TakeUint(s, 4);
    TakeUintCanonical(s, 4);
    SliceAccepts();
    ManyAccepts(ParseSlice, EncodeSlice, ValidSlice, t.value, t.rest);
    var r := ParseSlices(s);
    assert forall i :: 0 <= i < |r.value| ==> ValidSlice(r.value[i]);
    Assoc(LE(t.value, 4), EncodeMany(EncodeSlice, r.value), r.rest);
  }

  // ----- Over a cursor -----

  method ReadSlice(c: ManifestCursor) returns (r: Result<SliceRef, CoreError>)
    requires c.Valid()
    modifies c
    ensures c.Valid() && old(c.pos) <= c.pos
    ensures Follows(ParseSlice(old(c.Rest())), r, c.Rest())
  {
    hide TakeUint;
    var start := c.ReadUint(8);
    if start.Err? { return Err(start.error); }
    var end := c.ReadUint(8);
    if end.Err? { return Err(end.error); }
    if start.value >= end.value { return Err(Corrupt); }
    var dropId := c.ReadN(32);
    if dropId.Err? { return Err(dropId.error); }
    var from := c.ReadUint(4);
    if from.Err? { return Err(from.error); }
    var len := c.ReadUint(4);
    if len.Err? { return Err(len.error); }
    Widths();
    return Ok(SliceRef(start.value, end.value, dropId.value, from.value, len.value));
  }

  method ReadLoop(c: ManifestCursor, count: nat) returns (r: Result<seq<SliceRef>, CoreError>)
    requires c.Valid()
    modifies c
    ensures c.Valid() && old(c.pos) <= c.pos
    ensures Follows(ParseMany(ParseSlice, count, old(c.Rest())), r, c.Rest())
  {
    hide ParseSlice;
    ghost var all := ParseMany(ParseSlice, count, c.Rest());
    ResumeStart(all);
    var slices: seq<SliceRef> := [];
    var i := 0;
    while i < count
      invariant 0 <= i <= count && c.Valid() && old(c.pos) <= c.pos
      invariant Resumes(all, slices, ParseMany(ParseSlice, count - i, c.Rest()))
    {
      ResumeStep(ParseSlice, all, slices, count - i, c.Rest());
      var slice := ReadSlice(c);
      if slice.Err? { return Err(slice.error); }
      slices := slices + [slice.value];
      i := i + 1;
    }
    ResumeEnd(ParseSlice, all, slices, c.Rest());
    return Ok(slices);
  }

  /** The count, the slices and `validate_slice_map`. */
  method Read(c: ManifestCursor) returns (r: Result<seq<SliceRef>, CoreError>)
    requires c.Valid()
    modifies c
    ensures c.Valid() && old(c.pos) <= c.pos
    ensures Follows(ParseSlices(old(c.Rest())), r, c.Rest())
    ensures r.Ok? ==> Accepted(r.value)
  {
    hide TakeUint, ParseSlice, Contiguous;
    ghost var s := c.Rest();
    var count := c.ReadUint(4);
    if count.Err? { return Err(count.error); }
    r := ReadLoop(c, count.value);
    if r.Err? { return r; }
    var ok := ValidateSliceMap(r.value);
    if !ok { return Err(Corrupt); }
    Canonical(s);
  }

  // ----- The bytes by position -----

  lemma SliceLayout(x: SliceRef)
    ensures var s := EncodeSlice(x);
      && |s| == 56 && U64(s, 0) == x.fileByteStart && U64(s, 8) == x.fileByteEnd && s[16..48] == x.dropId
      && U32(s, 48) == x.dropByteStart && U32(s, 52) == x.dropByteLen
  {
    hide LE;
    var s := EncodeSlice(x);
    Widths();
    assert s[0..8] == LE(x.fileByteStart, 8) && s[8..16] == LE(x.fileByteEnd, 8) && s[16..48] == x.dropId;
    assert s[48..52] == LE(x.dropByteStart, 4) && s[52..56] == LE(x.dropByteLen, 4);
    LEAt(s, 0, x.fileByteStart, 8);
    LEAt(s, 8, x.fileByteEnd, 8);
    LEAt(s, 48, x.dropByteStart, 4);
    LEAt(s, 52, x.dropByteLen, 4);
  }

  /** A count, then 56 bytes per slice in order. */
  lemma Layout(slices: seq<SliceRef>, i: nat)
    requires i < |slices| < 0x1_0000_0000
    ensures var s := Encode(slices);
      |s| == 4 + 56 * |slices| && U32(s, 0) == |slices| && At(s, 4 + 56 * i, EncodeSlice(slices[i]))
  {
    hide LE, EncodeMany;
    var s, body := Encode(slices), EncodeMany(EncodeSlice, slices);
    Widths();
    assert s[0..4] == LE(|slices|, 4) && s[4..] == body;
    LEAt(s, 0, |slices|, 4);
    ManyWidth(EncodeSlice, slices, 56);
    ManyAtWidth(EncodeSlice, slices, 56, i);
    AtWithin(s, 4, body, 56 * i, EncodeSlice(slices[i]));
  }
}
