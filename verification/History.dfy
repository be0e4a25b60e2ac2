/** The history section: encoder, parser, and that the two are inverse. */
module History {
  import opened Bytes
  import opened Wire

  const SECTION_VERSION := 1
  const OP_EXTENDED := 0xFF
  const DEFAULT_PARAMS_MAX: u32 := 4096

  datatype HistoryOp = Build | Delta | Flatten | Turnover | Deepen

  datatype HistoryEntry = HistoryEntry(op: HistoryOp, timestampNs: u64, inputs: seq<Digest>, params: seq<byte>)

  /** `HistoryOp::to_byte`. */
  function ToByte(op: HistoryOp): byte {
    match op
    case Build => 1
    case Delta => 2
    case Flatten => 3
    case Turnover => 4
    case Deepen => 5
  }

  /** `HistoryOp::from_byte`. */
  function FromByte(b: nat): (r: Option<HistoryOp>)
    ensures r.Some? ==> ToByte(r.value) == b
    ensures r.None? ==> forall op :: ToByte(op) != b
  {
    if b == 1 then Some(Build)
    else if b == 2 then Some(Delta)
    else if b == 3 then Some(Flatten)
    else if b == 4 then Some(Turnover)
    else if b == 5 then Some(Deepen)
    else None
  }

  // ----- Fixed-size chunks -----

  function Flatten32(xs: seq<Digest>): (s: seq<byte>)
    ensures |s| == 32 * |xs|
  {
    if xs == [] then [] else xs[0] + Flatten32(xs[1..])
  }

  /** `chunks_exact(32)`. */
  function Chunks32(s: seq<byte>): (xs: seq<Digest>)
    requires |s| % 32 == 0
    ensures 32 * |xs| == |s|
    decreases |s|
  {
    if s == [] then [] else [s[..32]] + Chunks32(s[32..])
  }

  lemma {:induction false} ChunksOfFlat(xs: seq<Digest>)
    ensures Chunks32(Flatten32(xs)) == xs
  {
    if xs != [] {
      ChunksOfFlat(xs[1..]);
      var s := Flatten32(xs);
      assert s[..32] == xs[0] && s[32..] == Flatten32(xs[1..]);
    }
  }

  lemma {:induction false} FlatOfChunks(s: seq<byte>)
    requires |s| % 32 == 0
    ensures Flatten32(Chunks32(s)) == s
    decreases |s|
  {
    if s != [] {
      FlatOfChunks(s[32..]);
      assert Chunks32(s)[1..] == Chunks32(s[32..]);
      assert s == s[..32] + s[32..];
    }
  }

  // ----- Entries -----

  predicate ValidEntry(ceiling: u32, e: HistoryEntry) {
    |e.inputs| < 0x1_0000_0000 && |e.params| <= ceiling
  }

  /** An entry's inputs: a count, then that many digests. */
  function EncodeInputs(inputs: seq<Digest>): seq<byte> {
    LE(|inputs|, 4) + Flatten32(inputs)
  }

  function ParseInputs(s: seq<byte>): (r: Parse<seq<Digest>>)
    ensures r.Done? ==> |r.rest| + 4 <= |s|
  {
    var (count, s1) :- TakeUint(s, 4);
    var (inputs, s2) :- Take(s1, count * 32);
    Done(Chunks32(inputs), s2)
  }

  lemma InputsRoundTrip(inputs: seq<Digest>, rest: seq<byte>)
    requires |inputs| < 0x1_0000_0000
    ensures ParseInputs(EncodeInputs(inputs) + rest) == Done(inputs, rest)
  {
    Widths();
    Assoc(LE(|inputs|, 4), Flatten32(inputs), rest);
    TakeUintRoundTrip(|inputs|, 4, Flatten32(inputs) + rest);
    TakeRoundTrip(Flatten32(inputs), rest);
    ChunksOfFlat(inputs);
  }

  lemma InputsCanonical(s: seq<byte>)
    requires ParseInputs(s).Done?
    ensures var r := ParseInputs(s); |r.value| < 0x1_0000_0000 && s == EncodeInputs(r.value) + r.rest
  {
    var count, s1 := TakeUint(s, 4).value, TakeUint(s, 4).rest;
    Widths();
    TakeUintCanonical(s, 4);
    FlatOfChunks(s1[..count * 32]);
    assert s1 == s1[..count * 32] + s1[count * 32..];
    Assoc(LE(count, 4), s1[..count * 32], s1[count * 32..]);
  }

  function EncodeEntry(e: HistoryEntry): seq<byte> {
    LE(ToByte(e.op), 1) + (LE(e.timestampNs, 8) + (EncodeInputs(e.inputs) + EncodeBlob(e.params)))
  }

  function ParseEntry(ceiling: u32, s: seq<byte>): (r: Parse<HistoryEntry>)
    ensures r.Done? ==> |r.rest| + 17 <= |s|
  {
    var (op, s1) :- TakeUint(s, 1);
    if FromByte(op).None? then Fail
    else
      var (timestamp, s2) :- TakeUint(s1, 8);
      var (inputs, s3) :- ParseInputs(s2);
      var (params, s4) :- TakeBlob(s3, ceiling);
      Widths();
      Done(HistoryEntry(FromByte(op).value, timestamp, inputs, params), s4)
  }

  lemma EntryOnto(e: HistoryEntry, rest: seq<byte>)
    ensures EncodeEntry(e) + rest
         == LE(ToByte(e.op), 1) + (LE(e.timestampNs, 8) + (EncodeInputs(e.inputs) + (EncodeBlob(e.params) + rest)))
  {
    hide LE, EncodeInputs, EncodeBlob;
    var e3 := EncodeInputs(e.inputs) + EncodeBlob(e.params);
    Assoc(LE(ToByte(e.op), 1), LE(e.timestampNs, 8) + e3, rest);
    Assoc(LE(e.timestampNs, 8), e3, rest);
    Assoc(EncodeInputs(e.inputs), EncodeBlob(e.params), rest);
  }

  lemma EntryRoundTrip(ceiling: u32, e: HistoryEntry, rest: seq<byte>)
    requires ValidEntry(ceiling, e)
    ensures ParseEntry(ceiling, EncodeEntry(e) + rest) == Done(e, rest)
  {
    hide LE, TakeUint, EncodeInputs, ParseInputs, EncodeBlob, TakeBlob;
    var t3 := EncodeBlob(e.params) + rest;
    var t2 := EncodeInputs(e.inputs) + t3;
    Widths();
    EntryOnto(e, rest);
    TakeUintRoundTrip(ToByte(e.op), 1, LE(e.timestampNs, 8) + t2);
    TakeUintRoundTrip(e.timestampNs, 8, t2);
    InputsRoundTrip(e.inputs, t3);
    BlobRoundTrip(e.params, ceiling, rest);
  }

  lemma EntryCanonical(ceiling: u32, s: seq<byte>)
    requires ParseEntry(ceiling, s).Done?
    ensures var r := ParseEntry(ceiling, s); ValidEntry(ceiling, r.value) && s == EncodeEntry(r.value) + r.rest
  {
    hide LE, TakeUint, EncodeInputs, ParseInputs, EncodeBlob, TakeBlob;
    var s1 := TakeUint(s, 1).rest;
    var s2 := TakeUint(s1, 8).rest;
    var s3 := ParseInputs(s2).rest;
    TakeUintCanonical(s, 1);
    TakeUintCanonical(s1, 8);
    InputsCanonical(s2);
    BlobCanonical(s3, ceiling);
    EntryOnto(ParseEntry(ceiling, s).value, ParseEntry(ceiling, s).rest);
  }

  // ----- The section -----

  predicate ValidHistory(ceiling: u32, entries: seq<HistoryEntry>) {
    0 < |entries| < 0x1_0000_0000 && forall i :: 0 <= i < |entries| ==> ValidEntry(ceiling, entries[i])
  }

  function Encode(entries: seq<HistoryEntry>): seq<byte> {
    LE(SECTION_VERSION, 1) + (LE(|entries|, 4) + EncodeMany(EncodeEntry, entries))
  }

  function EntryParser(ceiling: u32): Parser<HistoryEntry> { s => ParseEntry(ceiling, s) }

  function EntryTest(ceiling: u32): HistoryEntry -> bool { e => ValidEntry(ceiling, e) }

  function ParseHistory(ceiling: u32, s: seq<byte>): Parse<seq<HistoryEntry>> {
    var (version, s1) :- TakeUint(s, 1);
    if version != SECTION_VERSION then Fail
    else
      var (count, s2) :- TakeUint(s1, 4);
      if count == 0 then Fail else ParseMany(EntryParser(ceiling), count, s2)
  }

  lemma EntryReads(ceiling: u32)
    ensures Reads(EntryParser(ceiling), EncodeEntry, EntryTest(ceiling))
  {
    forall e: HistoryEntry, rest | EntryTest(ceiling)(e)
      ensures EntryParser(ceiling)(EncodeEntry(e) + rest) == Done(e, rest)
    {
      EntryRoundTrip(ceiling, e, rest);
    }
  }

  lemma EntryAccepts(ceiling: u32)
    ensures Accepts(EntryParser(ceiling), EncodeEntry, EntryTest(ceiling))
  {
    forall s | EntryParser(ceiling)(s).Done?
      ensures EntryTest(ceiling)(EntryParser(ceiling)(s).value)
      ensures s == EncodeEntry(EntryParser(ceiling)(s).value) + EntryParser(ceiling)(s).rest
    {
      EntryCanonical(ceiling, s);
    }
  }

  lemma RoundTrip(ceiling: u32, entries: seq<HistoryEntry>, rest: seq<byte>)
    requires ValidHistory(ceiling, entries)
    ensures ParseHistory(ceiling, Encode(entries) + rest) == Done(entries, rest)
  {
    hide LE, TakeUint, EncodeMany, EncodeEntry, ParseEntry;
    var body := EncodeMany(EncodeEntry, entries);
    Widths();
    Assoc(LE(SECTION_VERSION, 1), LE(|entries|, 4) + body, rest);
    Assoc(LE(|entries|, 4), body, rest);
    TakeUintRoundTrip(SECTION_VERSION, 1, LE(|entries|, 4) + (body + rest));
    TakeUintRoundTrip(|entries|, 4, body + rest);
    EntryReads(ceiling);
    ManyReads(EntryParser(ceiling), EncodeEntry, EntryTest(ceiling), entries, rest);
  }

  lemma Canonical(ceiling: u32, s: seq<byte>)
    requires ParseHistory(ceiling, s).Done?
    ensures var r := ParseHistory(ceiling, s); ValidHistory(ceiling, r.value) && s == Encode(r.value) + r.rest
  {
    hide LE, TakeUint, EncodeMany, EncodeEntry, ParseEntry;
    var s1 := TakeUint(s, 1).rest;
    var count, s2 := TakeUint(s1, 4).value, TakeUint(s1, 4).rest;
    Widths();
    TakeUintCanonical(s, 1);
    TakeUintCanonical(s1, 4);
    EntryAccepts(ceiling);
    ManyAccepts(EntryParser(ceiling), EncodeEntry, EntryTest(ceiling), count, s2);
    var r := ParseHistory(ceiling, s);
    assert forall i :: 0 <= i < |r.value| ==> EntryTest(ceiling)(r.value[i]);
    var body := EncodeMany(EncodeEntry, r.value);
    Assoc(LE(count, 4), body, r.rest);
    Assoc(LE(SECTION_VERSION, 1), LE(count, 4) + body, r.rest);
  }

  // ----- The parsers over a cursor -----

  /** `parse_history_entry_with_ceiling`. */
  method ReadEntry(c: ManifestCursor, ceiling: u32) returns (r: Result<HistoryEntry, CoreError>)
    requires c.Valid()
    modifies c
    ensures c.Valid() && old(c.pos) <= c.pos
    ensures Follows(ParseEntry(ceiling, old(c.Rest())), r, c.Rest())
  {
    var op := c.ReadUint(1);
    if op.Err? { return Err(op.error); }
    if op.value == OP_EXTENDED { return Err(UnsupportedFeature); }
    var known := FromByte(op.value);
    if known.None? { return Err(UnsupportedFeature); }
    var timestamp := c.ReadUint(8);
    if timestamp.Err? { return Err(timestamp.error); }
    var count := c.ReadUint(4);
    if count.Err? { return Err(count.error); }
    var inputBytes := c.ReadN(count.value * 32);
    if inputBytes.Err? { return Err(inputBytes.error); }
    var inputs := CollectInputs(inputBytes.value);
    var params := c.ReadBlob(ceiling);
    if params.Err? { return Err(params.error); }
    Widths();
    return Ok(HistoryEntry(known.value, timestamp.value, inputs, params.value));
  }

  /** The loop over the 32-byte chunks. */
  method CollectInputs(s: seq<byte>) returns (inputs: seq<Digest>)
    requires |s| % 32 == 0
    ensures inputs == Chunks32(s)
  {
    inputs := [];
    var left := s;
    while left != []
      invariant |left| % 32 == 0
      invariant Chunks32(s) == inputs + Chunks32(left)
      decreases |left|
    {
      assert Chunks32(left) == [left[..32]] + Chunks32(left[32..]);
      inputs := inputs + [left[..32]];
      left := left[32..];
    }
  }

  /** `parse_history_with_ceiling`. */
  method Read(c: ManifestCursor, ceiling: u32) returns (r: Result<seq<HistoryEntry>, CoreError>)
    requires c.Valid()
    modifies c
    ensures c.Valid() && old(c.pos) <= c.pos
    ensures Follows(ParseHistory(ceiling, old(c.Rest())), r, c.Rest())
  {
    var version := c.ReadUint(1);
    if version.Err? { return Err(version.error); }
    if version.value != SECTION_VERSION { return Err(UnsupportedFeature); }
    var count := c.ReadUint(4);
    if count.Err? { return Err(count.error); }
    if count.value == 0 { return Err(Corrupt); }
    if c.RemainingLen() < count.value * 17 {
      TooFewBytes(ceiling, count.value, c.Rest());
      return Err(TooShort(c.RemainingLen(), count.value * 17));
    }
    r := ReadEntries(c, ceiling, count.value);
  }

  lemma TooFewBytes(ceiling: u32, count: nat, s: seq<byte>)
    requires |s| < count * 17
    ensures ParseMany(EntryParser(ceiling), count, s).Fail?
  {
    if ParseMany(EntryParser(ceiling), count, s).Done? { ManyNeeds(EntryParser(ceiling), 17, count, s); }
  }

  method ReadEntries(c: ManifestCursor, ceiling: u32, count: nat) returns (r: Result<seq<HistoryEntry>, CoreError>)
    requires c.Valid()
    modifies c
    ensures c.Valid() && old(c.pos) <= c.pos
    ensures Follows(ParseMany(EntryParser(ceiling), count, old(c.Rest())), r, c.Rest())
  {
    hide ParseEntry;
    ghost var p := EntryParser(ceiling);
    ghost var all := ParseMany(p, count, c.Rest());
    ResumeStart(all);
    var entries: seq<HistoryEntry> := [];
    var i := 0;
    while i < count
      invariant 0 <= i <= count && c.Valid() && old(c.pos) <= c.pos
      invariant Resumes(all, entries, ParseMany(p, count - i, c.Rest()))
    {
      ResumeStep(p, all, entries, count - i, c.Rest());
      var entry := ReadEntry(c, ceiling);
      if entry.Err? { return Err(entry.error); }
      entries := entries + [entry.value];
      i := i + 1;
    }
    ResumeEnd(p, all, entries, c.Rest());
    return Ok(entries);
  }

  // ----- The bytes by position -----

  lemma {:induction false} FlatAt(xs: seq<Digest>, i: nat)
    requires i < |xs|
    ensures At(Flatten32(xs), 32 * i, xs[i])
    decreases i
  {
    if i == 0 {
      AtFront(xs[0], Flatten32(xs[1..]));
    } else {
      FlatAt(xs[1..], i - 1);
      AtBehind(xs[0], Flatten32(xs[1..]), 32 * (i - 1), xs[i]);
    }
  }

  /** Version, count, then the entries. */
  lemma Layout(entries: seq<HistoryEntry>)
    requires |entries| < 0x1_0000_0000
    ensures var s := Encode(entries);
      |s| >= 5 && s[0] == 1 && U32(s, 1) == |entries| && s[5..] == EncodeMany(EncodeEntry, entries)
  {
    hide LE, EncodeMany;
    var s := Encode(entries);
    Widths();
    assert s[0..1] == LE(SECTION_VERSION, 1) && s[1..5] == LE(|entries|, 4);
    LEAt(s, 0, SECTION_VERSION, 1);
    LEAt(s, 1, |entries|, 4);
  }

  /** Build, delta, flatten, turnover and deepen are numbered from one. */
  function Opcode(op: HistoryOp): nat {
    if op.Build? then 1 else if op.Delta? then 2 else if op.Flatten? then 3 else if op.Turnover? then 4 else 5
  }

  /** An entry: opcode, timestamp, the counted inputs and the parameters behind their length. */
  lemma EntryLayout(e: HistoryEntry)
    requires |e.inputs| < 0x1_0000_0000 && |e.params| < 0x1_0000_0000
    ensures var s, n := EncodeEntry(e), 32 * |e.inputs|;
      && |s| == 17 + n + |e.params| && s[0] == Opcode(e.op) && U64(s, 1) == e.timestampNs && U32(s, 9) == |e.inputs|
      && (forall i :: 0 <= i < |e.inputs| ==> At(s, 13 + 32 * i, e.inputs[i]))
      && U32(s, 13 + n) == |e.params| && s[17 + n..] == e.params
  {
    var s, n, flat, params := EncodeEntry(e), 32 * |e.inputs|, Flatten32(e.inputs), EncodeBlob(e.params);
    hide LE, Flatten32;
    Widths();
    assert s[0..1] == LE(ToByte(e.op), 1) && s[1..9] == LE(e.timestampNs, 8) && s[9..13] == LE(|e.inputs|, 4);
    assert s[13..13 + n] == flat && s[13 + n..] == params;
    hide EncodeEntry, EncodeBlob;
    LEAt(s, 0, ToByte(e.op), 1);
    LEAt(s, 1, e.timestampNs, 8);
    LEAt(s, 9, |e.inputs|, 4);
    InputsAt(s, e.inputs);
    ParamsAt(s, 13 + n, e.params);
  }

  lemma InputsAt(s: seq<byte>, inputs: seq<Digest>)
    requires At(s, 13, Flatten32(inputs))
    ensures forall i :: 0 <= i < |inputs| ==> At(s, 13 + 32 * i, inputs[i])
  {
    hide Flatten32, At;
    forall i | 0 <= i < |inputs| ensures At(s, 13 + 32 * i, inputs[i]) {
      FlatAt(inputs, i);
      AtWithin(s, 13, Flatten32(inputs), 32 * i, inputs[i]);
    }
  }

  lemma ParamsAt(s: seq<byte>, p: nat, params: seq<byte>)
    requires |params| < 0x1_0000_0000 && p <= |s| && s[p..] == EncodeBlob(params)
    ensures |s| == p + 4 + |params| && U32(s, p) == |params| && s[p + 4..] == params
  {
    BlobLayout(params);
    hide EncodeBlob;
    assert s[p + 4..] == s[p..][4..];
    forall i | 0 <= i < 4 ensures s[p + i] == s[p..][i] { }
  }
}
