/** Unsigned LEB128 (section 7.6 of DWARF Version 5), as the archive codec writes and reads it. */
module Varint {
  import opened Bytes
  import opened Wire
  import opened Bits

  datatype CarError =
    | TruncatedVarint
    | VarintTooLong
    | VarintOverflow
    | UnsupportedMultihash(code: u64)
    | UnsupportedCidVersion(version: u64)
    | UnsupportedCodec(codec: u64)
    | TruncatedMultihash
    | TruncatedHeader
    | TruncatedBlock
    | LengthOverflow

  function Pow128(k: nat): (p: nat)
    ensures p > 0
  {
    if k == 0 then 1 else 128 * Pow128(k - 1)
  }

  lemma {:induction false} PowersAgree(i: nat)
    ensures Pow2(7 * i) == Pow128(i)
  {
    if i > 0 {
      PowersAgree(i - 1);
      var k := 7 * i - 7;
      assert Pow2(k + 7) == 2 * Pow2(k + 6) && Pow2(k + 6) == 2 * Pow2(k + 5) && Pow2(k + 5) == 2 * Pow2(k + 4);
      assert Pow2(k + 4) == 2 * Pow2(k + 3) && Pow2(k + 3) == 2 * Pow2(k + 2) && Pow2(k + 2) == 2 * Pow2(k + 1);
    }
  }

  lemma NineGroups()
    ensures Pow128(9) * 2 == TWO64
  {
    assert Pow128(1) == 0x80;
    assert Pow128(2) == 0x4000;
    assert Pow128(3) == 0x20_0000;
    assert Pow128(4) == 0x1000_0000;
    assert Pow128(5) == 0x8_0000_0000;
    assert Pow128(6) == 0x400_0000_0000;
    assert Pow128(7) == 0x2_0000_0000_0000;
    assert Pow128(8) == 0x100_0000_0000_0000;
  }

  lemma {:induction false} Pow128Grows(i: nat, j: nat)
    requires i <= j
    ensures Pow128(i) <= Pow128(j)
    decreases j
  {
    if i < j { Pow128Grows(i, j - 1); }
  }

  // ----- Groups of seven bits -----

  function GroupSum(s: seq<byte>): nat {
    if s == [] then 0 else s[0] % 128 + 128 * GroupSum(s[1..])
  }

  lemma {:induction false} GroupSumSnoc(s: seq<byte>, b: byte)
    ensures GroupSum(s + [b]) == GroupSum(s) + b % 128 * Pow128(|s|)
  {
    if s == [] {
      assert (s + [b])[1..] == [];
    } else {
      GroupSumSnoc(s[1..], b);
      assert (s + [b])[1..] == s[1..] + [b];
      assert 128 * (b % 128 * Pow128(|s| - 1)) == b % 128 * Pow128(|s|);
    }
  }

  lemma {:induction false} GroupSumBound(s: seq<byte>)
    ensures GroupSum(s) < Pow128(|s|)
  {
    if s != [] { GroupSumBound(s[1..]); }
  }

  /** The groups' sum in 64 bits. */
  function Wrapped(s: seq<byte>): u64 { GroupSum(s) % TWO64 }

  /** Where the first byte without a continuation bit stands. */
  function Stop(s: seq<byte>): (n: nat)
    ensures n <= |s|
    ensures forall k :: 0 <= k < n ==> s[k] >= 128
    ensures n < |s| ==> s[n] < 128
  {
    if s == [] || s[0] < 128 then 0 else Stop(s[1..]) + 1
  }

  // ----- Writing -----

  function Encode(v: nat): (s: seq<byte>)
    ensures |s| > 0
  {
    if v < 128 then [v] else [v % 128 + 128] + Encode(v / 128)
  }

  /** `write_varint`. */
  method WriteVarint(v: u64, out: OutputBuffer)
    modifies out
    ensures out.bytes == old(out.bytes) + Encode(v)
  {
    var value := v;
    while value >= 0x80
      invariant 0 <= value < TWO64
      invariant out.bytes + Encode(value) == old(out.bytes) + Encode(v)
    {
      ghost var before := out.bytes;
      out.Push(value % 128 + 128);
      Assoc(before, [value % 128 + 128], Encode(value / 128));
      value := value / 128;
    }
    out.Push(value);
  }

  // ----- Reading -----

  /** The value and length of the varint at the front of `s`, or which way there is none. */
  function Decode(s: seq<byte>): (r: Result<(u64, nat), CarError>)
    ensures r.Ok? ==> 0 < r.value.1 <= |s|
  {
    var n := Stop(s);
    if n < |s| && n < 10 then Ok((Wrapped(s[..n + 1]), n + 1))
    else if |s| > 10 then Err(VarintTooLong)
    else Err(TruncatedVarint)
  }

  /** Accepted iff one of the first ten bytes ends it; else too long or truncated, by how much there is. */
  lemma DecodeIff(s: seq<byte>)
    ensures Decode(s).Ok? <==> exists i :: 0 <= i < |s| && i < 10 && s[i] < 128
    ensures Decode(s) == Err(VarintTooLong) <==> |s| > 10 && forall i :: 0 <= i < 10 ==> s[i] >= 128
    ensures Decode(s) == Err(TruncatedVarint) <==> |s| <= 10 && forall i :: 0 <= i < |s| ==> s[i] >= 128
  {
    hide GroupSum;
    var n := Stop(s);
    if n < |s| && n < 10 { assert s[n] < 128; }
  }

  /** `read_varint`; the overflow branch is dead because the ten-byte guard comes first. */
  method ReadVarint(s: seq<byte>) returns (r: Result<(u64, nat), CarError>)
    ensures r == Decode(s)
    ensures r != Err(VarintOverflow)
  {
    assert Wrapped(s[..0]) == 0;
    hide Wrapped, Or, CheckedShl, Stop;
    var value: u64 := 0;
    var shift := 0;
    var i := 0;
    while i < |s|
      invariant 0 <= i <= |s| && i <= 10 && shift == 7 * i && i <= Stop(s)
      invariant value == Wrapped(s[..i])
    {
      if i >= 10 { return Err(VarintTooLong); }
      var b := s[i];
      var shifted := CheckedShl(b % 128, shift);
      AddGroup(s, i);
      if shifted.None? { assert false; }
      value := Or(value, shifted.value);
      if b < 128 {
        assert Stop(s) == i;
        return Ok((value, i + 1));
      }
      shift := shift + 7;
      i := i + 1;
    }
    return Err(TruncatedVarint);
  }

  /** One turn of the loop: the OR adds the group, and the tenth group wraps at 64 bits. */
  lemma AddGroup(s: seq<byte>, i: nat)
    requires i < |s| && i < 10
    ensures CheckedShl(s[i] % 128, 7 * i).Some?
    ensures Or(Wrapped(s[..i]), CheckedShl(s[i] % 128, 7 * i).value) == Wrapped(s[..i + 1])
  {
    hide GroupSum, Or, Pow2, Pow128, CheckedShl;
    var low, g := GroupSum(s[..i]), s[i] % 128;
    assert s[..i + 1] == s[..i] + [s[i]];
    GroupSumSnoc(s[..i], s[i]);
    Unwrapped(s[..i]);
    GroupSumBound(s[..i]);
    PowersAgree(i);
    if i < 9 {
      Unwrapped(s[..i + 1]);
      ShiftedGroup(g, i);
      OrDisjoint(low, g, 7 * i);
    } else {
      TopGroup(low, g);
      TopShift(g);
      OrDisjoint(low, g % 2, 7 * i);
    }
  }

  lemma Unwrapped(s: seq<byte>)
    requires |s| <= 9
    ensures Wrapped(s) == GroupSum(s) < Pow128(9)
  {
    GroupSumBound(s);
    NineGroups();
    Pow128Grows(|s|, 9);
  }

  /** Below the tenth group nothing is shifted out. */
  lemma ShiftedGroup(g: nat, i: nat)
    requires g < 128 && i < 9
    ensures CheckedShl(g, 7 * i) == Some(g * Pow2(7 * i))
  {
    PowersAgree(i);
    NineGroups();
    Pow128Grows(i + 1, 9);
    assert Pow128(i + 1) == 128 * Pow128(i);
    assert g * Pow128(i) <= 127 * Pow128(i);
  }

  lemma TopShift(g: nat)
    requires g < 128
    ensures CheckedShl(g, 63) == Some(g % 2 * Pow2(63))
  {
    PowersAgree(9);
    NineGroups();
    TopGroup(0, g);
  }

  /** Shifted to the top, only a group's lowest bit survives. */
  lemma TopGroup(low: nat, g: nat)
    requires low < Pow128(9)
    ensures g * Pow128(9) % TWO64 == g % 2 * Pow128(9)
    ensures (low + g * Pow128(9)) % TWO64 == low + g % 2 * Pow128(9)
  {
    hide Pow128;
    NineGroups();
    var q, r := g / 2, g % 2;
    assert g * Pow128(9) == q * TWO64 + r * Pow128(9);
    Wraps(q, r * Pow128(9));
    Wraps(q, low + r * Pow128(9));
  }

  lemma Wraps(q: nat, x: nat)
    requires x < TWO64
    ensures (q * TWO64 + x) % TWO64 == x
  {
  }

  // ----- Reading what was written -----

  lemma {:induction false} EncodeShape(v: nat, suffix: seq<byte>)
    ensures Stop(Encode(v) + suffix) == |Encode(v)| - 1
    ensures GroupSum(Encode(v)) == v
    decreases v
  {
    var s := Encode(v) + suffix;
    if v >= 128 {
      EncodeShape(v / 128, suffix);
      assert s[1..] == Encode(v / 128) + suffix;
      assert Encode(v)[1..] == Encode(v / 128);
    } else {
      assert Encode(v)[1..] == [];
    }
  }

  lemma {:induction false} EncodeLength(v: nat, k: nat)
    requires k > 0 && v < Pow128(k)
    ensures |Encode(v)| <= k
    decreases k
  {
    assert Pow128(1) == 128 * Pow128(0);
    if v >= 128 { EncodeLength(v / 128, k - 1); }
  }

  /** Every 64-bit value reads back, whatever follows, over exactly the bytes written. */
  lemma RoundTrip(v: u64, suffix: seq<byte>)
    ensures Decode(Encode(v) + suffix) == Ok((v, |Encode(v)|))
  {
    var s := Encode(v) + suffix;
    EncodeShape(v, suffix);
    NineGroups();
    assert Pow128(10) == 128 * Pow128(9);
    EncodeLength(v, 10);
    assert s[..|Encode(v)|] == Encode(v);
  }

  /** No shorter form: a zero top group is written only when it is the only one. */
  predicate Shortest(s: seq<byte>) { |s| == 1 || (|s| > 1 && s[|s| - 1] != 0) }

  lemma {:induction false} EncodeShortest(v: nat)
    ensures Shortest(Encode(v))
    decreases v
  {
    if v >= 128 {
      EncodeShortest(v / 128);
      assert |Encode(v / 128)| == 1 ==> v / 128 != 0;
    }
  }

  lemma {:induction false} TopGroupCounts(s: seq<byte>)
    requires s != [] && 0 < s[|s| - 1] < 128
    ensures GroupSum(s) > 0
  {
    if |s| > 1 { TopGroupCounts(s[1..]); }
  }

  /** A terminated, shortest group string is the encoding of its sum. */
  lemma {:induction false} ShortestIsEncoding(s: seq<byte>)
    requires s != [] && Terminated(s) && Shortest(s)
    ensures Encode(GroupSum(s)) == s
    decreases |s|
  {
    var t := s[1..];
    if |s| == 1 {
      assert t == [] && s == [s[0]];
    } else {
      TopGroupCounts(t);
      ShortestIsEncoding(t);
      var v, w := GroupSum(s), GroupSum(t);
      assert s[0] >= 128 && v == (s[0] - 128) + 128 * w;
      hide GroupSum, Terminated, Shortest;
      OneGroup(v, s[0] - 128, w);
      assert s == [s[0]] + t;
    }
  }

  lemma OneGroup(v: nat, low: nat, high: nat)
    requires low < 128 && high > 0 && v == low + 128 * high
    ensures v >= 128 && v / 128 == high && v % 128 == low
  {
  }

  /** The last byte, and only the last, lacks a continuation bit. */
  predicate Terminated(s: seq<byte>) {
    s != [] && s[|s| - 1] < 128 && forall k :: 0 <= k < |s| - 1 ==> s[k] >= 128
  }

  /** An accepted varint is the one the writer emits iff it is as short as can be and did not wrap. */
  lemma CanonicalIff(s: seq<byte>)
    requires Decode(s).Ok?
    ensures var (v, n) := Decode(s).value;
      s[..n] == Encode(v) <==> Shortest(s[..n]) && GroupSum(s[..n]) < TWO64
  {
    hide GroupSum, Encode, Stop;
    var (v, n) := Decode(s).value;
    var t := s[..n];
    assert Terminated(t);
    if t == Encode(v) {
      EncodeShortest(v);
      EncodeShape(v, []);
    }
    if Shortest(t) && GroupSum(t) < TWO64 {
      ShortestIsEncoding(t);
    }
  }

  /** Zero in two bytes: accepted, and not what the writer emits. */
  lemma OverlongZero()
    ensures Decode([0x80, 0x00]) == Ok((0, 2)) && Encode(0) == [0x00]
  {
    var s: seq<byte> := [0x80, 0x00];
    assert s[1..] == [0x00] && s[1..][1..] == [] && s[..2] == s;
    assert Stop(s[1..]) == 0 && Stop(s) == 1;
    assert GroupSum(s[1..]) == 0 && GroupSum(s) == 0;
  }

  /** The lowest seven bits come first. */
  lemma ThreeHundred()
    ensures Encode(300) == [0xAC, 0x02]
  {
    assert Encode(2) == [0x02];
  }
}
