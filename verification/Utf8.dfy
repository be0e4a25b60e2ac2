/** Well-formed UTF-8, as `str::from_utf8` accepts it. Strings are their UTF-8 bytes. */
module Utf8 {
  import opened Bytes

  predicate Continuation(b: byte) { 0x80 <= b <= 0xBF }

  /** The length of the well-formed sequence at the front of `s`, 0 if there is none. */
  function SequenceLength(s: seq<byte>): (n: nat)
    ensures n <= |s|
  {
    if s == [] then 0
    else if s[0] <= 0x7F then 1
    else if 0xC2 <= s[0] <= 0xDF && |s| >= 2 && Continuation(s[1]) then 2
    else if 0xE0 <= s[0] <= 0xEF && |s| >= 3 && Continuation(s[1]) && Continuation(s[2])
      && (s[0] == 0xE0 ==> s[1] >= 0xA0) && (s[0] == 0xED ==> s[1] <= 0x9F) then 3
    else if 0xF0 <= s[0] <= 0xF4 && |s| >= 4 && Continuation(s[1]) && Continuation(s[2]) && Continuation(s[3])
      && (s[0] == 0xF0 ==> s[1] >= 0x90) && (s[0] == 0xF4 ==> s[1] <= 0x8F) then 4
    else 0
  }

  predicate IsUtf8(s: seq<byte>)
    decreases |s|
  {
    s == [] || (SequenceLength(s) > 0 && IsUtf8(s[SequenceLength(s)..]))
  }

  // ----- The texts these are -----

  /** A Unicode scalar value. */
  predicate Scalar(c: nat) { c < 0xD800 || 0xE000 <= c < 0x11_0000 }

  /** Its bytes in UTF-8. */
  function EncodeScalar(c: nat): (s: seq<byte>)
    requires Scalar(c)
    ensures 1 <= |s| <= 4
  {
    if c < 0x80 then [c]
    else if c < 0x800 then [0xC0 + c / 0x40, 0x80 + c % 0x40]
    else if c < 0x1_0000 then [0xE0 + c / 0x1000, 0x80 + c / 0x40 % 0x40, 0x80 + c % 0x40]
    else [0xF0 + c / 0x4_0000, 0x80 + c / 0x1000 % 0x40, 0x80 + c / 0x40 % 0x40, 0x80 + c % 0x40]
  }

  ghost predicate Scalars(cs: seq<nat>) { forall i :: 0 <= i < |cs| ==> Scalar(cs[i]) }

  ghost function EncodeText(cs: seq<nat>): seq<byte>
    requires Scalars(cs)
  {
    if cs == [] then [] else EncodeScalar(cs[0]) + EncodeText(cs[1..])
  }

  /** The scalar value at the front, if there is one. */
  lemma FrontScalar(s: seq<byte>) returns (c: nat)
    requires SequenceLength(s) > 0
    ensures Scalar(c) && EncodeScalar(c) == s[..SequenceLength(s)]
  {
    var n := SequenceLength(s);
    if n == 1 {
      c := s[0];
    } else if n == 2 {
      c := TwoBytes(s[0], s[1]);
    } else if n == 3 {
      c := ThreeBytes(s[0], s[1], s[2]);
    } else {
      c := FourBytes(s[0], s[1], s[2], s[3]);
    }
  }

  lemma TwoBytes(a: byte, b: byte) returns (c: nat)
    requires 0xC2 <= a <= 0xDF && Continuation(b)
    ensures Scalar(c) && EncodeScalar(c) == [a, b]
  {
    c := (a - 0xC0) * 0x40 + (b - 0x80);
    assert c / 0x40 == a - 0xC0 && c % 0x40 == b - 0x80;
  }

  lemma ThreeBytes(a: byte, b: byte, d: byte) returns (c: nat)
    requires 0xE0 <= a <= 0xEF && Continuation(b) && Continuation(d)
    requires (a == 0xE0 ==> b >= 0xA0) && (a == 0xED ==> b <= 0x9F)
    ensures Scalar(c) && EncodeScalar(c) == [a, b, d]
  {
    var high := (a - 0xE0) * 0x40 + (b - 0x80);
    c := high * 0x40 + (d - 0x80);
    assert c / 0x40 == high && c % 0x40 == d - 0x80;
    assert high % 0x40 == b - 0x80 && c / 0x1000 == a - 0xE0;
  }

  lemma FourBytes(a: byte, b: byte, d: byte, e: byte) returns (c: nat)
    requires 0xF0 <= a <= 0xF4 && Continuation(b) && Continuation(d) && Continuation(e)
    requires (a == 0xF0 ==> b >= 0x90) && (a == 0xF4 ==> b <= 0x8F)
    ensures Scalar(c) && EncodeScalar(c) == [a, b, d, e]
  {
    var top := (a - 0xF0) * 0x40 + (b - 0x80);
    var high := top * 0x40 + (d - 0x80);
    c := high * 0x40 + (e - 0x80);
    assert c / 0x40 == high && c % 0x40 == e - 0x80;
    assert high % 0x40 == d - 0x80 && c / 0x1000 == top;
    assert top % 0x40 == b - 0x80 && c / 0x4_0000 == a - 0xF0;
  }

  /** The bytes of a scalar value as the sequence test sees them. */
  lemma ScalarBytes(c: nat)
    requires Scalar(c)
    ensures var s := EncodeScalar(c);
      && (|s| == 1 ==> s[0] <= 0x7F)
      && (|s| == 2 ==> 0xC2 <= s[0] <= 0xDF && Continuation(s[1]))
      && (|s| == 3 ==> 0xE0 <= s[0] <= 0xEF && Continuation(s[1]) && Continuation(s[2]))
      && (|s| == 3 ==> (s[0] == 0xE0 ==> s[1] >= 0xA0) && (s[0] == 0xED ==> s[1] <= 0x9F))
      && (|s| == 4 ==> 0xF0 <= s[0] <= 0xF4 && Continuation(s[1]) && Continuation(s[2]) && Continuation(s[3]))
      && (|s| == 4 ==> (s[0] == 0xF0 ==> s[1] >= 0x90) && (s[0] == 0xF4 ==> s[1] <= 0x8F))
  {
  }

  /** A scalar's bytes are a sequence, whatever follows. */
  lemma ScalarAtFront(c: nat, rest: seq<byte>)
    requires Scalar(c)
    ensures SequenceLength(EncodeScalar(c) + rest) == |EncodeScalar(c)|
  {
    ScalarBytes(c);
    hide EncodeScalar, Scalar;
    var front := EncodeScalar(c);
    var s := front + rest;
    assert s[0] == front[0];
    assert |front| > 1 ==> s[1] == front[1];
    assert |front| > 2 ==> s[2] == front[2];
    assert |front| > 3 ==> s[3] == front[3];
  }

  /** Well-formed bytes are exactly the encodings of texts of scalar values. */
  lemma {:induction false} Utf8Iff(s: seq<byte>)
    ensures IsUtf8(s) <==> exists cs :: Scalars(cs) && EncodeText(cs) == s
    decreases |s|
  {
    hide SequenceLength, EncodeScalar;
    if IsUtf8(s) {
      if s == [] {
        var none: seq<nat> := [];
        assert Scalars(none) && EncodeText(none) == s;
      } else {
        var n := SequenceLength(s);
        var c := FrontScalar(s);
        Utf8Iff(s[n..]);
        var rest :| Scalars(rest) && EncodeText(rest) == s[n..];
        var cs := [c] + rest;
        assert cs[1..] == rest && s == s[..n] + s[n..];
        assert Scalars(cs) && EncodeText(cs) == s;
      }
    }
    if cs :| Scalars(cs) && EncodeText(cs) == s { TextIsUtf8(cs); }
  }

  lemma {:induction false} TextIsUtf8(cs: seq<nat>)
    requires Scalars(cs)
    ensures IsUtf8(EncodeText(cs))
    decreases |cs|
  {
    if cs != [] {
      var rest := EncodeText(cs[1..]);
      TextIsUtf8(cs[1..]);
      ScalarAtFront(cs[0], rest);
      assert (EncodeScalar(cs[0]) + rest)[|EncodeScalar(cs[0])|..] == rest;
    }
  }
}
