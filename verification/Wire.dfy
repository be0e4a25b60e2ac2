/**
 * The byte-level vocabulary of every section: little-endian integers, parsers as functions
 * from the unread bytes, counted lists, and the cursor the parsers move.
 */
module Wire {
  import opened Bytes

  // ----- Little-endian integers -----

  function LE(n: nat, width: nat): (s: seq<byte>)
    ensures |s| == width
  {
    if width == 0 then [] else [n % 256] + LE(n / 256, width - 1)
  }

  function FromLE(s: seq<byte>): nat {
    if s == [] then 0 else s[0] + 256 * FromLE(s[1..])
  }

  function Pow256(width: nat): nat {
    if width == 0 then 1 else 256 * Pow256(width - 1)
  }

  lemma {:induction false} LEInverse(n: nat, width: nat)
    requires n < Pow256(width)
    ensures FromLE(LE(n, width)) == n
    decreases width
  {
    if width > 0 {
      LEInverse(n / 256, width - 1);
      assert LE(n, width)[1..] == LE(n / 256, width - 1);
    }
  }

  lemma {:induction false} FromLEInverse(s: seq<byte>)
    ensures LE(FromLE(s), |s|) == s && FromLE(s) < Pow256(|s|)
  {
    if s != [] {
      FromLEInverse(s[1..]);
      var t := FromLE(s[1..]);
      assert (s[0] + 256 * t) % 256 == s[0] && (s[0] + 256 * t) / 256 == t;
    }
  }

  lemma Widths()
    ensures Pow256(1) == 0x100 && Pow256(2) == 0x1_0000 && Pow256(4) == 0x1_0000_0000
    ensures Pow256(8) == 0x1_0000_0000_0000_0000
  {
    assert Pow256(3) == 0x100_0000;
    assert Pow256(4) == 0x1_0000_0000;
    assert Pow256(5) == 0x100_0000_0000;
    assert Pow256(6) == 0x1_0000_0000_0000;
    assert Pow256(7) == 0x100_0000_0000_0000;
  }

  // ----- Numbers at a position, least significant byte first -----

  function U16(s: seq<byte>, p: nat): nat
    requires p + 2 <= |s|
  {
    s[p] as int + 0x100 * (s[p + 1] as int)
  }

  function U32(s: seq<byte>, p: nat): nat
    requires p + 4 <= |s|
  {
    s[p] as int + 0x100 * (s[p + 1] as int) + 0x1_0000 * (s[p + 2] as int) + 0x100_0000 * (s[p + 3] as int)
  }

  function U64(s: seq<byte>, p: nat): nat
    requires p + 8 <= |s|
  {
    U32(s, p) + 0x1_0000_0000 * U32(s, p + 4)
  }

  /** `part` stands in `s` from position `p` on. */
  predicate At(s: seq<byte>, p: nat, part: seq<byte>) { p + |part| <= |s| && s[p..p + |part|] == part }

  /** Where an encoded integer stands, its bytes are the number's digits in radix 256, the lowest first. */
  lemma LEAt(s: seq<byte>, p: nat, n: nat, width: nat)
    requires At(s, p, LE(n, width)) && n < Pow256(width)
    ensures width == 1 ==> s[p] == n
    ensures width == 2 ==> U16(s, p) == n
    ensures width == 4 ==> U32(s, p) == n
    ensures width == 8 ==> U64(s, p) == n
  {
    var t := s[p..p + width];
    LEInverse(n, width);
    forall i | 0 <= i < width ensures t[i] == s[p + i] { }
    Unrolled(t);
  }

  lemma Unrolled(t: seq<byte>)
    ensures |t| == 1 ==> FromLE(t) == t[0]
    ensures |t| == 2 ==> FromLE(t) == U16(t, 0)
    ensures |t| == 4 ==> FromLE(t) == U32(t, 0)
    ensures |t| == 8 ==> FromLE(t) == U64(t, 0)
  {
    if |t| == 8 {
      FromLESplit(t[..4], t[4..]);
      assert t[..4] + t[4..] == t;
      FromLEFour(t[..4]);
      FromLEFour(t[4..]);
    } else if |t| == 4 {
      FromLEFour(t);
    } else if |t| == 2 || |t| == 1 {
      FromLEFew(t);
    }
  }

  lemma FromLEFew(t: seq<byte>)
    requires 1 <= |t| <= 2
    ensures FromLE(t) == if |t| == 1 then t[0] else U16(t, 0)
  {
    assert t[1..] == if |t| == 1 then [] else [t[1]];
    if |t| == 2 { assert FromLE([t[1]]) == t[1] + 256 * FromLE([t[1]][1..]); }
  }

  lemma FromLEFour(t: seq<byte>)
    requires |t| == 4
    ensures FromLE(t) == U32(t, 0)
  {
    FromLESplit(t[..2], t[2..]);
    assert t[..2] + t[2..] == t;
    FromLEFew(t[..2]);
    FromLEFew(t[2..]);
    Widths();
  }

  lemma {:induction false} FromLESplit(a: seq<byte>, b: seq<byte>)
    ensures FromLE(a + b) == FromLE(a) + Pow256(|a|) * FromLE(b)
  {
    if a == [] {
      assert a + b == b;
    } else {
      FromLESplit(a[1..], b);
      assert (a + b)[1..] == a[1..] + b;
      Scaled(Pow256(|a| - 1), FromLE(b));
    }
  }

  lemma Scaled(x: nat, y: nat)
    ensures 256 * (x * y) == (256 * x) * y
  {
  }

  /** Parts of a concatenation stand where the lengths before them say. */
  lemma AtFront(a: seq<byte>, b: seq<byte>)
    ensures At(a + b, 0, a)
  {
  }

  lemma AtBehind(a: seq<byte>, b: seq<byte>, p: nat, part: seq<byte>)
    requires At(b, p, part)
    ensures At(a + b, |a| + p, part)
  {
    var s, n := a + b, |part|;
    assert s[|a| + p..|a| + p + n] == b[p..p + n];
  }

  lemma AtWithin(s: seq<byte>, p: nat, part: seq<byte>, q: nat, piece: seq<byte>)
    requires At(s, p, part) && At(part, q, piece)
    ensures At(s, p + q, piece)
  {
    forall i | 0 <= i < |piece| ensures s[p + q + i] == piece[i] {
      assert s[p..p + |part|][q + i] == part[q + i] && part[q..q + |piece|][i] == piece[i];
    }
  }

  /** A slice of a suffix is a slice of the whole. */
  lemma Nested(s: seq<byte>, a: nat, b: nat, c: nat)
    requires a <= |s| && b <= c <= |s| - a
    ensures s[a..][b..c] == s[a + b..a + c]
  {
    var x, y := s[a..][b..c], s[a + b..a + c];
    forall i | 0 <= i < c - b ensures x[i] == y[i] {
      assert x[i] == s[a..][b + i] && y[i] == s[a + b + i];
    }
  }

  // ----- Parsers -----

  /** What a parser makes of the unread bytes: a value and what is left, or a refusal. */
  datatype Parse<+T> = Fail | Done(value: T, rest: seq<byte>)
  {
    predicate IsFailure() { Fail? }

    function PropagateFailure<U>(): Parse<U>
      requires Fail?
    {
      Fail
    }

    function Extract(): (T, seq<byte>)
      requires Done?
    {
      (value, rest)
    }
  }

  type Parser<!T> = seq<byte> -> Parse<T>

  function Take(s: seq<byte>, n: nat): Parse<seq<byte>> {
    if n <= |s| then Done(s[..n], s[n..]) else Fail
  }

  function TakeUint(s: seq<byte>, width: nat): (r: Parse<nat>)
    ensures r.Done? ==> r.value < Pow256(width)
  {
    if width <= |s| then
      FromLEInverse(s[..width]);
      Done(FromLE(s[..width]), s[width..])
    else Fail
  }

  lemma TakeRoundTrip(x: seq<byte>, rest: seq<byte>)
    ensures Take(x + rest, |x|) == Done(x, rest)
  {
  }

  lemma TakeUintRoundTrip(n: nat, width: nat, rest: seq<byte>)
    requires n < Pow256(width)
    ensures TakeUint(LE(n, width) + rest, width) == Done(n, rest)
  {
    LEInverse(n, width);
    var s := LE(n, width) + rest;
    assert s[..width] == LE(n, width) && s[width..] == rest;
  }

  lemma TakeUintCanonical(s: seq<byte>, width: nat)
    requires TakeUint(s, width).Done?
    ensures s == LE(TakeUint(s, width).value, width) + TakeUint(s, width).rest
  {
    FromLEInverse(s[..width]);
    assert s == s[..width] + s[width..];
  }

  /** A 32-bit length, at most `ceiling`, and that many bytes. */
  function TakeBlob(s: seq<byte>, ceiling: u32): Parse<seq<byte>> {
    var (n, rest) :- TakeUint(s, 4);
    if n > ceiling then Fail else Take(rest, n)
  }

  function EncodeBlob(x: seq<byte>): seq<byte> {
    LE(|x|, 4) + x
  }

  lemma BlobRoundTrip(x: seq<byte>, ceiling: u32, rest: seq<byte>)
    requires |x| <= ceiling
    ensures TakeBlob(EncodeBlob(x) + rest, ceiling) == Done(x, rest)
  {
    Widths();
    Assoc(LE(|x|, 4), x, rest);
    TakeUintRoundTrip(|x|, 4, x + rest);
    TakeRoundTrip(x, rest);
  }

  lemma BlobCanonical(s: seq<byte>, ceiling: u32)
    requires TakeBlob(s, ceiling).Done?
    ensures var r := TakeBlob(s, ceiling);
      |r.value| <= ceiling && s == EncodeBlob(r.value) + r.rest && |r.rest| + 4 + |r.value| == |s|
  {
    var t := TakeUint(s, 4);
    TakeUintCanonical(s, 4);
    assert t.rest == t.rest[..t.value] + t.rest[t.value..];
    Assoc(LE(t.value, 4), t.rest[..t.value], t.rest[t.value..]);
  }

  lemma BlobLayout(x: seq<byte>)
    requires |x| < 0x1_0000_0000
    ensures |EncodeBlob(x)| == 4 + |x| && U32(EncodeBlob(x), 0) == |x| && EncodeBlob(x)[4..] == x
  {
    hide LE;
    Widths();
    assert EncodeBlob(x)[0..4] == LE(|x|, 4);
    LEAt(EncodeBlob(x), 0, |x|, 4);
  }

  // ----- Counted lists -----

  function ParseMany<T>(p: Parser<T>, n: nat, s: seq<byte>): Parse<seq<T>>
    decreases n
  {
    if n == 0 then Done([], s)
    else
      match p(s)
      case Fail => Fail
      case Done(x, rest) =>
        match ParseMany(p, n - 1, rest)
        case Fail => Fail
        case Done(xs, end) => Done([x] + xs, end)
  }

  function EncodeMany<T>(e: T -> seq<byte>, xs: seq<T>): seq<byte> {
    if xs == [] then [] else e(xs[0]) + EncodeMany(e, xs[1..])
  }

  /** `p` reads back exactly what `e` writes for every value `valid` admits, whatever follows. */
  ghost predicate Reads<T(!new)>(p: Parser<T>, e: T -> seq<byte>, valid: T -> bool) {
    forall x, rest :: valid(x) ==> p(e(x) + rest) == Done(x, rest)
  }

  /** `p` accepts nothing but what `e` writes for a value `valid` admits. */
  ghost predicate Accepts<T(!new)>(p: Parser<T>, e: T -> seq<byte>, valid: T -> bool) {
    forall s :: p(s).Done? ==> valid(p(s).value) && s == e(p(s).value) + p(s).rest
  }

  ghost predicate AllValid<T>(valid: T -> bool, xs: seq<T>) {
    forall i :: 0 <= i < |xs| ==> valid(xs[i])
  }

  lemma {:induction false} ManyReads<T(!new)>(p: Parser<T>, e: T -> seq<byte>, valid: T -> bool, xs: seq<T>,
    rest: seq<byte>)
    requires Reads(p, e, valid) && AllValid(valid, xs)
    ensures ParseMany(p, |xs|, EncodeMany(e, xs) + rest) == Done(xs, rest)
    decreases |xs|
  {
    if xs == [] {
      assert EncodeMany(e, xs) + rest == rest;
    } else {
      var tail := EncodeMany(e, xs[1..]);
      assert EncodeMany(e, xs) + rest == e(xs[0]) + (tail + rest);
      assert p(e(xs[0]) + (tail + rest)) == Done(xs[0], tail + rest);
      ManyReads(p, e, valid, xs[1..], rest);
      assert xs == [xs[0]] + xs[1..];
    }
  }

  lemma {:induction false} ManyAccepts<T(!new)>(p: Parser<T>, e: T -> seq<byte>, valid: T -> bool, n: nat, s: seq<byte>)
    requires Accepts(p, e, valid) && ParseMany(p, n, s).Done?
    ensures var r := ParseMany(p, n, s);
      |r.value| == n && AllValid(valid, r.value) && s == EncodeMany(e, r.value) + r.rest
    decreases n
  {
    if n > 0 {
      ManyAccepts(p, e, valid, n - 1, p(s).rest);
      var r := ParseMany(p, n, s);
      assert r.value[1..] == ParseMany(p, n - 1, p(s).rest).value;
      assert s == e(p(s).value) + p(s).rest;
      assert s == (e(r.value[0]) + EncodeMany(e, r.value[1..])) + r.rest;
    }
  }

  /** Every list item takes at least `width` bytes, so a list that parses was long enough. */
  lemma {:induction false} ManyNeeds<T(!new)>(p: Parser<T>, width: nat, n: nat, s: seq<byte>)
    requires forall t :: p(t).Done? ==> |p(t).rest| + width <= |t|
    requires ParseMany(p, n, s).Done?
    ensures |s| >= n * width
    decreases n
  {
    if n > 0 {
      ManyNeeds(p, width, n - 1, p(s).rest);
      assert n * width == (n - 1) * width + width;
    }
  }

  /** Having read `read` items, finishing with `left` finishes the whole list `all`. */
  ghost predicate Resumes<T>(all: Parse<seq<T>>, read: seq<T>, left: Parse<seq<T>>) {
    match left
    case Fail => all.Fail?
    case Done(xs, end) => all == Done(read + xs, end)
  }

  lemma ResumeStep<T>(p: Parser<T>, all: Parse<seq<T>>, read: seq<T>, n: nat, s: seq<byte>)
    requires n > 0 && Resumes(all, read, ParseMany(p, n, s))
    ensures p(s).Fail? ==> all.Fail?
    ensures p(s).Done? ==> Resumes(all, read + [p(s).value], ParseMany(p, n - 1, p(s).rest))
  {
    if p(s).Done? && ParseMany(p, n - 1, p(s).rest).Done? {
      var xs := ParseMany(p, n - 1, p(s).rest).value;
      assert read + ([p(s).value] + xs) == (read + [p(s).value]) + xs;
    }
  }

  lemma ResumeStart<T>(all: Parse<seq<T>>)
    ensures Resumes(all, [], all)
  {
    if all.Done? { assert [] + all.value == all.value; }
  }

  lemma ResumeEnd<T>(p: Parser<T>, all: Parse<seq<T>>, read: seq<T>, s: seq<byte>)
    requires Resumes(all, read, ParseMany(p, 0, s))
    ensures all == Done(read, s)
  {
    assert read + [] == read;
  }

  // ----- Printing a list, element by element -----

  lemma {:induction false} ManySnoc<T>(e: T -> seq<byte>, xs: seq<T>, x: T)
    ensures EncodeMany(e, xs + [x]) == EncodeMany(e, xs) + e(x)
  {
    if xs == [] {
      assert (xs + [x])[1..] == [];
    } else {
      ManySnoc(e, xs[1..], x);
      assert (xs + [x])[1..] == xs[1..] + [x];
      Assoc(e(xs[0]), EncodeMany(e, xs[1..]), e(x));
    }
  }

  /** One more element of a list printed onto `front`. */
  lemma Printed<T>(e: T -> seq<byte>, xs: seq<T>, i: nat, front: seq<byte>)
    requires i < |xs|
    ensures front + EncodeMany(e, xs[..i + 1]) == (front + EncodeMany(e, xs[..i])) + e(xs[i])
  {
    assert xs[..i + 1] == xs[..i] + [xs[i]];
    ManySnoc(e, xs[..i], xs[i]);
    Assoc(front, EncodeMany(e, xs[..i]), e(xs[i]));
  }

  lemma Nothing<T>(e: T -> seq<byte>, xs: seq<T>, front: seq<byte>)
    ensures front == front + EncodeMany(e, xs[..0])
  {
  }

  /** The items of a list stand one after the other in order. */
  lemma {:induction false} ManyAt<T>(e: T -> seq<byte>, xs: seq<T>, i: nat)
    requires i < |xs|
    ensures At(EncodeMany(e, xs), |EncodeMany(e, xs[..i])|, e(xs[i]))
    decreases i
  {
    var rest := EncodeMany(e, xs[1..]);
    if i == 0 {
      assert xs[..0] == [];
      AtFront(e(xs[0]), rest);
    } else {
      ManyAt(e, xs[1..], i - 1);
      assert xs[..i][1..] == xs[1..][..i - 1];
      AtBehind(e(xs[0]), rest, |EncodeMany(e, xs[1..][..i - 1])|, e(xs[i]));
    }
  }

  /** Items of one width stand at its multiples. */
  lemma {:induction false} ManyWidth<T(!new)>(e: T -> seq<byte>, xs: seq<T>, width: nat)
    requires forall x :: |e(x)| == width
    ensures |EncodeMany(e, xs)| == width * |xs|
    decreases |xs|
  {
    if xs != [] { ManyWidth(e, xs[1..], width); }
  }

  lemma ManyAtWidth<T(!new)>(e: T -> seq<byte>, xs: seq<T>, width: nat, i: nat)
    requires i < |xs| && forall x :: |e(x)| == width
    ensures At(EncodeMany(e, xs), width * i, e(xs[i]))
  {
    ManyAt(e, xs, i);
    ManyWidth(e, xs[..i], width);
  }

  // ----- Lists without repeated keys -----

  predicate DistinctBy<T, K(==)>(key: T -> K, xs: seq<T>) {
    forall i, j :: 0 <= i < j < |xs| ==> key(xs[i]) != key(xs[j])
  }

  function ParseDistinct<T, K(==)>(p: Parser<T>, key: T -> K, n: nat, s: seq<byte>): Parse<seq<T>> {
    var (xs, rest) :- ParseMany(p, n, s);
    if DistinctBy(key, xs) then Done(xs, rest) else Fail
  }

  lemma DistinctSnoc<T, K>(key: T -> K, xs: seq<T>, x: T)
    requires DistinctBy(key, xs) && forall k :: 0 <= k < |xs| ==> key(xs[k]) != key(x)
    ensures DistinctBy(key, xs + [x])
  {
  }

  /** A key met twice while reading spoils the whole list. */
  lemma DuplicateSpoils<T, K>(key: T -> K, all: Parse<seq<T>>, read: seq<T>, x: T, left: Parse<seq<T>>)
    requires exists k :: 0 <= k < |read| && key(read[k]) == key(x)
    requires Resumes(all, read + [x], left)
    ensures all.Fail? || !DistinctBy(key, all.value)
  {
    if all.Done? {
      var k :| 0 <= k < |read| && key(read[k]) == key(x);
      assert all.value[k] == read[k] && all.value[|read|] == x;
    }
  }

  // ----- The cursor -----

  datatype CoreError = TooShort(have: nat, need: nat) | BadMagic(found: seq<byte>) | Corrupt | UnsupportedFeature

  const USIZE_MAX := 0xFFFF_FFFF_FFFF_FFFF

  /** The method's outcome is what the parsing function says about the bytes that were unread. */
  ghost predicate Follows<T>(parse: Parse<T>, r: Result<T, CoreError>, rest: seq<byte>) {
    match parse
    case Fail => r.Err?
    case Done(v, left) => r == Ok(v) && rest == left
  }

  class ManifestCursor {
    const bytes: seq<byte>
    var pos: nat

    /** In bounds, over a slice no longer than the address space. */
    ghost predicate Valid() reads this { pos <= |bytes| <= USIZE_MAX }

    ghost function Rest(): seq<byte>
      requires Valid()
      reads this
    {
      bytes[pos..]
    }

    constructor (bytes: seq<byte>)
      requires |bytes| <= USIZE_MAX
      ensures Valid() && this.bytes == bytes && pos == 0 && Rest() == bytes
    {
      this.bytes, this.pos := bytes, 0;
    }

    function RemainingLen(): nat
      reads this
    {
      if pos >= |bytes| then 0 else |bytes| - pos
    }

    /** `read_n`: all or nothing, and the only method that moves the position. */
    method ReadN(n: nat) returns (r: Result<seq<byte>, CoreError>)
      requires Valid()
      modifies `pos
      ensures Valid() && old(pos) <= pos
      ensures Follows(Take(old(Rest()), n), r, Rest())
      ensures r.Ok? ==> pos == old(pos) + n
      ensures r.Err? ==> pos == old(pos)
      ensures r.Err? ==> r.error == if pos + n > USIZE_MAX then Corrupt else TooShort(|Rest()|, n)
    {
      if pos + n > USIZE_MAX { return Err(Corrupt); }
      var end := pos + n;
      if end > |bytes| { return Err(TooShort(RemainingLen(), n)); }
      assert bytes[pos..end] == bytes[pos..][..n];
      r := Ok(bytes[pos..end]);
      pos := end;
    }

    /** `read_u8`, `read_u16_le`, `read_u32_le` and `read_u64_le`, by width. */
    method ReadUint(width: nat) returns (r: Result<nat, CoreError>)
      requires Valid()
      modifies `pos
      ensures Valid() && old(pos) <= pos
      ensures Follows(TakeUint(old(Rest()), width), r, Rest())
      ensures r.Ok? ==> pos == old(pos) + width
      ensures r.Ok? ==> r.value < Pow256(width)
    {
      var b := ReadN(width);
      if b.Err? { return Err(b.error); }
      FromLEInverse(b.value);
      return Ok(FromLE(b.value));
    }

    /** A length field, its ceiling check, and the bytes. */
    method ReadBlob(ceiling: u32) returns (r: Result<seq<byte>, CoreError>)
      requires Valid()
      modifies `pos
      ensures Valid() && old(pos) <= pos
      ensures Follows(TakeBlob(old(Rest()), ceiling), r, Rest())
    {
      var n := ReadUint(4);
      if n.Err? { return Err(n.error); }
      if n.value > ceiling { return Err(Corrupt); }
      r := ReadN(n.value);
    }
  }

  // ----- The growing vector -----

  /** The byte vector every encoder appends to. */
  class OutputBuffer {
    var bytes: seq<byte>

    constructor ()
      ensures bytes == []
    {
      bytes := [];
    }

    method Push(b: byte)
      modifies this
      ensures bytes == old(bytes) + [b]
      ensures bytes == old(bytes) + LE(b, 1)
    {
      assert LE(b, 1) == [b] + LE(0, 0);
      bytes := bytes + [b];
    }

    method Extend(xs: seq<byte>)
      modifies this
      ensures bytes == old(bytes) + xs
    {
      bytes := bytes + xs;
    }

    /** `u32::try_from(n).expect(..)` and its little-endian bytes. */
    method ExtendCount(n: u32)
      modifies this
      ensures bytes == old(bytes) + LE(n, 4)
    {
      bytes := bytes + LE(n, 4);
    }
  }
}
