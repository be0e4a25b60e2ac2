/** Lower-case, unpadded base32 (section 6 of RFC 4648): bit-buffer loops as a change of radix. */
module Base32 {
  import opened Bytes
  import opened Bits

  // ----- The alphabet -----

  /** The five bits a character stands for. */
  function Value(c: char): (r: Option<nat>)
    ensures r.Some? ==> r.value < 32
  {
    if 'a' <= c <= 'z' then Some(c as int - 'a' as int)
    else if '2' <= c <= '7' then Some(c as int - '2' as int + 26)
    else None
  }

  function Letter(v: nat): (c: char)
    requires v < 32
    ensures Value(c) == Some(v)
  {
    if v < 26 then ('a' as int + v) as char else ('2' as int + v - 26) as char
  }

  lemma LetterOfValue(c: char)
    requires Value(c).Some?
    ensures Letter(Value(c).value) == c
  {
  }

  /** The alphabet of section 6 of RFC 4648, in lower case. */
  lemma Alphabet(v: nat)
    requires v < 32
    ensures Letter(v) == "abcdefghijklmnopqrstuvwxyz234567"[v]
  {
  }

  predicate InAlphabet(text: string) { forall i :: 0 <= i < |text| ==> Value(text[i]).Some? }

  // ----- Numbers written in radix 32 and radix 256 -----

  function Spelled(text: string): nat
    requires InAlphabet(text)
  {
    if text == [] then 0 else 32 * Spelled(text[..|text| - 1]) + Value(text[|text| - 1]).value
  }

  function Spell(n: nat, width: nat): (text: string)
    ensures |text| == width && InAlphabet(text)
  {
    if width == 0 then [] else Spell(n / 32, width - 1) + [Letter(n % 32)]
  }

  function Number(s: seq<byte>): nat {
    if s == [] then 0 else 256 * Number(s[..|s| - 1]) + s[|s| - 1]
  }

  function BigEndian(n: nat, width: nat): (s: seq<byte>)
    ensures |s| == width
  {
    if width == 0 then [] else BigEndian(n / 256, width - 1) + [n % 256]
  }

  lemma {:induction false} SpellSpelled(text: string)
    requires InAlphabet(text)
    ensures Spell(Spelled(text), |text|) == text
  {
    if text != [] {
      var front, c := text[..|text| - 1], text[|text| - 1];
      SpellSpelled(front);
      LetterOfValue(c);
      assert text == front + [c];
    }
  }

  lemma {:induction false} SpelledSpell(n: nat, width: nat)
    requires n < Pow2(5 * width)
    ensures Spelled(Spell(n, width)) == n
    decreases width
  {
    if width > 0 {
      FiveBits(5 * width - 5);
      SpelledSpell(n / 32, width - 1);
      assert Spell(n, width)[..width - 1] == Spell(n / 32, width - 1);
    }
  }

  lemma {:induction false} BigEndianNumber(s: seq<byte>)
    ensures BigEndian(Number(s), |s|) == s
  {
    if s != [] {
      BigEndianNumber(s[..|s| - 1]);
      assert s == s[..|s| - 1] + [s[|s| - 1]];
    }
  }

  lemma {:induction false} NumberBigEndian(n: nat, width: nat)
    requires n < Pow2(8 * width)
    ensures Number(BigEndian(n, width)) == n
    decreases width
  {
    if width > 0 {
      EightBits(8 * width - 8);
      NumberBigEndian(n / 256, width - 1);
      assert BigEndian(n, width)[..width - 1] == BigEndian(n / 256, width - 1);
    }
  }

  lemma {:induction false} SpelledBound(text: string)
    requires InAlphabet(text)
    ensures Spelled(text) < Pow2(5 * |text|)
  {
    if text != [] {
      SpelledBound(text[..|text| - 1]);
      FiveBits(5 * |text| - 5);
    }
  }

  lemma {:induction false} NumberBound(s: seq<byte>)
    ensures Number(s) < Pow2(8 * |s|)
  {
    if s != [] {
      NumberBound(s[..|s| - 1]);
      EightBits(8 * |s| - 8);
    }
  }

  // ----- Powers and shifts -----

  lemma FiveBits(k: nat)
    ensures Pow2(k + 5) == 32 * Pow2(k)
  {
    assert Pow2(k + 5) == 2 * Pow2(k + 4) && Pow2(k + 4) == 2 * Pow2(k + 3) && Pow2(k + 3) == 2 * Pow2(k + 2)
      && Pow2(k + 2) == 2 * Pow2(k + 1);
  }

  lemma EightBits(k: nat)
    ensures Pow2(k + 8) == 256 * Pow2(k)
  {
    FiveBits(k);
    assert Pow2(k + 8) == 2 * Pow2(k + 7) && Pow2(k + 7) == 2 * Pow2(k + 6) && Pow2(k + 6) == 2 * Pow2(k + 5);
  }

  lemma SmallPowers()
    ensures Pow2(0) == 1 && Pow2(1) == 2 && Pow2(2) == 4 && Pow2(3) == 8 && Pow2(4) == 16
  {
  }

  /** Appending low digits does not disturb what is above them. */
  lemma DropLow(n: nat, radix: nat, v: nat, p: nat)
    requires v < radix && p > 0
    ensures radix * p > 0 && (radix * n + v) / (radix * p) == n / p
  {
    var q, r := n / p, n % p;
    assert n == q * p + r;
    var d := radix * p;
    assert radix * n + v == q * d + (radix * r + v) by {
      assert radix * (q * p) == q * (radix * p);
    }
    assert radix * r + v < d by { assert radix * r <= radix * (p - 1); }
    Quotient(q, d, radix * r + v);
  }

  lemma Quotient(q: nat, d: nat, r: nat)
    requires r < d
    ensures (q * d + r) / d == q && (q * d + r) % d == r
  {
    var x := q * d + r;
    assert x == x / d * d + x % d;
    Distinguish(q, x / d, d, r, x % d);
  }

  lemma Distinguish(q: nat, k: nat, d: nat, r: nat, t: nat)
    requires r < d && t < d && q * d + r == k * d + t
    ensures q == k && r == t
  {
    var gap := q - k;
    assert gap * d == t - r;
    ProductSign(gap, d);
  }

  lemma ProductSign(g: int, d: nat)
    ensures (g >= 1 ==> g * d >= d) && (g <= -1 ==> g * d <= 0 - d)
  {
  }

  /** Multiples of the divisor pass through a division, and vanish modulo it. */
  lemma Multiples(a: nat, d: nat, x: nat)
    requires d > 0
    ensures (a * d + x) / d == a + x / d && (a * d + x) % d == x % d
  {
    var k, t := x / d, x % d;
    DivMod(x, d);
    Distribute(a, k, d);
    Quotient(a + k, d, t);
    assert a * d + x == (a + k) * d + t;
  }

  lemma DivMod(x: nat, d: nat)
    requires d > 0
    ensures x == x / d * d + x % d
  {
  }

  lemma Distribute(a: nat, k: nat, d: nat)
    ensures (a + k) * d == a * d + k * d
  {
  }

  // ----- The decoder's buffer -----

  /** `(buffer << 5) | value` in 64 bits. */
  function ShiftIn(buffer: u64, value: nat): nat
    requires value < 32
  {
    Or(buffer * 32 % TWO64, value)
  }

  /** The buffer holds the low 64 bits of the number read so far: what it drops is never needed again. */
  lemma ShiftInKeeps(n: nat, value: nat)
    requires value < 32
    ensures ShiftIn(n % TWO64, value) == (32 * n + value) % TWO64
  {
    hide Or, Pow2;
    var q, low := n / TWO64, n % TWO64;
    var a, m := low / TWO59, low % TWO59;
    Quotient(a, TWO64, 32 * m);
    assert low * 32 == a * TWO64 + 32 * m;
    FiveBits(0);
    SmallPowers();
    OrComm(32 * m, value);
    OrDisjoint(value, m, 5);
    assert 32 * n + value == (32 * q + a) * TWO64 + (32 * m + value);
    Quotient(32 * q + a, TWO64, 32 * m + value);
  }

  const TWO59 := 0x800_0000_0000_0000

  lemma {:induction false} Pow2Add(a: nat, b: nat)
    ensures Pow2(a + b) == Pow2(a) * Pow2(b)
    decreases b
  {
    if b > 0 { Pow2Add(a, b - 1); }
  }

  lemma SixtyFour()
    ensures Pow2(64) == TWO64
  {
    EightBits(0);
    EightBits(8);
    EightBits(16);
    EightBits(24);
    EightBits(32);
    EightBits(40);
    EightBits(48);
    EightBits(56);
  }

  /** Reading `w` bits of the 64-bit buffer is reading them of the whole number. */
  lemma BufferBits(n: nat, bits: nat, w: nat)
    requires bits + w <= 64
    ensures n % TWO64 / Pow2(bits) % Pow2(w) == n / Pow2(bits) % Pow2(w)
  {
    Pow2Add(w, 64 - bits - w);
    Pow2Add(bits, 64 - bits);
    SixtyFour();
    BitsOfMultiple(n, Pow2(bits), Pow2(w), Pow2(64 - bits - w));
  }

  lemma BitsOfMultiple(n: nat, p: nat, radix: nat, c: nat)
    requires p > 0 && radix > 0 && p * (radix * c) == TWO64
    ensures n % TWO64 / p % radix == n / p % radix
  {
    var q, low := n / TWO64, n % TWO64;
    var a := q * (radix * c);
    assert n == a * p + low by { assert q * TWO64 == q * (p * (radix * c)); }
    Multiples(a, p, low);
    assert a == q * c * radix;
    Multiples(q * c, radix, low / p);
  }

  lemma DivDiv(x: nat, p: nat, radix: nat)
    requires p > 0 && radix > 0
    ensures radix * p > 0 && x / p / radix == x / (radix * p)
  {
    var y := x / p;
    DivMod(x, p);
    DivMod(y, radix);
    DropLow(y, p, x % p, radix);
    assert p * y + x % p == x;
  }

  // ----- Shifting right -----

  lemma DivNat(n: nat, p: nat)
    requires p > 0
    ensures n / p >= 0
  {
  }

  /** `n >> k`. */
  function Shr(n: nat, k: nat): nat {
    DivNat(n, Pow2(k));
    n / Pow2(k)
  }

  /** Five or eight new bits move the boundary by as much. */
  lemma ShrAppend(n: nat, k: nat, v: nat)
    ensures v < 32 ==> Shr(32 * n + v, k + 5) == Shr(n, k)
    ensures v < 256 ==> Shr(256 * n + v, k + 8) == Shr(n, k)
  {
    FiveBits(k);
    EightBits(k);
    if v < 32 { DropLow(n, 32, v, Pow2(k)); }
    if v < 256 { DropLow(n, 256, v, Pow2(k)); }
  }

  lemma ShrMore(n: nat, k: nat)
    ensures Shr(n, k) / 32 == Shr(n, k + 5) && Shr(n, k) / 256 == Shr(n, k + 8)
  {
    FiveBits(k);
    EightBits(k);
    DivDiv(n, Pow2(k), 32);
    DivDiv(n, Pow2(k), 256);
  }

  /** Reading five or eight bits of the 64-bit buffer is reading them of the whole number. */
  lemma ShrBuffer(n: nat, k: nat)
    requires k <= 56
    ensures Shr(n % TWO64, k) % 256 == Shr(n, k) % 256 && Shr(n % TWO64, k) % 32 == Shr(n, k) % 32
  {
    EightBits(0);
    FiveBits(0);
    BufferBits(n, k, 8);
    BufferBits(n, k, 5);
  }

  // ----- Decoding -----

  /** The bytes complete after reading `text`: all its bits but the last few. */
  function Whole(text: string): seq<byte>
    requires InAlphabet(text)
  {
    WholeBytes(Spelled(text), |text|)
  }

  /** The whole bytes at the top of a number of `k` five-bit digits. */
  function WholeBytes(n: nat, k: nat): seq<byte> {
    BigEndian(Shr(n, 5 * k % 8), 5 * k / 8)
  }

  lemma WholeBytesStep(n: nat, k: nat, v: nat)
    requires v < 32
    ensures var bits, m := 5 * k % 8 + 5, 32 * n + v;
      WholeBytes(m, k + 1) == if bits >= 8 then WholeBytes(n, k) + [Shr(m, bits - 8) % 256] else WholeBytes(n, k)
  {
    hide Shr, BigEndian;
    var bits, m := 5 * k % 8 + 5, 32 * n + v;
    ShrAppend(n, bits - 5, v);
    Position(k);
    if bits >= 8 {
      ShrMore(m, bits - 8);
      BigEndianSnoc(Shr(m, bits - 8), 5 * k / 8);
    }
  }

  lemma SpelledSnoc(text: string, c: char)
    requires InAlphabet(text) && Value(c).Some?
    ensures InAlphabet(text + [c]) && Spelled(text + [c]) == 32 * Spelled(text) + Value(c).value
  {
    assert InAlphabet(text + [c]);
    assert (text + [c])[..|text|] == text;
  }

  lemma BigEndianSnoc(n: nat, width: nat)
    ensures BigEndian(n, width + 1) == BigEndian(n / 256, width) + [n % 256]
  {
  }

  /** How one more character moves the byte count and the bits left over. */
  lemma Position(k: nat)
    ensures var bits := 5 * k % 8 + 5;
      if bits >= 8 then 5 * (k + 1) % 8 == bits - 8 && 5 * (k + 1) / 8 == 5 * k / 8 + 1
      else 5 * (k + 1) % 8 == bits && 5 * (k + 1) / 8 == 5 * k / 8
  {
  }

  /** `decode_b3` accepts exactly the prefix and 52 characters of the alphabet. */
  predicate AcceptedB3(text: string) {
    |text| == 55 && text[..3] == "b3:" && InAlphabet(text[3..])
  }

  /** The top 256 of the 260 bits the characters after the prefix spell. */
  function TopBits(text: string): (d: Digest)
    requires AcceptedB3(text)
  {
    BigEndian(Spelled(text[3..]) / 16, 32)
  }

  /** `decode_b3`. */
  method DecodeB3(text: string) returns (r: Option<Digest>)
    ensures r.Some? <==> AcceptedB3(text)
    ensures r.Some? ==> r.value == TopBits(text)
  {
    hide Shr, Value, Or, Spelled, WholeBytes, ShiftIn;
    if |text| < 3 || text[..3] != "b3:" { return None; }
    var rest := text[3..];
    var decoded := new byte[32](_ => 0);
    var buffer: u64, bits, index := 0, 0, 0;
    Start(rest);
    var k := 0;
    while k < |rest|
      invariant 0 <= k <= |rest| && InAlphabet(rest[..k])
      invariant bits == 5 * k % 8 && index == 5 * k / 8 <= 32
      invariant buffer == Spelled(rest[..k]) % TWO64
      invariant decoded[..index] == Whole(rest[..k])
    {
      var value := Value(rest[k]);
      if value.None? { return None; }
      assert rest[..k + 1] == rest[..k] + [rest[k]];
      SpelledSnoc(rest[..k], rest[k]);
      WholeBytesStep(Spelled(rest[..k]), k, value.value);
      Position(k);
      ShiftInKeeps(Spelled(rest[..k]), value.value);
      buffer := ShiftIn(buffer, value.value);
      bits := bits + 5;
      if bits >= 8 {
        bits := bits - 8;
        var b := Shr(buffer, bits) % 256;
        ShrBuffer(Spelled(rest[..k + 1]), bits);
        if index >= 32 { return None; }
        decoded[index] := b;
        index := index + 1;
      }
      k := k + 1;
    }
    assert rest[..k] == rest;
    if index != 32 { return None; }
    FourBitsOver(rest);
    return Some(decoded[..]);
  }

  lemma Start(text: string)
    ensures Spelled(text[..0]) == 0 && Whole(text[..0]) == []
  {
  }

  lemma FourBitsOver(text: string)
    requires InAlphabet(text) && 5 * |text| / 8 == 32
    ensures |text| == 52 && Whole(text) == BigEndian(Spelled(text) / 16, 32)
  {
    SmallPowers();
  }

  /** What the strict decoder accepts: no whole character left over, and only zero bits. */
  function StrictDecode(text: string): Option<seq<byte>> {
    var left := 5 * |text| % 8;
    if InAlphabet(text) && left < 5 && LowBits(Spelled(text), left) == 0 then Some(Whole(text)) else None
  }

  /** `decode_base32_lower_no_pad`. */
  method DecodeBase32(text: string) returns (r: Option<seq<byte>>)
    ensures r == StrictDecode(text)
  {
    hide LowBits, Shr, Value, Or, Spelled, WholeBytes, ShiftIn;
    var out: seq<byte> := [];
    var buffer: u64, bits := 0, 0;
    Start(text);
    var k := 0;
    while k < |text|
      invariant 0 <= k <= |text| && InAlphabet(text[..k])
      invariant bits == 5 * k % 8
      invariant buffer == Spelled(text[..k]) % TWO64
      invariant out == Whole(text[..k])
    {
      var value := Value(text[k]);
      if value.None? { return None; }
      assert text[..k + 1] == text[..k] + [text[k]];
      SpelledSnoc(text[..k], text[k]);
      WholeBytesStep(Spelled(text[..k]), k, value.value);
      Position(k);
      ShiftInKeeps(Spelled(text[..k]), value.value);
      buffer := ShiftIn(buffer, value.value);
      bits := bits + 5;
      if bits >= 8 {
        bits := bits - 8;
        ShrBuffer(Spelled(text[..k + 1]), bits);
        out := out + [Shr(buffer, bits) % 256];
      }
      k := k + 1;
    }
    assert text[..k] == text;
    LowBitsOfBuffer(Spelled(text), bits);
    if bits >= 5 || LowBits(buffer, bits) != 0 { return None; }
    return Some(out);
  }

  /** `n & ((1 << bits) - 1)`. */
  function LowBits(n: nat, bits: nat): nat { n % Pow2(bits) }

  lemma LowBitsOfBuffer(n: nat, bits: nat)
    requires bits <= 64
    ensures LowBits(n % TWO64, bits) == LowBits(n, bits)
  {
    BufferBits(n, 0, bits);
    SmallPowers();
  }

  // ----- Encoding -----

  /** How many zero bits complete the last character. */
  function Padding(bytes: nat): (p: nat)
    ensures p < 5 && (8 * bytes + p) % 5 == 0
  {
    (5 - 8 * bytes % 5) % 5
  }

  /** The bytes as one number, padded on the right and written in radix 32. */
  function EncodeText(s: seq<byte>): string {
    var p := Padding(|s|);
    Spell(Number(s) * Pow2(p), (8 * |s| + p) / 5)
  }

  /** `encode_base32_lower_no_pad`. */
  method EncodeBase32(input: seq<byte>) returns (out: string)
    ensures out == EncodeText(input)
  {
    Nothing(input);
    hide Pow2, Shr, Number, Spell, Or, ShiftInByte;
    out := [];
    var buffer: u64, bits := 0, 0;
    var i := 0;
    while i < |input|
      invariant 0 <= i <= |input| && 0 <= bits < 5 && 5 * |out| + bits == 8 * i
      invariant buffer == Number(input[..i]) % TWO64
      invariant out == Spell(Shr(Number(input[..i]), bits), |out|)
    {
      ghost var n := Number(input[..i + 1]);
      NumberStep(input, i);
      ShiftInByteKeeps(Number(input[..i]), input[i]);
      ShrAppend(Number(input[..i]), bits, input[i]);
      buffer := ShiftInByte(buffer, input[i]);
      bits := bits + 8;
      while bits >= 5
        invariant 0 <= bits <= 12 && 5 * |out| + bits == 8 * (i + 1)
        invariant out == Spell(Shr(n, bits), |out|)
      {
        bits := bits - 5;
        SpellStep(n, bits, |out|);
        out := out + [Letter(Shr(buffer, bits) % 32)];
      }
      i := i + 1;
    }
    assert input[..i] == input;
    if bits > 0 {
      LastLetter(Number(input), bits, |out|);
      var shift := 5 - bits;
      out := out + [Letter(buffer * Pow2(shift) % TWO64 % 32)];
    } else {
      NoLetter(Number(input));
    }
  }

  lemma Nothing(input: seq<byte>)
    ensures Number(input[..0]) == 0 && Spell(Shr(0, 0), 0) == []
  {
  }

  lemma NumberStep(s: seq<byte>, i: nat)
    requires i < |s|
    ensures Number(s[..i + 1]) == 256 * Number(s[..i]) + s[i]
  {
    assert s[..i + 1][..i] == s[..i];
  }

  /** `(buffer << 8) | byte` in 64 bits. */
  function ShiftInByte(buffer: u64, b: byte): nat { Or(buffer * 256 % TWO64, b) }

  lemma ShiftInByteKeeps(n: nat, b: byte)
    ensures ShiftInByte(n % TWO64, b) == (256 * n + b) % TWO64
  {
    hide Or, Pow2;
    var q, low := n / TWO64, n % TWO64;
    var a, m := low / TWO56, low % TWO56;
    Quotient(a, TWO64, 256 * m);
    assert low * 256 == a * TWO64 + 256 * m;
    EightBits(0);
    SmallPowers();
    OrComm(256 * m, b);
    OrDisjoint(b, m, 8);
    assert 256 * n + b == (256 * q + a) * TWO64 + (256 * m + b);
    Quotient(256 * q + a, TWO64, 256 * m + b);
  }

  const TWO56 := 0x100_0000_0000_0000

  /** Emitting one character moves five bits from the buffer to the text. */
  lemma SpellStep(n: nat, bits: nat, width: nat)
    requires bits <= 7
    ensures Spell(Shr(n, bits), width + 1) == Spell(Shr(n, bits + 5), width) + [Letter(Shr(n % TWO64, bits) % 32)]
  {
    hide Shr;
    ShrMore(n, bits);
    ShrBuffer(n, bits);
  }

  /** The last character takes the remaining bits, zeros below them. */
  lemma LastLetter(n: nat, bits: nat, width: nat)
    requires 0 < bits < 5
    ensures Spell(n * Pow2(5 - bits), width + 1)
         == Spell(Shr(n, bits), width) + [Letter(n % TWO64 * Pow2(5 - bits) % TWO64 % 32)]
  {
    var shift := 5 - bits;
    Pow2Add(shift, bits);
    FiveBits(0);
    DropLow(n, Pow2(shift), 0, Pow2(bits));
    ShiftedLow(n, Pow2(shift));
  }

  lemma NoLetter(n: nat)
    ensures n * Pow2(0) == n && Shr(n, 0) == n
  {
  }

  lemma ShiftedLow(n: nat, p: nat)
    ensures n % TWO64 * p % TWO64 % 32 == n * p % 32
  {
    var q, low := n / TWO64, n % TWO64;
    var x := low * p;
    Multiples(x / TWO64 * (TWO64 / 32), 32, x % TWO64);
    assert x == x / TWO64 * (TWO64 / 32) * 32 + x % TWO64;
    assert n * p == q * p * (TWO64 / 32) * 32 + x by { assert n == q * TWO64 + low; }
    Multiples(q * p * (TWO64 / 32), 32, x);
  }

  // ----- Printing and reading -----

  /** The widths of a byte string and of its text match bit for bit. */
  lemma Widths(bytes: nat)
    ensures var p := Padding(bytes);
      var w := (8 * bytes + p) / 5;
      5 * w == 8 * bytes + p && 5 * w % 8 == p && 5 * w / 8 == bytes
  {
    var p := Padding(bytes);
    hide Padding;
    assert (8 * bytes + p) / 8 == bytes && (8 * bytes + p) % 8 == p;
  }

  lemma TextWidths(k: nat)
    requires 5 * k % 8 < 5
    ensures var left, bytes := 5 * k % 8, 5 * k / 8;
      8 * bytes + left == 5 * k && Padding(bytes) == left && (8 * bytes + left) / 5 == k
  {
    var left, bytes := 5 * k % 8, 5 * k / 8;
    assert 8 * bytes == 5 * k - left;
    assert left == 0 || 8 * bytes % 5 == 5 - left;
  }

  lemma PaddedNumber(s: seq<byte>)
    ensures var p := Padding(|s|); Spelled(EncodeText(s)) == Number(s) * Pow2(p)
  {
    hide Pow2, Spell, Spelled, Number;
    var p := Padding(|s|);
    Widths(|s|);
    NumberBound(s);
    Pow2Add(8 * |s|, p);
    Scale(Number(s), Pow2(8 * |s|), Pow2(p));
    SpelledSpell(Number(s) * Pow2(p), (8 * |s| + p) / 5);
  }

  lemma Scale(a: nat, b: nat, p: nat)
    requires a < b && p > 0
    ensures 0 <= a * p < b * p
  {
  }

  /** Printing and then strictly reading any byte string gives it back. */
  lemma StrictRoundTrip(s: seq<byte>)
    ensures StrictDecode(EncodeText(s)) == Some(s)
  {
    hide Pow2, Spelled, BigEndian, Number;
    var p, text := Padding(|s|), EncodeText(s);
    Widths(|s|);
    PaddedNumber(s);
    Quotient(Number(s), Pow2(p), 0);
    ShrIs(Spelled(text), p, Number(s));
    BigEndianNumber(s);
  }

  lemma ShrIs(n: nat, k: nat, q: nat)
    requires n == q * Pow2(k)
    ensures Shr(n, k) == q
  {
    Quotient(q, Pow2(k), 0);
  }

  /** Whatever the strict reader accepts is what the printer writes for the bytes it returns. */
  lemma StrictCanonical(text: string)
    requires StrictDecode(text).Some?
    ensures EncodeText(StrictDecode(text).value) == text
  {
    hide Pow2, Spelled, Spell, BigEndian, Number, Shr, Padding;
    var left, s, n := 5 * |text| % 8, StrictDecode(text).value, Spelled(text);
    SpelledBound(text);
    ShrExact(n, left, 8 * |s|);
    NumberBigEndian(Shr(n, left), |s|);
    TextWidths(|text|);
    SpellSpelled(text);
  }

  lemma ShrExact(n: nat, k: nat, w: nat)
    requires n % Pow2(k) == 0 && n < Pow2(w + k)
    ensures Shr(n, k) * Pow2(k) == n && Shr(n, k) < Pow2(w)
  {
    var q := Shr(n, k);
    DivMod(n, Pow2(k));
    Pow2Add(w, k);
    if q >= Pow2(w) { Grow(Pow2(w), q, Pow2(k)); }
  }

  lemma Grow(a: nat, b: nat, p: nat)
    requires a <= b
    ensures a * p <= b * p
  {
  }

  /** `decode_b3` inverts printing for every 32-byte value. */
  lemma B3RoundTrip(d: Digest)
    ensures AcceptedB3("b3:" + EncodeText(d)) && TopBits("b3:" + EncodeText(d)) == d
  {
    hide Spelled, BigEndian, Number;
    var text := "b3:" + EncodeText(d);
    assert text[3..] == EncodeText(d);
    PaddedNumber(d);
    SmallPowers();
    BigEndianNumber(d);
  }

  /** It is lax: the text it accepts is the printed form iff its last character spells four zero bits. */
  lemma B3CanonicalIff(text: string)
    requires AcceptedB3(text)
    ensures text == "b3:" + EncodeText(TopBits(text)) <==> Value(text[54]).value % 16 == 0
  {
    hide Spell, BigEndian, Number, Value;
    var rest := text[3..];
    var n := Spelled(rest);
    assert text == "b3:" + rest && rest[51] == text[54];
    assert n % 16 == Value(text[54]).value % 16;
    SpelledBound(rest);
    Pow2Add(256, 4);
    SmallPowers();
    NumberBigEndian(n / 16, 32);
    var printed := EncodeText(TopBits(text));
    assert printed == Spell(n / 16 * 16, 52);
    SpellSpelled(rest);
    if printed == rest { SpelledSpell(n / 16 * 16, 52); }
    if text == "b3:" + printed { assert printed == text[3..]; }
  }

  /** A text that is accepted for the zero digest but is not its printed form. */
  lemma LaxText()
    ensures var text := "b3:" + Spell(1, 52);
      AcceptedB3(text) && TopBits(text) == BigEndian(0, 32) && text != "b3:" + EncodeText(TopBits(text))
  {
    OneFits();
    hide BigEndian, EncodeText, Letter, Value, Pow2, Spell, Spelled;
    SpellLast(1, 52);
    var rest := Spell(1, 52);
    var text := "b3:" + rest;
    assert text[3..] == rest && text[54] == rest[51] && text[..3] == "b3:";
    SpelledSpell(1, 52);
    B3CanonicalIff(text);
  }

  lemma SpellLast(n: nat, width: nat)
    requires width > 0
    ensures Spell(n, width)[width - 1] == Letter(n % 32)
  {
  }

  lemma OneFits()
    ensures 1 < Pow2(5 * 52)
  {
    assert Pow2(260) == 2 * Pow2(259);
  }
}
