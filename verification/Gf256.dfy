/** GF(2^8) with the reduction polynomial 0x11B, the field of section 4.2 of FIPS 197. */
module Gf256 {
  import opened Bytes
  import opened Gf2

  const REDUCTION_POLYNOMIAL := 0x11B

  // ----- Addition and multiplication by x -----

  /** `add`: exclusive or. */
  function Add(a: byte, b: byte): byte {
    XorTop(a, b);
    Xor(a, b)
  }

  /** One doubling step of `mul`: shift, then subtract the polynomial if bit 8 came up. */
  function XTime(a: byte): byte {
    XorTop(2 * a, REDUCTION_POLYNOMIAL);
    if a >= 128 then Xor(2 * a, REDUCTION_POLYNOMIAL) else 2 * a
  }

  lemma XTimeAdd(a: byte, b: byte)
    ensures XTime(Add(a, b)) == Add(XTime(a), XTime(b))
  {
    var m := REDUCTION_POLYNOMIAL;
    XorTop(a, b);
    XorDouble(a, b);
    XorSwap(2 * a, m, 2 * b, m);
    XorSwap(2 * a, m, 2 * b, 0);
    XorSwap(2 * a, 0, 2 * b, m);
    XorSelf(m);
    XorZero(m);
    XorZero(2 * a);
    XorZero(2 * b);
    XorZero(Xor(2 * a, 2 * b));
  }

  // ----- Multiplication -----

  /** The sum of the doublings of `a` selected by the bits of `b`. */
  function Mul(a: byte, b: nat): byte
    decreases b
  {
    if b == 0 then 0 else Add(Select(b, a), Mul(XTime(a), b / 2))
  }

  /** `mul`: the shift-and-xor loop. */
  method MulLoop(x: byte, y: byte) returns (r: byte)
    ensures r == Mul(x, y)
  {
    var a: nat, b: nat, acc: nat := x, y, 0;
    XorZero(Mul(x, y));
    while b != 0
      invariant a < 256 && acc < 256
      invariant Xor(acc, Mul(a, b)) == Mul(x, y)
    {
      ghost var rest := Mul(XTime(a), b / 2);
      XorAssoc(acc, Select(b, a), rest);
      XorZero(acc);
      XorTop(acc, a);
      if b % 2 == 1 {
        acc := Xor(acc, a);
      }
      b := b / 2;
      var highBitSet := a >= 128;
      a := 2 * a;
      if highBitSet {
        XorTop(a, REDUCTION_POLYNOMIAL);
        a := Xor(a, REDUCTION_POLYNOMIAL);
      }
    }
    XorZero(acc);
    r := acc % 256;
  }

  lemma {:induction false} MulLeft(a: byte, c: byte, b: nat)
    ensures Mul(Add(a, c), b) == Add(Mul(a, b), Mul(c, b))
    decreases b
  {
    if b == 0 {
      XorZero(0);
    } else {
      XTimeAdd(a, c);
      MulLeft(XTime(a), XTime(c), b / 2);
      SelectXor(b, a, c);
      XorSwap(Select(b, a), Select(b, c), Mul(XTime(a), b / 2), Mul(XTime(c), b / 2));
    }
  }

  lemma {:induction false} MulRight(a: byte, b: nat, d: nat)
    ensures Mul(a, Xor(b, d)) == Add(Mul(a, b), Mul(a, d))
    decreases b + d
  {
    if b + d == 0 {
      XorZero(0);
    } else {
      var s := Xor(b, d);
      XorParts(b, d, s);
      MulRight(XTime(a), b / 2, d / 2);
      SelectSum(b, d, a);
      XorSwap(Select(b, a), Select(d, a), Mul(XTime(a), b / 2), Mul(XTime(a), d / 2));
      MulUnfold(a, b);
      MulUnfold(a, d);
      MulUnfold(a, s);
    }
  }

  /** The defining equation also holds at zero. */
  lemma MulUnfold(a: byte, b: nat)
    ensures Mul(a, b) == Add(Select(b, a), Mul(XTime(a), b / 2))
  {
    XorZero(0);
  }

  lemma {:induction false} MulXTime(a: byte, b: nat)
    ensures Mul(XTime(a), b) == XTime(Mul(a, b))
    decreases b
  {
    if b > 0 {
      MulXTime(XTime(a), b / 2);
      XTimeAdd(Select(b, a), Mul(XTime(a), b / 2));
      assert Select(b, XTime(a)) == XTime(Select(b, a));
    }
  }

  lemma {:induction false} MulOne(b: byte)
    ensures Mul(1, b) == b && Mul(0, b) == 0 && Mul(b, 1) == b
    decreases b
  {
    XorZero(b);
    assert Mul(b, 1) == Add(Select(1, b), Mul(XTime(b), 0));
    if b > 0 {
      if b > 1 { MulOne(b / 2); }
      MulXTime(1, b / 2);
      MulXTime(0, b / 2);
      XorUnit(b);
      XorZero(0);
    }
  }

  lemma {:induction false} MulComm(a: byte, b: byte)
    ensures Mul(a, b) == Mul(b, a)
    decreases b
  {
    MulOne(a);
    if b > 0 {
      MulComm(a, b / 2);
      MulXTime(a, b / 2);
      MulXTime(b / 2, a);
      XorUnit(b);
      MulLeft(b % 2, XTime(b / 2), a);
      assert Mul(b % 2, a) == Select(b, a);
    }
  }

  lemma {:induction false} MulAssoc(a: byte, b: byte, c: nat)
    ensures Mul(Mul(a, b), c) == Mul(a, Mul(b, c))
    decreases c
  {
    if c > 0 {
      var h := c / 2;
      MulAssoc(a, XTime(b), h);
      MulRight(a, Select(c, b), Mul(XTime(b), h));
      MulComm(a, XTime(b));
      MulXTime(b, a);
      MulComm(a, b);
      assert Mul(a, Select(c, b)) == Select(c, Mul(a, b));
    }
  }

  // ----- Multiplication is the polynomial product reduced by 0x11B -----

  /** `r` is the remainder of the polynomial `p` on division by 0x11B. */
  ghost predicate IsRemainder(p: nat, r: nat) {
    r < 256 && exists q: nat :: p == Xor(ClMul(q, REDUCTION_POLYNOMIAL), r)
  }

  lemma {:induction false} Quotient(a: byte, b: nat) returns (q: nat)
    ensures ClMul(a, b) == Xor(ClMul(q, REDUCTION_POLYNOMIAL), Mul(a, b))
    decreases b
  {
    var m := REDUCTION_POLYNOMIAL;
    if b == 0 {
      ClMulOne(m);
      XorZero(0);
      return 0;
    }
    var h := b / 2;
    var rest := Quotient(XTime(a), h);
    var carry, extra := if a >= 128 then m else 0, if a >= 128 then h else 0;
    XorCancel(m, 2 * a);
    XorZero(2 * a);
    assert 2 * a == Xor(XTime(a), carry);
    ClMulLeft(XTime(a), carry, h);
    ClMulComm(m, h);
    ClMulOne(h);
    ClMulOne(m);
    q := Xor(rest, extra);
    ClMulLeft(rest, extra, m);
    var x, y, z, s := ClMul(rest, m), Mul(XTime(a), h), ClMul(extra, m), Select(b, a);
    XorAssoc(x, y, z);
    XorComm(y, z);
    XorAssoc(x, z, y);
    XorAssoc(s, Xor(x, z), y);
    XorComm(s, Xor(x, z));
    XorAssoc(Xor(x, z), s, y);
  }

  lemma {:induction false} MultiplesAreLong(d: nat)
    requires d > 0
    ensures ClMul(REDUCTION_POLYNOMIAL, d) >= 256
    decreases d
  {
    var m := REDUCTION_POLYNOMIAL;
    if d == 1 {
      XorZero(m);
      assert ClMul(2 * m, 0) == 0;
    } else {
      MultiplesAreLong(d / 2);
      ClMulDouble(m, d / 2);
      LongSum(Select(d, m), ClMul(m, d / 2));
    }
  }

  lemma LongSum(s: nat, c: nat)
    requires s < 512 && c >= 256
    ensures Xor(s, 2 * c) >= 256
  {
    hide Xor;
    XorTop(s, 2 * c);
    XorParts(s / 256, 2 * c / 256, Xor(s / 256, 2 * c / 256));
    XorZero(2 * c / 256 / 2);
  }

  /** There is only one remainder. */
  lemma RemainderUnique(p: nat, r: nat, r': nat)
    requires IsRemainder(p, r) && IsRemainder(p, r')
    ensures r == r'
  {
    hide Xor, ClMul;
    var m := REDUCTION_POLYNOMIAL;
    var q: nat :| p == Xor(ClMul(q, m), r);
    var q': nat :| p == Xor(ClMul(q', m), r');
    var d := Xor(q, q');
    ClMulLeft(q, q', m);
    XorSwap(ClMul(q, m), r, ClMul(q', m), r');
    XorSelf(p);
    XorCancel(ClMul(d, m), Xor(r, r'));
    XorZero(ClMul(d, m));
    XorTop(r, r');
    XorZero(0);
    ClMulComm(d, m);
    if d > 0 { MultiplesAreLong(d); }
    ClMulOne(m);
    XorCancel(r, r');
    XorZero(r);
  }

  /** `mul` computes the remainder of the carry-less product, and nothing else is one. */
  lemma MulIsRemainder(a: byte, b: byte, r: nat)
    ensures IsRemainder(ClMul(a, b), r) <==> r == Mul(a, b)
  {
    var q := Quotient(a, b);
    assert IsRemainder(ClMul(a, b), Mul(a, b));
    if IsRemainder(ClMul(a, b), r) { RemainderUnique(ClMul(a, b), r, Mul(a, b)); }
  }

  // ----- Powers -----

  function Pow(a: byte, n: nat): byte {
    if n == 0 then 1 else Mul(a, Pow(a, n - 1))
  }

  lemma {:induction false} PowAdd(a: byte, m: nat, n: nat)
    ensures Pow(a, m + n) == Mul(Pow(a, m), Pow(a, n))
    decreases m
  {
    if m == 0 {
      MulOne(Pow(a, n));
    } else {
      PowAdd(a, m - 1, n);
      MulAssoc(a, Pow(a, m - 1), Pow(a, n));
    }
  }

  lemma {:induction false} PowSquare(a: byte, n: nat)
    ensures Pow(Mul(a, a), n) == Pow(a, 2 * n)
    decreases n
  {
    if n > 0 {
      PowSquare(a, n - 1);
      assert Pow(a, 2 * n) == Mul(a, Pow(a, 2 * n - 1)) && Pow(a, 2 * n - 1) == Mul(a, Pow(a, 2 * n - 2));
      MulAssoc(a, a, Pow(a, 2 * n - 2));
    }
  }

  lemma PowStep(acc: byte, a: byte, exp: nat)
    requires exp > 0
    ensures var odd := if exp % 2 == 1 then Mul(acc, a) else acc;
      Mul(acc, Pow(a, exp)) == Mul(odd, Pow(Mul(a, a), exp / 2))
  {
    PowSquare(a, exp / 2);
    if exp % 2 == 1 { MulAssoc(acc, a, Pow(a, exp - 1)); }
  }

  /** `pow`: square-and-multiply is iterated multiplication. */
  method PowLoop(base: byte, exponent: u32) returns (acc: byte)
    ensures acc == Pow(base, exponent)
  {
    var a: byte, exp: nat := base, exponent;
    acc := 1;
    MulOne(Pow(base, exponent));
    while exp > 0
      invariant Mul(acc, Pow(a, exp)) == Pow(base, exponent)
    {
      PowStep(acc, a, exp);
      if exp % 2 == 1 {
        acc := MulLoop(acc, a);
      }
      a := MulLoop(a, a);
      exp := exp / 2;
    }
    MulOne(acc);
  }

  // ----- Every nonzero element is invertible -----

  function Square(a: byte): byte { Mul(a, a) }

  lemma SquareAdd(a: byte, b: byte)
    ensures Square(Add(a, b)) == Add(Square(a), Square(b))
  {
    MulLeft(a, b, Add(a, b));
    MulRight(a, a, b);
    MulRight(b, a, b);
    MulComm(a, b);
    var x := Mul(a, b);
    XorSwap(Square(a), x, x, Square(b));
    XorComm(x, Square(b));
    XorComm(Square(a), x);
    XorSwap(x, Square(a), x, Square(b));
    XorSelf(x);
    XorZero(Add(Square(a), Square(b)));
  }

  // Squaring is linear over GF(2), so on the eight coefficients it is a fixed pattern of exclusive ors.

  datatype Bits = Bits(b0: bool, b1: bool, b2: bool, b3: bool, b4: bool, b5: bool, b6: bool, b7: bool)

  function BitsOf(a: nat): Bits {
    Bits(Bit(a, 0), Bit(a, 1), Bit(a, 2), Bit(a, 3), Bit(a, 4), Bit(a, 5), Bit(a, 6), Bit(a, 7))
  }

  function XorBits(x: Bits, y: Bits): Bits {
    Bits(x.b0 != y.b0, x.b1 != y.b1, x.b2 != y.b2, x.b3 != y.b3, x.b4 != y.b4, x.b5 != y.b5, x.b6 != y.b6, x.b7 != y.b7)
  }

  function XTimeBits(x: Bits): Bits {
    Bits(x.b7, x.b0 != x.b7, x.b1, x.b2 != x.b7, x.b3 != x.b7, x.b4, x.b5, x.b6)
  }

  function SquareBits(x: Bits): Bits {
    Bits((x.b0 != x.b4) != x.b6, (x.b4 != x.b6) != x.b7, x.b1 != x.b5, (x.b4 != x.b5) != (x.b6 != x.b7),
         (x.b2 != x.b4) != x.b7, x.b5 != x.b6, x.b3 != x.b5, x.b6 != x.b7)
  }

  lemma BitsXor(a: nat, b: nat)
    ensures BitsOf(Xor(a, b)) == XorBits(BitsOf(a), BitsOf(b))
  {
    forall k ensures Bit(Xor(a, b), k) <==> Bit(a, k) != Bit(b, k) { BitXor(a, b, k); }
  }

  lemma BitDouble(a: nat, k: nat)
    ensures Bit(2 * a, k + 1) == Bit(a, k) && !Bit(2 * a, 0)
  {
    assert Shift(2 * a, k + 1) == Shift(2 * a / 2, k);
  }

  /** Halving drops the lowest bit. */
  lemma BitHalf(a: nat, k: nat)
    ensures Bit(a / 2, k) == Bit(a, k + 1)
  {
  }

  lemma {:induction false} SmallShift(a: nat, k: nat)
    requires a <= 1 && k > 0
    ensures Shift(a, k) == 0
    decreases k
  {
    if k > 1 { SmallShift(a / 2, k - 1); }
  }

  lemma BitsXTime(a: byte)
    ensures BitsOf(XTime(a)) == XTimeBits(BitsOf(a))
  {
    ShiftRange(a);
    assert a >= 128 <==> Bit(a, 7);
    forall k: nat ensures Bit(2 * a, k + 1) == Bit(a, k) { BitDouble(a, k); }
    BitDouble(a, 0);
    BitsXor(2 * a, REDUCTION_POLYNOMIAL);
    PolynomialBits();
    assert BitsOf(2 * a) == Bits(false, Bit(a, 0), Bit(a, 1), Bit(a, 2), Bit(a, 3), Bit(a, 4), Bit(a, 5), Bit(a, 6));
  }

  lemma PolynomialBits()
    ensures BitsOf(REDUCTION_POLYNOMIAL) == Bits(true, true, false, true, true, false, false, false)
  {
    assert Shift(0x11B, 1) == 0x8D;
    assert Shift(0x11B, 2) == Shift(0x8D, 1) == 0x46;
    assert Shift(0x11B, 3) == Shift(0x8D, 2) == Shift(0x46, 1) == 0x23;
    assert Shift(0x11B, 4) == Shift(0x8D, 3) == Shift(0x46, 2) == Shift(0x23, 1) == 0x11;
    ShiftAdd(0x11B, 4, 1);
    ShiftAdd(0x11B, 4, 2);
    ShiftAdd(0x11B, 4, 3);
    assert Shift(0x11, 1) == 8;
    assert Shift(0x11, 2) == Shift(8, 1) == 4;
    assert Shift(0x11, 3) == Shift(8, 2) == Shift(4, 1) == 2;
  }

  /** Horner's rule for the square: the lowest coefficient, plus x^2 times the square of the rest. */
  lemma SquareHorner(h: byte)
    ensures Square(h) == Add(h % 2, XTime(XTime(Square(h / 2))))
  {
    var r := h / 2;
    XorUnit(h);
    SquareAdd(h % 2, XTime(r));
    MulOne(h % 2);
    assert Square(h % 2) == h % 2;
    MulXTime(r, XTime(r));
    MulComm(r, XTime(r));
    MulXTime(r, r);
  }

  lemma {:induction false} SquareOnBits(h: byte)
    ensures BitsOf(Square(h)) == SquareBits(BitsOf(h))
    decreases h
  {
    if h == 0 {
      MulOne(0);
      forall k: nat | k > 0 ensures Shift(0, k) == 0 { SmallShift(0, k); }
    } else {
      var r := h / 2;
      SquareOnBits(r);
      SquareHorner(h);
      BitsXTime(Square(r));
      BitsXTime(XTime(Square(r)));
      BitsXor(h % 2, XTime(XTime(Square(r))));
      HalfBits(h);
    }
  }

  lemma HalfBits(h: byte)
    ensures var x := BitsOf(h); BitsOf(h / 2) == Bits(x.b1, x.b2, x.b3, x.b4, x.b5, x.b6, x.b7, false)
    ensures BitsOf(h % 2) == Bits(Bit(h, 0), false, false, false, false, false, false, false)
  {
    forall k: nat ensures Bit(h / 2, k) == Bit(h, k + 1) { BitHalf(h, k); }
    ShiftRange(h / 2);
    forall k: nat | k > 0 ensures !Bit(h % 2, k) { SmallShift(h % 2, k); }
  }

  lemma {:induction false} BitsInjective(a: nat, b: nat, n: nat)
    requires forall k :: 0 <= k < n ==> Bit(a, k) == Bit(b, k)
    requires Shift(a, n) == 0 && Shift(b, n) == 0
    ensures a == b
    decreases n
  {
    if n > 0 {
      assert Bit(a, 0) == Bit(b, 0);
      forall k | 0 <= k < n - 1 ensures Bit(a / 2, k) == Bit(b / 2, k) {
        BitHalf(a, k);
        BitHalf(b, k);
        assert Bit(a, k + 1) == Bit(b, k + 1);
      }
      BitsInjective(a / 2, b / 2, n - 1);
      Halves(a, b);
    }
  }

  lemma SameBits(a: byte, b: byte)
    requires BitsOf(a) == BitsOf(b)
    ensures a == b
  {
    ShiftRange(a);
    ShiftRange(b);
    forall k | 0 <= k < 8 ensures Bit(a, k) == Bit(b, k) {}
    BitsInjective(a, b, 8);
  }

  function FourthPower(a: byte): byte { Square(Square(a)) }

  function FourthPowerBits(x: Bits): Bits {
    Bits(((((x.b0 != x.b2) != x.b3) != x.b5) != x.b6) != x.b7, (((x.b2 != x.b3) != x.b4) != x.b5) != x.b6,
         (x.b4 != x.b5) != x.b7, (x.b2 != x.b3) != x.b4,
         (((x.b1 != x.b2) != x.b4) != x.b5) != x.b6, x.b3 != x.b6, x.b4 != x.b7, ((x.b3 != x.b5) != x.b6) != x.b7)
  }

  function SixteenthPowerBits(x: Bits): Bits {
    Bits(((x.b0 != x.b4) != x.b5) != x.b6, x.b1, (((x.b1 != x.b2) != x.b4) != x.b6) != x.b7,
         (((x.b1 != x.b3) != x.b4) != x.b6) != x.b7, (x.b1 != x.b5) != x.b6, (x.b2 != x.b3) != x.b7,
         (((x.b1 != x.b2) != x.b3) != x.b4) != x.b7, (x.b2 != x.b3) != x.b5)
  }

  lemma FourthPowerIsPow(a: byte, n: nat)
    ensures Pow(FourthPower(a), n) == Pow(a, 4 * n)
  {
    PowSquare(a, 2 * n);
    PowSquare(Square(a), n);
  }

  lemma FourthPowerOnBits(a: byte)
    ensures BitsOf(FourthPower(a)) == FourthPowerBits(BitsOf(a))
  {
    SquareOnBits(a);
    SquareOnBits(Square(a));
    TwiceSquareBits(BitsOf(a));
  }

  lemma TwiceSquareBits(x: Bits)
    ensures SquareBits(SquareBits(x)) == FourthPowerBits(x)
  {
  }

  lemma TwiceFourthPowerBits(x: Bits)
    ensures FourthPowerBits(FourthPowerBits(x)) == SixteenthPowerBits(x)
  {
  }

  lemma TwiceSixteenthPowerBits(x: Bits)
    ensures SixteenthPowerBits(SixteenthPowerBits(x)) == x
  {
  }

  /** Squaring eight times is the identity: a^256 = a. */
  lemma Power256(a: byte)
    ensures Pow(a, 256) == a
  {
    var b := FourthPower(a);
    var c := FourthPower(b);
    var d := FourthPower(c);
    FourthPowerIsPow(a, 64);
    FourthPowerIsPow(b, 16);
    FourthPowerIsPow(c, 4);
    FourthPowerIsPow(d, 1);
    EightSquares(a);
    assert Pow(a, 1) == Mul(a, Pow(a, 0));
    MulOne(a);
  }

  lemma EightSquares(a: byte)
    ensures FourthPower(FourthPower(FourthPower(FourthPower(a)))) == a
  {
    var b := FourthPower(a);
    var c := FourthPower(b);
    var d := FourthPower(c);
    FourthPowerOnBits(a);
    FourthPowerOnBits(b);
    FourthPowerOnBits(c);
    FourthPowerOnBits(d);
    TwiceFourthPowerBits(BitsOf(a));
    TwiceFourthPowerBits(BitsOf(c));
    TwiceSixteenthPowerBits(BitsOf(a));
    SameBits(FourthPower(d), a);
  }

  /** Only 0 and 1 equal their own square, because 0x11B is irreducible. */
  lemma Idempotents(e: byte)
    requires Square(e) == e
    ensures e == 0 || e == 1
  {
    SquareOnBits(e);
    var x := BitsOf(e);
    assert !x.b1 && !x.b2 && !x.b3 && !x.b4 && !x.b5 && !x.b6 && !x.b7;
    if x.b0 {
      OneBits();
      SameBits(e, 1);
    } else {
      ZeroBits();
      SameBits(e, 0);
    }
  }

  lemma OneBits()
    ensures BitsOf(1) == Bits(true, false, false, false, false, false, false, false)
  {
    forall k: nat | k > 0 ensures !Bit(1, k) { SmallShift(1, k); }
  }

  lemma ZeroBits()
    ensures BitsOf(0) == Bits(false, false, false, false, false, false, false, false)
  {
    forall k: nat | k > 0 ensures !Bit(0, k) { SmallShift(0, k); }
  }

  /** Fermat: a^255 = 1 for every nonzero a. */
  lemma Power255(a: byte)
    requires a != 0
    ensures Pow(a, 255) == 1
  {
    var e := Pow(a, 255);
    Power256(a);
    assert Pow(a, 256) == Mul(a, e);
    PowAdd(a, 255, 255);
    PowAdd(a, 256, 254);
    assert Pow(a, 255) == Mul(a, Pow(a, 254));
    assert Square(e) == e;
    Idempotents(e);
  }

  /** `inv`: the inverse by Fermat's little theorem, 0 for 0. */
  function Inv(a: byte): byte { if a == 0 then 0 else Pow(a, 254) }

  method InvLoop(a: byte) returns (r: byte)
    ensures r == Inv(a)
  {
    if a == 0 { return 0; }
    r := PowLoop(a, 254);
  }

  /** `inv` is a true inverse exactly on the nonzero elements, and the only one. */
  lemma InvIsInverse(a: byte, b: byte)
    ensures a != 0 ==> (Mul(a, b) == 1 <==> b == Inv(a))
    ensures a == 0 ==> Mul(a, b) != 1
  {
    if a == 0 {
      MulOne(b);
    } else {
      Power255(a);
      assert Mul(a, Inv(a)) == Pow(a, 255);
      if Mul(a, b) == 1 {
        MulAssoc(Inv(a), a, b);
        MulComm(Inv(a), a);
        MulOne(b);
        MulOne(Inv(a));
      }
    }
  }

  /** A product vanishes only if a factor does. */
  lemma NoZeroDivisors(a: byte, b: byte)
    ensures Mul(a, b) == 0 <==> a == 0 || b == 0
  {
    MulOne(a);
    MulOne(b);
    MulComm(a, b);
    if a != 0 && Mul(a, b) == 0 {
      InvIsInverse(a, Inv(a));
      MulAssoc(Inv(a), a, b);
      MulComm(Inv(a), a);
      MulComm(Inv(a), 0);
      MulOne(Inv(a));
    }
  }

  lemma AddIsZero(a: byte, b: byte)
    ensures Add(a, b) == 0 <==> a == b
  {
    XorSelf(a);
    XorCancel(a, b);
    XorZero(a);
  }

  // ----- Dot product -----

  function Dot(a: seq<byte>, b: seq<byte>): byte
    requires |a| == |b|
  {
    if a == [] then 0 else Add(Dot(a[..|a| - 1], b[..|b| - 1]), Mul(a[|a| - 1], b[|b| - 1]))
  }

  /** `dot`; the caller must pass equal lengths, the loop panics otherwise. */
  method DotLoop(a: seq<byte>, b: seq<byte>) returns (acc: byte)
    requires |a| == |b|
    ensures acc == Dot(a, b)
  {
    acc := 0;
    var i := 0;
    while i < |a|
      invariant 0 <= i <= |a|
      invariant acc == Dot(a[..i], b[..i])
    {
      assert a[..i + 1][..i] == a[..i] && b[..i + 1][..i] == b[..i];
      var p := MulLoop(a[i], b[i]);
      acc := Add(acc, p);
      i := i + 1;
    }
    assert a[..i] == a && b[..i] == b;
  }

  function AddVec(a: seq<byte>, b: seq<byte>): (r: seq<byte>)
    requires |a| == |b|
    ensures |r| == |a|
  {
    seq(|a|, i requires 0 <= i < |a| => Add(a[i], b[i]))
  }

  function ScaleVec(s: byte, a: seq<byte>): (r: seq<byte>)
    ensures |r| == |a|
  {
    seq(|a|, i requires 0 <= i < |a| => Mul(s, a[i]))
  }

  /** `dot` is symmetric and linear in its first argument, hence bilinear. */
  lemma {:induction false} DotBilinear(s: byte, a: seq<byte>, b: seq<byte>, c: seq<byte>)
    requires |a| == |b| == |c|
    ensures Dot(AddVec(ScaleVec(s, a), b), c) == Add(Mul(s, Dot(a, c)), Dot(b, c))
    ensures Dot(a, c) == Dot(c, a)
    decreases |a|
  {
    if a == [] {
      XorZero(0);
      MulComm(s, 0);
      MulOne(s);
    } else {
      var n := |a| - 1;
      DotBilinear(s, a[..n], b[..n], c[..n]);
      var v := AddVec(ScaleVec(s, a), b);
      assert v[..n] == AddVec(ScaleVec(s, a[..n]), b[..n]);
      MulLeft(Mul(s, a[n]), b[n], c[n]);
      MulAssoc(s, a[n], c[n]);
      MulRight(s, Dot(a[..n], c[..n]), Mul(a[n], c[n]));
      MulComm(a[n], c[n]);
      XorSwap(Mul(s, Dot(a[..n], c[..n])), Dot(b[..n], c[..n]), Mul(s, Mul(a[n], c[n])), Mul(b[n], c[n]));
    }
  }
}
