/**
 * Polynomials over GF(2), written as naturals: bit i is the coefficient of x^i.
 * Addition is exclusive or; `ClMul` is the carry-less product.
 */
module Gf2 {

  /** Bitwise exclusive or. */
  function Xor(a: nat, b: nat): nat
    decreases a + b
  {
    if a == 0 && b == 0 then 0 else (if a % 2 == b % 2 then 0 else 1) + 2 * Xor(a / 2, b / 2)
  }

  lemma XorParts(a: nat, b: nat, x: nat)
    requires x == Xor(a, b)
    ensures x % 2 == (if a % 2 == b % 2 then 0 else 1) && x / 2 == Xor(a / 2, b / 2)
  {
  }

  lemma {:induction false} XorComm(a: nat, b: nat)
    ensures Xor(a, b) == Xor(b, a)
    decreases a + b
  {
    if a + b > 0 { XorComm(a / 2, b / 2); }
  }

  lemma {:induction false} XorZero(a: nat)
    ensures Xor(a, 0) == a && Xor(0, a) == a
  {
    if a > 0 { XorZero(a / 2); }
  }

  lemma {:induction false} XorSelf(a: nat)
    ensures Xor(a, a) == 0
  {
    if a > 0 { XorSelf(a / 2); }
  }

  lemma {:induction false} XorAssoc(a: nat, b: nat, c: nat)
    ensures Xor(Xor(a, b), c) == Xor(a, Xor(b, c))
    decreases a + b + c
  {
    if a + b + c > 0 {
      var ab, bc := Xor(a, b), Xor(b, c);
      XorParts(a, b, ab);
      XorParts(b, c, bc);
      XorParts(ab, c, Xor(ab, c));
      XorParts(a, bc, Xor(a, bc));
      XorAssoc(a / 2, b / 2, c / 2);
      Halves(Xor(ab, c), Xor(a, bc));
    }
  }

  lemma Halves(x: nat, y: nat)
    requires x % 2 == y % 2 && x / 2 == y / 2
    ensures x == y
  {
  }

  lemma XorSwap(a: nat, b: nat, c: nat, d: nat)
    ensures Xor(Xor(a, b), Xor(c, d)) == Xor(Xor(a, c), Xor(b, d))
  {
    XorAssoc(a, b, Xor(c, d));
    XorAssoc(b, c, d);
    XorComm(b, c);
    XorAssoc(c, b, d);
    XorAssoc(a, c, Xor(b, d));
  }

  /** Adding the same thing twice changes nothing. */
  lemma XorCancel(a: nat, b: nat)
    ensures Xor(a, Xor(a, b)) == b && Xor(Xor(b, a), a) == b
  {
    XorAssoc(a, a, b);
    XorSelf(a);
    XorZero(b);
    XorAssoc(b, a, a);
  }

  lemma XorDouble(a: nat, b: nat)
    ensures Xor(2 * a, 2 * b) == 2 * Xor(a, b)
  {
  }

  /** The parity of a number and its half put it back together. */
  lemma XorUnit(a: nat)
    ensures Xor(a % 2, 2 * (a / 2)) == a
  {
    XorZero(a / 2);
    XorParts(a % 2, 2 * (a / 2), Xor(a % 2, 2 * (a / 2)));
  }

  // ----- Bits -----

  function Shift(a: nat, k: nat): nat {
    if k == 0 then a else Shift(a / 2, k - 1)
  }

  lemma {:induction false} ShiftXor(a: nat, b: nat, k: nat)
    ensures Shift(Xor(a, b), k) == Xor(Shift(a, k), Shift(b, k))
    decreases k
  {
    if k > 0 {
      XorParts(a, b, Xor(a, b));
      ShiftXor(a / 2, b / 2, k - 1);
    }
  }

  predicate Bit(a: nat, k: nat) { Shift(a, k) % 2 == 1 }

  lemma BitXor(a: nat, b: nat, k: nat)
    ensures Bit(Xor(a, b), k) <==> Bit(a, k) != Bit(b, k)
  {
    ShiftXor(a, b, k);
    XorParts(Shift(a, k), Shift(b, k), Xor(Shift(a, k), Shift(b, k)));
  }

  lemma {:induction false} ShiftAdd(a: nat, j: nat, k: nat)
    ensures Shift(a, j + k) == Shift(Shift(a, j), k)
    decreases j
  {
    if j > 0 { ShiftAdd(a / 2, j - 1, k); }
  }

  lemma ShiftFew(a: nat)
    ensures Shift(a, 3) == a / 8 && Shift(a, 4) == a / 16
  {
    assert Shift(a, 3) == Shift(a / 2, 2) == Shift(a / 4, 1);
    assert Shift(a, 4) == Shift(a / 2, 3) == Shift(a / 4, 2) == Shift(a / 8, 1);
  }

  /** Shifting by seven or eight places tells a byte's range. */
  lemma ShiftRange(a: nat)
    ensures Shift(a, 7) == a / 128 && Shift(a, 8) == a / 256
  {
    ShiftAdd(a, 4, 3);
    ShiftAdd(a, 4, 4);
    ShiftFew(a);
    ShiftFew(a / 16);
    assert a / 16 / 8 == a / 128 && a / 16 / 16 == a / 256;
  }

  /** The highest of eight bits, and everything above them, add like single bits. */
  lemma XorTop(a: nat, b: nat)
    ensures Xor(a, b) / 128 == Xor(a / 128, b / 128) && Xor(a, b) / 256 == Xor(a / 256, b / 256)
  {
    ShiftRange(a);
    ShiftRange(b);
    ShiftRange(Xor(a, b));
    ShiftXor(a, b, 7);
    ShiftXor(a, b, 8);
  }

  // ----- The polynomial ring -----

  function Select(b: nat, a: nat): nat { if b % 2 == 1 then a else 0 }

  /** The carry-less product. */
  function ClMul(a: nat, b: nat): nat
    decreases b
  {
    if b == 0 then 0 else Xor(Select(b, a), ClMul(2 * a, b / 2))
  }

  lemma SelectXor(b: nat, a: nat, c: nat)
    ensures Select(b, Xor(a, c)) == Xor(Select(b, a), Select(b, c))
  {
    XorZero(0);
  }

  lemma SelectSum(b: nat, d: nat, a: nat)
    ensures Select(Xor(b, d), a) == Xor(Select(b, a), Select(d, a))
  {
    XorParts(b, d, Xor(b, d));
    XorZero(a);
    XorSelf(a);
    XorZero(0);
  }

  lemma {:induction false} ClMulLeft(a: nat, c: nat, b: nat)
    ensures ClMul(Xor(a, c), b) == Xor(ClMul(a, b), ClMul(c, b))
    decreases b
  {
    if b == 0 {
      XorZero(0);
    } else {
      XorDouble(a, c);
      ClMulLeft(2 * a, 2 * c, b / 2);
      SelectXor(b, a, c);
      XorSwap(Select(b, a), Select(b, c), ClMul(2 * a, b / 2), ClMul(2 * c, b / 2));
    }
  }

  lemma {:induction false} ClMulDouble(a: nat, b: nat)
    ensures ClMul(2 * a, b) == 2 * ClMul(a, b)
    decreases b
  {
    if b > 0 {
      ClMulDouble(2 * a, b / 2);
      XorDouble(Select(b, a), ClMul(2 * a, b / 2));
      assert Select(b, 2 * a) == 2 * Select(b, a);
    }
  }

  lemma {:induction false} ClMulOne(b: nat)
    ensures ClMul(1, b) == b && ClMul(0, b) == 0
    decreases b
  {
    if b > 0 {
      ClMulOne(b / 2);
      ClMulDouble(1, b / 2);
      ClMulDouble(0, b / 2);
      XorUnit(b);
      XorZero(0);
    }
  }

  lemma {:induction false} ClMulComm(a: nat, b: nat)
    ensures ClMul(a, b) == ClMul(b, a)
    decreases b
  {
    ClMulOne(a);
    if b > 0 {
      ClMulComm(a, b / 2);
      ClMulDouble(a, b / 2);
      ClMulDouble(b / 2, a);
      XorUnit(b);
      ClMulLeft(b % 2, 2 * (b / 2), a);
      assert ClMul(b % 2, a) == Select(b, a);
    }
  }
}
