/** Shifts and ORs of unsigned machine integers, as arithmetic. */
module Bits {
  import opened Bytes

  const TWO64 := 0x1_0000_0000_0000_0000

  function Pow2(k: nat): (p: nat)
    ensures p > 0
  {
    if k == 0 then 1 else 2 * Pow2(k - 1)
  }

  function Or(a: nat, b: nat): nat {
    if a == 0 && b == 0 then 0
    else (if a % 2 == 1 || b % 2 == 1 then 1 else 0) + 2 * Or(a / 2, b / 2)
  }

  /** `u64::checked_shl`: refuses a shift of 64 or more, and drops the bits shifted out. */
  function CheckedShl(x: u64, shift: nat): Option<u64> {
    if shift >= 64 then None else Some(x * Pow2(shift) % TWO64)
  }

  lemma {:induction false} OrZero(b: nat)
    ensures Or(0, b) == b
  {
    if b > 0 { OrZero(b / 2); }
  }

  /** Where one operand has only low bits and the other only high ones, OR is addition. */
  lemma {:induction false} OrDisjoint(a: nat, m: nat, k: nat)
    requires a < Pow2(k)
    ensures Or(a, m * Pow2(k)) == a + m * Pow2(k)
    decreases k
  {
    if k == 0 {
      OrZero(m);
    } else {
      var half := m * Pow2(k - 1);
      assert m * Pow2(k) == 2 * half;
      OrDisjoint(a / 2, m, k - 1);
      assert 2 * half / 2 == half && 2 * half % 2 == 0;
    }
  }

  lemma {:induction false} OrComm(a: nat, b: nat)
    ensures Or(a, b) == Or(b, a)
  {
    if a != 0 || b != 0 { OrComm(a / 2, b / 2); }
  }
}
