/** Polynomials over GF(2^8): evaluation, division by a root, and interpolation. */
module Polynomials {
  import opened Bytes
  import opened Gf2
  import opened Gf256

  /** Coefficients, constant term first. */
  type Poly = seq<byte>

  function Eval(c: Poly, x: byte): byte {
    if c == [] then 0 else Add(c[0], Mul(x, Eval(c[1..], x)))
  }

  /** `eval_poly`: Horner's method from the highest coefficient down. */
  method EvalPoly(c: Poly, x: byte) returns (acc: byte)
    ensures acc == Eval(c, x)
  {
    acc := 0;
    var i := |c|;
    assert c[i..] == [];
    while i > 0
      invariant 0 <= i <= |c|
      invariant acc == Eval(c[i..], x)
    {
      i := i - 1;
      assert c[i..][1..] == c[i + 1..];
      MulComm(acc, x);
      XorComm(Mul(acc, x), c[i]);
      var p := MulLoop(acc, x);
      acc := Add(p, c[i]);
    }
    assert c[0..] == c;
  }

  lemma EvalAtZero(c: Poly)
    ensures Eval(c, 0) == if c == [] then 0 else c[0]
  {
    if c != [] {
      MulOne(Eval(c[1..], 0));
      XorZero(c[0]);
    }
  }

  // ----- Sums, multiples and linear factors -----

  function AddPoly(p: Poly, q: Poly): (r: Poly)
    requires |q| <= |p|
    ensures |r| == |p|
  {
    if q == [] then p else [Add(p[0], q[0])] + AddPoly(p[1..], q[1..])
  }

  lemma {:induction false} EvalAdd(p: Poly, q: Poly, x: byte)
    requires |q| <= |p|
    ensures Eval(AddPoly(p, q), x) == Add(Eval(p, x), Eval(q, x))
  {
    if q == [] {
      XorZero(Eval(p, x));
    } else {
      EvalAdd(p[1..], q[1..], x);
      var a, b := Eval(p[1..], x), Eval(q[1..], x);
      MulRight(x, a, b);
      XorSwap(p[0], q[0], Mul(x, a), Mul(x, b));
      assert AddPoly(p, q)[1..] == AddPoly(p[1..], q[1..]);
    }
  }

  function Scale(s: byte, p: Poly): (r: Poly)
    ensures |r| == |p|
  {
    if p == [] then [] else [Mul(s, p[0])] + Scale(s, p[1..])
  }

  lemma {:induction false} EvalScale(s: byte, p: Poly, x: byte)
    ensures Eval(Scale(s, p), x) == Mul(s, Eval(p, x))
  {
    if p == [] {
      MulComm(s, 0);
      MulOne(s);
    } else {
      EvalScale(s, p[1..], x);
      var e := Eval(p[1..], x);
      MulRight(s, p[0], Mul(x, e));
      MulAssoc(x, s, e);
      MulComm(x, s);
      MulAssoc(s, x, e);
      assert Scale(s, p)[1..] == Scale(s, p[1..]);
    }
  }

  /** (z + r) p(z). */
  function TimesLinear(p: Poly, r: byte): (q: Poly)
    ensures |q| == |p| + 1
  {
    AddPoly([0] + p, Scale(r, p))
  }

  lemma EvalTimesLinear(p: Poly, r: byte, x: byte)
    ensures Eval(TimesLinear(p, r), x) == Mul(Add(x, r), Eval(p, x))
  {
    var e := Eval(p, x);
    EvalAdd([0] + p, Scale(r, p), x);
    EvalScale(r, p, x);
    assert ([0] + p)[1..] == p;
    XorZero(Mul(x, e));
    MulLeft(x, r, e);
  }

  // ----- Division by z + r -----

  function Divide(p: Poly, r: byte): (q: Poly)
    ensures |q| == if p == [] then 0 else |p| - 1
  {
    if |p| <= 1 then [] else [Eval(p[1..], r)] + Divide(p[1..], r)
  }

  /** p(z) = p(r) + (z + r) q(z), with q the quotient. */
  lemma {:induction false} DivideFactor(p: Poly, r: byte, z: byte)
    ensures Eval(p, z) == Add(Eval(p, r), Mul(Add(z, r), Eval(Divide(p, r), z)))
  {
    if |p| <= 1 {
      MulComm(Add(z, r), 0);
      MulOne(Add(z, r));
      XorZero(Eval(p, r));
      MulComm(z, 0);
      MulOne(z);
      MulComm(r, 0);
      MulOne(r);
      assert p != [] ==> p[1..] == [];
    } else {
      DivideFactor(p[1..], r, z);
      var e, q := Eval(p[1..], r), Eval(Divide(p[1..], r), z);
      assert Divide(p, r)[1..] == Divide(p[1..], r);
      DivideStep(p[0], r, z, e, q);
    }
  }

  /** p0 + z (e + (z + r) q) = (p0 + r e) + (z + r)(e + z q). */
  lemma DivideStep(p0: byte, r: byte, z: byte, e: byte, q: byte)
    ensures Add(p0, Mul(z, Add(e, Mul(Add(z, r), q))))
         == Add(Add(p0, Mul(r, e)), Mul(Add(z, r), Add(e, Mul(z, q))))
  {
    var zr := Add(z, r);
    MulRight(z, e, Mul(zr, q));
    MulRight(zr, e, Mul(z, q));
    MulLeft(z, r, e);
    MulAssoc(z, zr, q);
    MulComm(z, zr);
    MulAssoc(zr, z, q);
    var ze, re, t := Mul(z, e), Mul(r, e), Mul(zr, Mul(z, q));
    XorAssoc(ze, re, t);
    XorComm(ze, re);
    XorAssoc(re, ze, t);
    XorAssoc(p0, re, Xor(re, Xor(ze, t)));
    XorCancel(re, Xor(ze, t));
  }

  // ----- A polynomial with as many roots as coefficients vanishes -----

  ghost predicate AllZero(p: Poly) { forall i :: 0 <= i < |p| ==> p[i] == 0 }

  lemma {:induction false} QuotientZero(p: Poly, r: byte)
    requires AllZero(Divide(p, r)) && Eval(p, r) == 0
    ensures AllZero(p)
  {
    if p != [] {
      if |p| > 1 {
        var d := Divide(p, r);
        assert d[0] == 0 && d[1..] == Divide(p[1..], r);
        QuotientZero(p[1..], r);
      } else {
        assert p[1..] == [];
      }
      MulComm(r, 0);
      MulOne(r);
      XorZero(p[0]);
      assert p == [p[0]] + p[1..];
    }
  }

  lemma {:induction false} RootsVanish(p: Poly, xs: seq<byte>)
    requires |p| <= |xs| && Distinct(xs) && forall i :: 0 <= i < |xs| ==> Eval(p, xs[i]) == 0
    ensures AllZero(p)
    decreases |p|
  {
    if p != [] {
      var last := |xs| - 1;
      var r := xs[last];
      var q := Divide(p, r);
      forall i | 0 <= i < last ensures Eval(q, xs[i]) == 0 {
        DivideFactor(p, r, xs[i]);
        XorZero(Mul(Add(xs[i], r), Eval(q, xs[i])));
        AddIsZero(xs[i], r);
        NoZeroDivisors(Add(xs[i], r), Eval(q, xs[i]));
      }
      RootsVanish(q, xs[..last]);
      QuotientZero(p, r);
    }
  }

  /** Two polynomials of the same length that agree on that many points are equal. */
  lemma AgreeEqual(p: Poly, q: Poly, xs: seq<byte>)
    requires |p| == |q| <= |xs| && Distinct(xs) && forall i :: 0 <= i < |xs| ==> Eval(p, xs[i]) == Eval(q, xs[i])
    ensures p == q
  {
    var d := AddPoly(p, q);
    forall i | 0 <= i < |xs| ensures Eval(d, xs[i]) == 0 {
      EvalAdd(p, q, xs[i]);
      XorSelf(Eval(p, xs[i]));
    }
    RootsVanish(d, xs);
    ZeroSum(p, q);
  }

  lemma {:induction false} ZeroSum(p: Poly, q: Poly)
    requires |p| == |q| && AllZero(AddPoly(p, q))
    ensures p == q
  {
    if p != [] {
      var d := AddPoly(p, q);
      assert d[0] == 0 && d[1..] == AddPoly(p[1..], q[1..]);
      AddIsZero(p[0], q[0]);
      ZeroSum(p[1..], q[1..]);
    }
  }

  /** A shorter polynomial padded with zero coefficients. */
  function Pad(p: Poly, n: nat): (q: Poly)
    requires |p| <= n
    ensures |q| == n
  {
    p + seq(n - |p|, _ => 0)
  }

  lemma {:induction false} EvalPad(p: Poly, n: nat, x: byte)
    requires |p| <= n
    ensures Eval(Pad(p, n), x) == Eval(p, x)
    decreases n
  {
    if n > 0 {
      MulComm(x, 0);
      MulOne(x);
      XorZero(0);
      if p == [] {
        assert Pad(p, n)[1..] == Pad(p, n - 1);
        EvalPad(p, n - 1, x);
      } else {
        assert Pad(p, n)[1..] == Pad(p[1..], n - 1);
        EvalPad(p[1..], n - 1, x);
      }
    } else {
      assert Pad(p, n) == p;
    }
  }

  // ----- Interpolation -----

  /** The product of `z + xs[j]` over the first `n` points but `i`. */
  function Product(xs: seq<byte>, i: nat, n: nat, z: byte): byte
    requires n <= |xs|
  {
    if n == 0 then 1
    else if n - 1 == i then Product(xs, i, n - 1, z)
    else Mul(Product(xs, i, n - 1, z), Add(z, xs[n - 1]))
  }

  function Basis(xs: seq<byte>, i: nat, n: nat): (p: Poly)
    requires n <= |xs|
    ensures |p| == if i < n then n else n + 1
  {
    if n == 0 then [1]
    else if n - 1 == i then Basis(xs, i, n - 1)
    else TimesLinear(Basis(xs, i, n - 1), xs[n - 1])
  }

  lemma {:induction false} EvalBasis(xs: seq<byte>, i: nat, n: nat, z: byte)
    requires n <= |xs|
    ensures Eval(Basis(xs, i, n), z) == Product(xs, i, n, z)
    decreases n
  {
    if n == 0 {
      var one: Poly := [1];
      assert one[1..] == [];
      MulComm(z, 0);
      MulOne(z);
      XorZero(1);
    } else {
      EvalBasis(xs, i, n - 1, z);
      if n - 1 != i {
        EvalTimesLinear(Basis(xs, i, n - 1), xs[n - 1], z);
        MulComm(Add(z, xs[n - 1]), Product(xs, i, n - 1, z));
      }
    }
  }

  /** The product vanishes at the other points and not at its own. */
  lemma {:induction false} ProductAtPoint(xs: seq<byte>, i: nat, t: nat, n: nat)
    requires Distinct(xs) && i < |xs| && t < |xs| && n <= |xs|
    ensures Product(xs, i, n, xs[t]) == 0 <==> t < n && t != i
    decreases n
  {
    if n > 0 {
      ProductAtPoint(xs, i, t, n - 1);
      if n - 1 != i {
        AddIsZero(xs[t], xs[n - 1]);
        assert xs[t] == xs[n - 1] <==> t == n - 1;
        NoZeroDivisors(Product(xs, i, n - 1, xs[t]), Add(xs[t], xs[n - 1]));
      }
    }
  }

  /** The factor of `ys[i]` at `z`: the product at `z` over the product at the point itself. */
  function Weight(xs: seq<byte>, i: nat, z: byte): byte
    requires i < |xs|
  {
    Mul(Product(xs, i, |xs|, z), Inv(Product(xs, i, |xs|, xs[i])))
  }

  /** The Lagrange sum over the first `n` points, evaluated at `z`. */
  function Lagrange(xs: seq<byte>, ys: seq<byte>, n: nat, z: byte): byte
    requires |xs| == |ys| && n <= |xs|
  {
    if n == 0 then 0 else Add(Lagrange(xs, ys, n - 1, z), Mul(ys[n - 1], Weight(xs, n - 1, z)))
  }

  /** The polynomial that sum is the value of. */
  function Interpolant(xs: seq<byte>, ys: seq<byte>, n: nat): (p: Poly)
    requires |xs| == |ys| && n <= |xs|
    ensures |p| == |xs|
  {
    if n == 0 then seq(|xs|, _ => 0)
    else
      var i := n - 1;
      AddPoly(Interpolant(xs, ys, i),
              Scale(Mul(ys[i], Inv(Product(xs, i, |xs|, xs[i]))), Basis(xs, i, |xs|)))
  }

  lemma {:induction false} EvalInterpolant(xs: seq<byte>, ys: seq<byte>, n: nat, z: byte)
    requires |xs| == |ys| && n <= |xs|
    ensures Eval(Interpolant(xs, ys, n), z) == Lagrange(xs, ys, n, z)
    decreases n
  {
    if n == 0 {
      assert Pad([], |xs|) == seq(|xs|, _ => 0);
      EvalPad([], |xs|, z);
    } else {
      var i := n - 1;
      var d := Inv(Product(xs, i, |xs|, xs[i]));
      var v := Product(xs, i, |xs|, z);
      EvalInterpolant(xs, ys, i, z);
      EvalAdd(Interpolant(xs, ys, i), Scale(Mul(ys[i], d), Basis(xs, i, |xs|)), z);
      EvalScale(Mul(ys[i], d), Basis(xs, i, |xs|), z);
      EvalBasis(xs, i, |xs|, z);
      MulAssoc(ys[i], d, v);
      MulComm(d, v);
    }
  }

  /** At its own points the Lagrange sum has the given values. */
  lemma {:induction false} LagrangeAtPoint(xs: seq<byte>, ys: seq<byte>, n: nat, t: nat)
    requires |xs| == |ys| && n <= |xs| && t < |xs| && Distinct(xs)
    ensures Lagrange(xs, ys, n, xs[t]) == if t < n then ys[t] else 0
    decreases n
  {
    if n > 0 {
      var i := n - 1;
      var v := Product(xs, i, |xs|, xs[t]);
      LagrangeAtPoint(xs, ys, i, t);
      ProductAtPoint(xs, i, t, |xs|);
      ProductAtPoint(xs, i, i, |xs|);
      XorZero(ys[i]);
      XorZero(Lagrange(xs, ys, i, xs[t]));
      if t == i {
        InvIsInverse(v, Inv(v));
        MulOne(ys[i]);
      } else {
        MulOne(Inv(Product(xs, i, |xs|, xs[i])));
        MulComm(ys[i], 0);
        MulOne(ys[i]);
      }
    }
  }

  /** Interpolating a polynomial through at least as many points as it has coefficients gives it back everywhere. */
  lemma InterpolationExact(c: Poly, xs: seq<byte>, ys: seq<byte>, z: byte)
    requires Distinct(xs) && |c| <= |xs| == |ys|
    requires forall i :: 0 <= i < |xs| ==> ys[i] == Eval(c, xs[i])
    ensures Lagrange(xs, ys, |xs|, z) == Eval(c, z)
  {
    var p := Interpolant(xs, ys, |xs|);
    forall i | 0 <= i < |xs| ensures Eval(p, xs[i]) == Eval(Pad(c, |xs|), xs[i]) {
      EvalInterpolant(xs, ys, |xs|, xs[i]);
      LagrangeAtPoint(xs, ys, |xs|, i);
      EvalPad(c, |xs|, xs[i]);
    }
    AgreeEqual(p, Pad(c, |xs|), xs);
    EvalInterpolant(xs, ys, |xs|, z);
    EvalPad(c, |xs|, z);
  }
}
