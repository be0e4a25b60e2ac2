/** Matrices over GF(2^8): Gauss-Jordan inversion, proved through the solution set its row operations keep. */
module Matrices {
  import opened Bytes
  import opened Gf2
  import opened Gf256

  type Matrix = seq<seq<byte>>

  ghost predicate Sized(a: Matrix, rows: nat, cols: nat) {
    |a| == rows && forall r :: 0 <= r < rows ==> |a[r]| == cols
  }

  function Zeros(n: nat): (z: seq<byte>)
    ensures |z| == n && forall i :: 0 <= i < n ==> z[i] == 0
  {
    seq(n, _ => 0)
  }

  function Unit(n: nat, at: nat): (u: seq<byte>)
    ensures |u| == n && forall i :: 0 <= i < n ==> u[i] == if i == at then 1 else 0
  {
    seq(n, i => if i == at then 1 else 0)
  }

  /** The product of a matrix and a column. */
  function Apply(a: Matrix, x: seq<byte>): (y: seq<byte>)
    requires forall r :: 0 <= r < |a| ==> |a[r]| == |x|
    ensures |y| == |a| && forall r :: 0 <= r < |a| ==> y[r] == Dot(a[r], x)
  {
    seq(|a|, r requires 0 <= r < |a| => Dot(a[r], x))
  }

  // ----- Dot products of pieces -----

  lemma {:induction false} DotZeros(a: seq<byte>)
    ensures Dot(a, Zeros(|a|)) == 0 && Dot(Zeros(|a|), a) == 0
  {
    if a != [] {
      var n := |a| - 1;
      DotZeros(a[..n]);
      assert Zeros(|a|)[..n] == Zeros(n);
      MulOne(a[n]);
      MulComm(a[n], 0);
      XorZero(0);
    }
  }

  lemma {:induction false} DotSplit(a: seq<byte>, b: seq<byte>, x: seq<byte>, y: seq<byte>)
    requires |a| == |x| && |b| == |y|
    ensures Dot(a + b, x + y) == Add(Dot(a, x), Dot(b, y))
    decreases |b|
  {
    if b == [] {
      assert a + b == a && x + y == x;
      XorZero(Dot(a, x));
    } else {
      var n := |b| - 1;
      DotSplit(a, b[..n], x, y[..n]);
      assert (a + b)[..|a| + n] == a + b[..n] && (x + y)[..|a| + n] == x + y[..n];
      XorAssoc(Dot(a, x), Dot(b[..n], y[..n]), Mul(b[n], y[n]));
    }
  }

  lemma {:induction false} DotUnit(n: nat, at: nat, x: seq<byte>)
    requires |x| == n
    ensures Dot(Unit(n, at), x) == if at < n then x[at] else 0
    decreases n
  {
    if n > 0 {
      DotUnit(n - 1, at, x[..n - 1]);
      assert Unit(n, at)[..n - 1] == Unit(n - 1, at);
      MulOne(x[n - 1]);
      XorZero(x[n - 1]);
      XorZero(if at < n - 1 then x[at] else 0);
    }
  }

  lemma DotScale(s: byte, a: seq<byte>, z: seq<byte>)
    requires |a| == |z|
    ensures Dot(ScaleVec(s, a), z) == Mul(s, Dot(a, z))
  {
    var zero := Zeros(|a|);
    DotBilinear(s, a, zero, z);
    forall i | 0 <= i < |a| ensures Add(Mul(s, a[i]), 0) == Mul(s, a[i]) { XorZero(Mul(s, a[i])); }
    assert AddVec(ScaleVec(s, a), zero) == ScaleVec(s, a);
    DotZeros(z);
    XorZero(Mul(s, Dot(a, z)));
  }

  // ----- Solution sets and row operations -----

  /** `z` solves the homogeneous system whose equations are the rows. */
  ghost predicate Solves(a: Matrix, z: seq<byte>)
    requires Sized(a, |a|, |z|)
  {
    forall r :: 0 <= r < |a| ==> Dot(a[r], z) == 0
  }

  ghost predicate SameSolutions(a: Matrix, b: Matrix, cols: nat)
    requires Sized(a, |a|, cols) && Sized(b, |b|, cols)
  {
    forall z: seq<byte> :: |z| == cols ==> (Solves(a, z) <==> Solves(b, z))
  }

  lemma SwapKeeps(a: Matrix, cols: nat, i: nat, j: nat)
    requires Sized(a, |a|, cols) && i < |a| && j < |a|
    ensures var b := a[i := a[j]][j := a[i]]; Sized(b, |a|, cols) && SameSolutions(a, b, cols)
  {
    hide Dot;
    var b := a[i := a[j]][j := a[i]];
    forall z: seq<byte> | |z| == cols ensures Solves(a, z) <==> Solves(b, z) {
      if Solves(b, z) {
        assert Dot(b[i], z) == 0 && Dot(b[j], z) == 0;
        forall r | 0 <= r < |a| ensures Dot(a[r], z) == 0 {
          if r != i && r != j { assert b[r] == a[r]; }
        }
      }
    }
  }

  lemma ScaleKeeps(a: Matrix, cols: nat, i: nat, s: byte)
    requires Sized(a, |a|, cols) && i < |a| && s != 0
    ensures var b := a[i := ScaleVec(s, a[i])]; Sized(b, |a|, cols) && SameSolutions(a, b, cols)
  {
    hide Dot;
    var b := a[i := ScaleVec(s, a[i])];
    forall z: seq<byte> | |z| == cols ensures Solves(a, z) <==> Solves(b, z) {
      DotScale(s, a[i], z);
      NoZeroDivisors(s, Dot(a[i], z));
      forall r | 0 <= r < |a| && r != i ensures a[r] == b[r] {}
      if Solves(b, z) {
        assert Dot(b[i], z) == 0;
        forall r | 0 <= r < |a| ensures Dot(a[r], z) == 0 { assert Dot(b[r], z) == 0; }
      }
    }
  }

  lemma AddRowKeeps(a: Matrix, cols: nat, i: nat, j: nat, f: byte)
    requires Sized(a, |a|, cols) && i < |a| && j < |a| && i != j
    ensures var b := a[i := AddVec(ScaleVec(f, a[j]), a[i])]; Sized(b, |a|, cols) && SameSolutions(a, b, cols)
  {
    hide Dot;
    var b := a[i := AddVec(ScaleVec(f, a[j]), a[i])];
    forall z: seq<byte> | |z| == cols ensures Solves(a, z) <==> Solves(b, z) {
      DotBilinear(f, a[j], a[i], z);
      MulComm(f, 0);
      MulOne(f);
      XorZero(Dot(a[i], z));
      assert b[j] == a[j];
      if Solves(a, z) {
        assert Dot(a[j], z) == 0 && Dot(a[i], z) == 0;
        forall r | 0 <= r < |a| ensures Dot(b[r], z) == 0 { assert Dot(a[r], z) == 0; }
      }
      if Solves(b, z) {
        assert Dot(b[j], z) == 0 && Dot(b[i], z) == 0;
        forall r | 0 <= r < |a| ensures Dot(a[r], z) == 0 { assert Dot(b[r], z) == 0; }
      }
    }
  }

  lemma SameTransitive(a: Matrix, b: Matrix, c: Matrix, cols: nat)
    requires Sized(a, |a|, cols) && Sized(b, |b|, cols) && Sized(c, |c|, cols)
    requires SameSolutions(a, b, cols) && SameSolutions(b, c, cols)
    ensures SameSolutions(a, c, cols)
  {
    hide Solves;
  }

  // ----- The elimination -----

  /** The first `n` columns are those of the identity. */
  ghost predicate Reduced(a: Matrix, n: nat) {
    forall r, j :: 0 <= r < |a| && 0 <= j < n && j < |a[r]| ==> a[r][j] == if r == j then 1 else 0
  }

  lemma ReducedSwap(a: Matrix, cols: nat, n: nat, p: nat)
    requires Sized(a, |a|, cols) && Reduced(a, n) && n <= p < |a| && n < cols
    ensures Reduced(a[n := a[p]][p := a[n]], n)
  {
  }

  lemma ReducedScale(a: Matrix, cols: nat, n: nat, s: byte)
    requires Sized(a, |a|, cols) && Reduced(a, n) && n < |a| && n < cols
    ensures Reduced(a[n := ScaleVec(s, a[n])], n)
  {
    MulComm(s, 0);
    MulOne(s);
  }

  lemma ReducedAddRow(a: Matrix, cols: nat, n: nat, r: nat, f: byte)
    requires Sized(a, |a|, cols) && Reduced(a, n) && n < |a| && n < cols && r < |a| && r != n
    ensures Reduced(a[r := AddVec(ScaleVec(f, a[n]), a[r])], n)
  {
    MulComm(f, 0);
    MulOne(f);
    XorZero(0);
    XorZero(1);
  }

  /** The first row at or below `col` with a nonzero entry in that column. */
  method FindPivot(a: Matrix, col: nat) returns (r: Option<nat>)
    requires Sized(a, |a|, 2 * |a|) && col < |a|
    ensures r.Some? ==> col <= r.value < |a| && a[r.value][col] != 0
    ensures r.None? ==> forall i :: col <= i < |a| ==> a[i][col] == 0
  {
    var i := col;
    while i < |a|
      invariant col <= i <= |a|
      invariant forall k :: col <= k < i ==> a[k][col] == 0
    {
      if a[i][col] != 0 { return Some(i); }
      i := i + 1;
    }
    return None;
  }

  /** Clears column `col` in every row but `col`. */
  method Eliminate(given: Matrix, col: nat) returns (a: Matrix)
    requires Sized(given, |given|, 2 * |given|) && col < |given| && Reduced(given, col) && given[col][col] == 1
    ensures Sized(a, |given|, 2 * |given|) && SameSolutions(given, a, 2 * |given|) && Reduced(a, col + 1)
  {
    hide Solves, Reduced, AddVec, ScaleVec, SameSolutions;
    a := given;
    ghost var cols := 2 * |given|;
    SameReflexive(a, cols);
    var r := 0;
    while r < |given|
      invariant 0 <= r <= |given| && Sized(a, |given|, cols) && SameSolutions(given, a, cols) && Reduced(a, col)
      invariant a[col][col] == 1
      invariant forall i :: 0 <= i < r && i != col ==> a[i][col] == 0
    {
      if r != col {
        var factor := a[r][col];
        if factor != 0 {
          ghost var before := a;
          AddRowKeeps(a, cols, r, col, factor);
          ReducedAddRow(a, cols, col, r, factor);
          ClearedCell(a[col], a[r], col);
          a := a[r := AddVec(ScaleVec(factor, a[col]), a[r])];
          SameTransitive(given, before, a, cols);
        }
      }
      r := r + 1;
    }
    ReducedNext(a, col);
  }

  lemma SameReflexive(a: Matrix, cols: nat)
    requires Sized(a, |a|, cols)
    ensures SameSolutions(a, a, cols)
  {
  }

  lemma ClearedCell(pivot: seq<byte>, row: seq<byte>, col: nat)
    requires |pivot| == |row| && col < |row| && pivot[col] == 1
    ensures AddVec(ScaleVec(row[col], pivot), row)[col] == 0
  {
    MulOne(row[col]);
    MulComm(row[col], 1);
    XorSelf(row[col]);
  }

  lemma ReducedNext(a: Matrix, col: nat)
    requires Reduced(a, col) && col < |a| && Sized(a, |a|, 2 * |a|) && a[col][col] == 1
    requires forall i :: 0 <= i < |a| && i != col ==> a[i][col] == 0
    ensures Reduced(a, col + 1)
  {
  }

  /** One column of `invert_matrix`: swap a pivot into place, scale it to one, clear the column. */
  method PivotColumn(given: Matrix, col: nat, pivot: nat) returns (a: Matrix)
    requires Sized(given, |given|, 2 * |given|) && Reduced(given, col) && col <= pivot < |given|
    requires given[pivot][col] != 0
    ensures Sized(a, |given|, 2 * |given|) && SameSolutions(given, a, 2 * |given|) && Reduced(a, col + 1)
  {
    hide Solves, Reduced, ScaleVec, SameSolutions;
    ghost var cols := 2 * |given|;
    a := given;
    SameReflexive(a, cols);
    if pivot != col {
      SwapKeeps(a, cols, col, pivot);
      ReducedSwap(a, cols, col, pivot);
      a := a[col := a[pivot]][pivot := a[col]];
    }
    ghost var swapped := a;
    var inverse := InvLoop(a[col][col]);
    if inverse == 0 && a[col][col] != 0 {
      ScaledPivot(a[col], col, inverse);
      assert false;
    }
    ScaledPivot(a[col], col, inverse);
    ScaleKeeps(a, cols, col, inverse);
    ReducedScale(a, cols, col, inverse);
    a := a[col := ScaleVec(inverse, a[col])];
    ghost var scaled := a;
    SameTransitive(given, swapped, scaled, cols);
    a := Eliminate(a, col);
    SameTransitive(given, scaled, a, cols);
  }

  lemma ScaledPivot(row: seq<byte>, col: nat, s: byte)
    requires col < |row| && row[col] != 0 && s == Inv(row[col])
    ensures s != 0 && ScaleVec(s, row)[col] == 1
  {
    InvIsInverse(row[col], s);
    MulComm(row[col], s);
    MulComm(row[col], 0);
    MulOne(row[col]);
  }

  // ----- What the finished tableau says -----

  /** The system matrix beside the identity. */
  function Augment(m: Matrix): (a: Matrix)
    requires forall r :: 0 <= r < |m| ==> |m[r]| == |m|
    ensures |a| == |m| && forall r :: 0 <= r < |m| ==> a[r] == m[r] + Unit(|m|, r)
  {
    seq(|m|, r requires 0 <= r < |m| => m[r] + Unit(|m|, r))
  }

  /** `Apply(m, x) == y` is the system the augmented matrix stands for. */
  lemma AugmentSolves(m: Matrix, x: seq<byte>, y: seq<byte>)
    requires Sized(m, |m|, |m|) && |x| == |y| == |m|
    ensures Solves(Augment(m), x + y) <==> Apply(m, x) == y
  {
    hide Dot;
    var a, k := Augment(m), |m|;
    forall r | 0 <= r < k ensures Dot(a[r], x + y) == 0 <==> Apply(m, x)[r] == y[r] {
      DotSplit(m[r], Unit(k, r), x, y);
      DotUnit(k, r, y);
      AddIsZero(Dot(m[r], x), y[r]);
    }
  }

  function RightHalf(a: Matrix): (b: Matrix)
    requires forall r :: 0 <= r < |a| ==> |a[r]| == 2 * |a|
    ensures |b| == |a| && forall r :: 0 <= r < |a| ==> b[r] == a[r][|a|..]
  {
    seq(|a|, r requires 0 <= r < |a| => a[r][|a|..])
  }

  /** A tableau with the identity on the left reads `x == Apply(right, y)`. */
  lemma ReducedSolves(a: Matrix, x: seq<byte>, y: seq<byte>)
    requires Sized(a, |a|, 2 * |a|) && Reduced(a, |a|) && |x| == |y| == |a|
    ensures Solves(a, x + y) <==> x == Apply(RightHalf(a), y)
  {
    hide Dot;
    var b, k := RightHalf(a), |a|;
    forall r | 0 <= r < k ensures Dot(a[r], x + y) == 0 <==> x[r] == Apply(b, y)[r] {
      assert a[r][..k] == Unit(k, r);
      assert a[r] == Unit(k, r) + b[r];
      DotSplit(Unit(k, r), b[r], x, y);
      DotUnit(k, r, x);
      AddIsZero(x[r], Dot(b[r], y));
    }
  }

  /** Only zero is mapped to zero. */
  ghost predicate Regular(m: Matrix)
    requires Sized(m, |m|, |m|)
  {
    forall x: seq<byte> :: |x| == |m| && Apply(m, x) == Zeros(|m|) ==> x == Zeros(|m|)
  }

  ghost predicate Inverse(m: Matrix, b: Matrix)
    requires Sized(m, |m|, |m|) && Sized(b, |m|, |m|)
  {
    forall x: seq<byte>, y: seq<byte> :: |x| == |m| && |y| == |m| ==> (Apply(m, x) == y <==> x == Apply(b, y))
  }

  /** Without a pivot the tableau has a solution that is not zero. */
  lemma NoPivot(a: Matrix, col: nat) returns (x: seq<byte>)
    requires Sized(a, |a|, 2 * |a|) && Reduced(a, col) && col < |a|
    requires forall i :: col <= i < |a| ==> a[i][col] == 0
    ensures |x| == |a| && x != Zeros(|a|) && Solves(a, x + Zeros(|a|))
  {
    hide Dot;
    var k := |a|;
    var top: seq<byte> := seq(col, j requires 0 <= j < col => a[j][col]);
    var low := Zeros(k - col - 1);
    x := top + ([1] + low);
    assert x[col] == 1;
    forall r | 0 <= r < k ensures Dot(a[r], x + Zeros(k)) == 0 {
      var row := a[r];
      var rest := row[col + 1..];
      assert row == row[..col] + ([row[col]] + rest);
      assert x + Zeros(k) == top + ([1] + Zeros(2 * k - col - 1));
      assert row[..col] == Unit(col, r);
      DotSplit(row[..col], [row[col]] + rest, top, [1] + Zeros(2 * k - col - 1));
      DotSplit([row[col]], rest, [1], Zeros(2 * k - col - 1));
      DotUnit(col, r, top);
      DotOne(row[col]);
      DotZeros(rest);
      XorZero(row[col]);
      XorZero(0);
      XorSelf(row[col]);
    }
  }

  lemma DotOne(a: byte)
    ensures Dot([a], [1]) == a
  {
    MulOne(a);
    MulComm(a, 1);
    XorZero(a);
  }

  /** `invert_matrix`: succeeds exactly on the matrices with an inverse, and returns it. */
  method InvertMatrix(m: Matrix) returns (r: Option<Matrix>)
    requires Sized(m, |m|, |m|)
    ensures r.Some? <==> Regular(m)
    ensures r.Some? ==> Sized(r.value, |m|, |m|) && Inverse(m, r.value)
  {
    hide Solves, Reduced, Dot, Apply, Regular, Inverse;
    var a := Augment(m);
    ghost var cols := 2 * |m|;
    SameReflexive(a, cols);
    StartReduced(a);
    var col := 0;
    while col < |m|
      invariant 0 <= col <= |m| && Sized(a, |m|, cols) && Reduced(a, col)
      invariant SameSolutions(Augment(m), a, cols)
    {
      var pivot := FindPivot(a, col);
      if pivot.None? {
        SingularMatrix(m, a, col);
        return None;
      }
      ghost var before := a;
      a := PivotColumn(a, col, pivot.value);
      SameTransitive(Augment(m), before, a, cols);
      col := col + 1;
    }
    FinishedInverts(m, a);
    return Some(RightHalf(a));
  }

  lemma StartReduced(a: Matrix)
    ensures Reduced(a, 0)
  {
  }

  lemma SingularMatrix(m: Matrix, a: Matrix, col: nat)
    requires Sized(m, |m|, |m|) && Sized(a, |m|, 2 * |m|) && SameSolutions(Augment(m), a, 2 * |m|)
    requires Reduced(a, col) && col < |a| && forall i :: col <= i < |a| ==> a[i][col] == 0
    ensures !Regular(m)
  {
    hide Solves, SameSolutions, Reduced, Dot, Apply, Augment;
    var x := NoPivot(a, col);
    AugmentSolves(m, x, Zeros(|m|));
    SolutionsAgree(Augment(m), a, x + Zeros(|m|));
  }

  lemma SolutionsAgree(a: Matrix, b: Matrix, z: seq<byte>)
    requires Sized(a, |a|, |z|) && Sized(b, |b|, |z|) && SameSolutions(a, b, |z|)
    ensures Solves(a, z) <==> Solves(b, z)
  {
    hide Solves;
  }

  lemma FinishedInverts(m: Matrix, a: Matrix)
    requires Sized(m, |m|, |m|) && Sized(a, |m|, 2 * |m|) && SameSolutions(Augment(m), a, 2 * |m|) && Reduced(a, |m|)
    ensures Inverse(m, RightHalf(a)) && Regular(m)
  {
    hide Solves, SameSolutions, Reduced, Dot, Apply, Augment, RightHalf;
    var b, k := RightHalf(a), |m|;
    forall x: seq<byte>, y: seq<byte> | |x| == k && |y| == k ensures Apply(m, x) == y <==> x == Apply(b, y) {
      AugmentSolves(m, x, y);
      ReducedSolves(a, x, y);
      SolutionsAgree(Augment(m), a, x + y);
    }
    ZeroToZero(b);
  }

  lemma ZeroToZero(b: Matrix)
    requires Sized(b, |b|, |b|)
    ensures Apply(b, Zeros(|b|)) == Zeros(|b|)
  {
    forall r | 0 <= r < |b| ensures Dot(b[r], Zeros(|b|)) == 0 { DotZeros(b[r]); }
  }
}
