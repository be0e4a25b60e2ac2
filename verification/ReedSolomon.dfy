/** Systematic Reed-Solomon coding: any `k` surviving shards determine the data. */
module ReedSolomon {
  import opened Bytes
  import opened Gf2
  import opened Gf256
  import opened Polynomials
  import opened Matrices

  datatype RsError =
    | InvalidDataShardCount(k: nat)
    | InvalidParityShardCount(m: nat)
    | TooManyShards(k: nat, m: nat)
    | UnexpectedShardCount(expected: nat, actual: nat)
    | InconsistentShardLen
    | InsufficientShards(have: nat, need: nat)
    | SingularMatrix

  /** `validate_params`. */
  function ParamError(k: nat, m: nat): Option<RsError> {
    if k == 0 || k > 255 then Some(InvalidDataShardCount(k))
    else if m == 0 then Some(InvalidParityShardCount(m))
    else if k + m > 255 then Some(TooManyShards(k, m))
    else None
  }

  // ----- What the shards are -----

  /** Shard `i` belongs to the field element `i`. */
  function Points(n: nat): (xs: seq<byte>)
    requires n <= 255
    ensures |xs| == n && Distinct(xs) && forall i :: 0 <= i < n ==> xs[i] == i
  {
    seq(n, i requires 0 <= i < n => i)
  }

  function Column(rows: seq<seq<byte>>, b: nat): (c: seq<byte>)
    requires forall r :: 0 <= r < |rows| ==> b < |rows[r]|
    ensures |c| == |rows| && forall r :: 0 <= r < |rows| ==> c[r] == rows[r][b]
  {
    seq(|rows|, r requires 0 <= r < |rows| => rows[r][b])
  }

  /** The value at `i` of the polynomial through the data bytes at 0, 1, 2 and so on. */
  function Code(y: seq<byte>, i: byte): byte
    requires |y| <= 255
  {
    Lagrange(Points(|y|), y, |y|, i)
  }

  /** The code is systematic: at the data positions it has the data. */
  lemma CodeAtData(y: seq<byte>, i: nat)
    requires i < |y| <= 255
    ensures Code(y, i) == y[i]
  {
    LagrangeAtPoint(Points(|y|), y, |y|, i);
  }

  lemma CodeIsPolynomial(y: seq<byte>, i: byte)
    requires |y| <= 255
    ensures Code(y, i) == Eval(Interpolant(Points(|y|), y, |y|), i)
  {
    EvalInterpolant(Points(|y|), y, |y|, i);
  }

  /** Any polynomial with as many coefficients that meets the data gives the code everywhere. */
  lemma CodeOf(c: Poly, y: seq<byte>, i: byte)
    requires |c| == |y| <= 255 && forall t :: 0 <= t < |y| ==> Eval(c, t) == y[t]
    ensures Code(y, i) == Eval(c, i)
  {
    InterpolationExact(c, Points(|y|), y, i);
  }

  /** Two data columns with the same code at as many positions as they have bytes are equal. */
  lemma CodeDetermines(y: seq<byte>, z: seq<byte>, xs: seq<byte>)
    requires |y| == |z| == |xs| <= 255 && Distinct(xs)
    requires forall i :: 0 <= i < |xs| ==> Code(y, xs[i]) == Code(z, xs[i])
    ensures y == z
  {
    hide Code, Interpolant, Eval;
    var p, q := Interpolant(Points(|y|), y, |y|), Interpolant(Points(|z|), z, |z|);
    forall i | 0 <= i < |xs| ensures Eval(p, xs[i]) == Eval(q, xs[i]) {
      CodeIsPolynomial(y, xs[i]);
      CodeIsPolynomial(z, xs[i]);
    }
    AgreeEqual(p, q, xs);
    forall t | 0 <= t < |y| ensures y[t] == z[t] {
      CodeIsPolynomial(y, t);
      CodeIsPolynomial(z, t);
      CodeAtData(y, t);
      CodeAtData(z, t);
    }
  }

  // ----- The generator matrix -----

  ghost predicate Encodes(g: Matrix, k: nat, i: nat, y: seq<byte>)
    requires Sized(g, |g|, k) && i < |g| && i < 256 && |y| == k <= 255
  {
    Dot(g[i], y) == Code(y, i)
  }

  /** Row `i` computes shard `i` of every data column. */
  ghost predicate Generator(g: Matrix, k: nat, n: nat) {
    && k <= 255 && n <= 255 && Sized(g, n, k)
    && forall i, y: seq<byte> :: 0 <= i < n && |y| == k ==> Encodes(g, k, i, y)
  }

  function Powers(x: byte, k: nat): (v: seq<byte>)
    ensures |v| == k && forall j :: 0 <= j < k ==> v[j] == Pow(x, j)
  {
    seq(k, j requires 0 <= j < k => Pow(x, j))
  }

  lemma {:induction false} EvalSnoc(c: Poly, t: byte, x: byte)
    ensures Eval(c + [t], x) == Add(Eval(c, x), Mul(Pow(x, |c|), t))
  {
    var d := c + [t];
    if c == [] {
      assert d[1..] == [];
      MulComm(x, 0);
      MulOne(x);
      MulOne(t);
      XorZero(t);
    } else {
      EvalSnoc(c[1..], t, x);
      assert d[1..] == c[1..] + [t];
      var e, p := Eval(c[1..], x), Pow(x, |c| - 1);
      MulRight(x, e, Mul(p, t));
      MulAssoc(x, p, t);
      XorAssoc(c[0], Mul(x, e), Mul(Mul(x, p), t));
    }
  }

  lemma {:induction false} DotPowers(x: byte, c: Poly)
    ensures Dot(Powers(x, |c|), c) == Eval(c, x)
    decreases |c|
  {
    if c != [] {
      var n := |c| - 1;
      DotPowers(x, c[..n]);
      EvalSnoc(c[..n], c[n], x);
      assert Powers(x, |c|)[..n] == Powers(x, n);
      assert c == c[..n] + [c[n]];
    }
  }

  // ----- Products of matrices -----

  function RowTimes(row: seq<byte>, b: Matrix, cols: nat): (r: seq<byte>)
    requires Sized(b, |row|, cols)
    ensures |r| == cols && forall j :: 0 <= j < cols ==> r[j] == Dot(row, Column(b, j))
  {
    seq(cols, j requires 0 <= j < cols => Dot(row, Column(b, j)))
  }

  lemma {:induction false} RowTimesApply(row: seq<byte>, b: Matrix, y: seq<byte>)
    requires Sized(b, |row|, |y|)
    ensures Dot(RowTimes(row, b, |y|), y) == Dot(row, Apply(b, y))
    decreases |row|
  {
    var r := RowTimes(row, b, |y|);
    if row == [] {
      assert r == Zeros(|y|);
      DotZeros(y);
    } else {
      var n := |row| - 1;
      var front := RowTimes(row[..n], b[..n], |y|);
      RowTimesApply(row[..n], b[..n], y);
      RowTimesSnoc(row, b, |y|);
      DotBilinear(row[n], b[n], front, y);
      assert Apply(b, y)[..n] == Apply(b[..n], y);
      XorComm(Mul(row[n], Dot(b[n], y)), Dot(front, y));
    }
  }

  lemma RowTimesSnoc(row: seq<byte>, b: Matrix, cols: nat)
    requires row != [] && Sized(b, |row|, cols)
    ensures var n := |row| - 1;
      RowTimes(row, b, cols) == AddVec(ScaleVec(row[n], b[n]), RowTimes(row[..n], b[..n], cols))
  {
    var n := |row| - 1;
    var r, s := RowTimes(row, b, cols), AddVec(ScaleVec(row[n], b[n]), RowTimes(row[..n], b[..n], cols));
    forall j | 0 <= j < cols ensures r[j] == s[j] {
      assert Column(b, j)[..n] == Column(b[..n], j);
      XorComm(Dot(row[..n], Column(b[..n], j)), Mul(row[n], b[n][j]));
    }
  }

  /** The innermost loop of `matrix_mul`, and of both byte loops. */
  method DotColumn(row: seq<byte>, b: seq<seq<byte>>, j: nat) returns (acc: byte)
    requires |row| == |b| && forall r :: 0 <= r < |b| ==> j < |b[r]|
    ensures acc == Dot(row, Column(b, j))
  {
    acc := 0;
    ghost var c := Column(b, j);
    var i := 0;
    while i < |row|
      invariant 0 <= i <= |row|
      invariant acc == Dot(row[..i], c[..i])
    {
      assert row[..i + 1][..i] == row[..i] && c[..i + 1][..i] == c[..i];
      var p := MulLoop(row[i], b[i][j]);
      acc := Add(acc, p);
      i := i + 1;
    }
    assert row[..i] == row && c[..i] == c;
  }

  /** One row of the product, or one shard: the row times every column. */
  method TimesColumns(row: seq<byte>, b: seq<seq<byte>>, cols: nat) returns (out: seq<byte>)
    requires Sized(b, |row|, cols)
    ensures out == RowTimes(row, b, cols)
  {
    hide Dot;
    out := [];
    while |out| < cols
      invariant |out| <= cols && forall j :: 0 <= j < |out| ==> out[j] == Dot(row, Column(b, j))
      decreases cols - |out|
    {
      var acc := DotColumn(row, b, |out|);
      out := out + [acc];
    }
  }

  /** `matrix_mul`. */
  method MatrixMul(a: Matrix, b: Matrix, cols: nat) returns (out: Matrix)
    requires Sized(a, |a|, |b|) && Sized(b, |b|, cols)
    ensures Sized(out, |a|, cols) && forall i :: 0 <= i < |a| ==> out[i] == RowTimes(a[i], b, cols)
  {
    hide RowTimes;
    out := [];
    while |out| < |a|
      invariant |out| <= |a| && forall i :: 0 <= i < |out| ==> |out[i]| == cols && out[i] == RowTimes(a[i], b, cols)
      decreases |a| - |out|
    {
      var row := TimesColumns(a[|out|], b, cols);
      out := out + [row];
    }
  }

  // ----- Building the generator -----

  /** The Vandermonde rows of the points `0..n`. */
  method Vandermonde(n: nat, k: nat) returns (v: Matrix)
    requires n <= 255 && k <= 255
    ensures Sized(v, n, k) && forall i :: 0 <= i < n ==> v[i] == Powers(i, k)
  {
    hide Pow;
    v := [];
    while |v| < n
      invariant |v| <= n && forall i :: 0 <= i < |v| ==> |v[i]| == k && v[i] == Powers(i, k)
      decreases n - |v|
    {
      var row: seq<byte> := [];
      while |row| < k
        invariant |row| <= k && forall j :: 0 <= j < |row| ==> row[j] == Pow(|v|, j)
        decreases k - |row|
      {
        var cell := PowLoop(|v|, |row|);
        row := row + [cell];
      }
      assert row == Powers(|v|, k);
      v := v + [row];
    }
  }

  lemma VandermondeRegular(v: Matrix)
    requires |v| <= 255 && Sized(v, |v|, |v|) && forall i :: 0 <= i < |v| ==> v[i] == Powers(i, |v|)
    ensures Regular(v)
  {
    hide Dot, Eval;
    var k := |v|;
    var xs := Points(k);
    forall x: seq<byte> | |x| == k && Apply(v, x) == Zeros(k) ensures x == Zeros(k) {
      forall i | 0 <= i < k ensures Eval(x, xs[i]) == 0 {
        DotPowers(i, x);
        assert Apply(v, x)[i] == 0;
      }
      RootsVanish(x, xs);
    }
  }

  /** `build_generator`; the inverse it asks for always exists. */
  method BuildGenerator(k: nat, m: nat) returns (g: Matrix)
    requires ParamError(k, m).None?
    ensures Generator(g, k, k + m)
  {
    hide Dot, Apply, RowTimes, Regular, Inverse, Powers;
    var v := Vandermonde(k + m, k);
    var top := v[..k];
    VandermondeRegular(top);
    var inverse := InvertMatrix(top);
    if inverse.None? { assert false; }
    g := MatrixMul(v, inverse.value, k);
    GeneratorIs(v, inverse.value, g, k);
  }

  lemma GeneratorIs(v: Matrix, t: Matrix, g: Matrix, k: nat)
    requires k <= |v| <= 255 && Sized(v, |v|, k) && forall i :: 0 <= i < |v| ==> v[i] == Powers(i, k)
    requires Sized(t, k, k) && Sized(v[..k], k, k) && Inverse(v[..k], t)
    requires Sized(g, |v|, k) && forall i :: 0 <= i < |v| ==> g[i] == RowTimes(v[i], t, k)
    ensures Generator(g, k, |v|)
  {
    hide Dot, RowTimes, Powers, Code, Eval;
    forall i, y: seq<byte> | 0 <= i < |v| && |y| == k ensures Encodes(g, k, i, y) {
      var c := Apply(t, y);
      assert Apply(v[..k], c) == y;
      forall j | 0 <= j < k ensures Eval(c, j) == y[j] {
        DotPowers(j, c);
        assert Apply(v[..k], c)[j] == y[j];
      }
      CodeOf(c, y, i);
      DotPowers(i, c);
      RowTimesApply(v[i], t, y);
    }
  }

  // ----- Encoding -----

  ghost predicate SameLength(rows: seq<seq<byte>>, len: nat) { forall i :: 0 <= i < |rows| ==> |rows[i]| == len }

  /** The first thing `encode` objects to. */
  ghost function EncodeError(data: seq<seq<byte>>, k: nat, m: nat): Option<RsError> {
    if ParamError(k, m).Some? then ParamError(k, m)
    else if |data| != k then Some(UnexpectedShardCount(k, |data|))
    else if !SameLength(data, |data[0]|) then Some(InconsistentShardLen)
    else None
  }

  /** Shard `i` of `data`: at every byte, the code of the data column. */
  ghost predicate IsShard(data: seq<seq<byte>>, len: nat, i: nat, shard: seq<byte>)
    requires SameLength(data, len) && |data| <= 255 && i < 255
  {
    |shard| == len && forall b :: 0 <= b < len ==> shard[b] == Code(Column(data, b), i)
  }

  /** `encode`. */
  method Encode(data: seq<seq<byte>>, k: nat, m: nat) returns (r: Result<seq<seq<byte>>, RsError>)
    ensures EncodeError(data, k, m).Some? ==> r == Err(EncodeError(data, k, m).value)
    ensures EncodeError(data, k, m).None? ==> r.Ok? && |r.value| == k + m && r.value[..k] == data
    ensures r.Ok? ==> forall i :: 0 <= i < k + m ==> IsShard(data, |data[0]|, i, r.value[i])
  {
    hide Code, Dot, RowTimes;
    var bad := ParamError(k, m);
    if bad.Some? { return Err(bad.value); }
    if |data| != k { return Err(UnexpectedShardCount(k, |data|)); }
    var len := |data[0]|;
    if exists i :: 0 <= i < |data| && |data[i]| != len { return Err(InconsistentShardLen); }
    var g := BuildGenerator(k, m);
    var out := data;
    DataShards(data, len);
    while |out| < k + m
      invariant k <= |out| <= k + m && out[..k] == data
      invariant forall i :: 0 <= i < |out| ==> IsShard(data, len, i, out[i])
      decreases k + m - |out|
    {
      var parity := TimesColumns(g[|out|], data, len);
      ParityShard(g, k, k + m, data, len, |out|);
      out := out + [parity];
    }
    return Ok(out);
  }

  lemma DataShards(data: seq<seq<byte>>, len: nat)
    requires |data| < 255 && SameLength(data, len)
    ensures forall i :: 0 <= i < |data| ==> IsShard(data, len, i, data[i])
  {
    hide Code;
    forall i, b | 0 <= i < |data| && 0 <= b < len ensures data[i][b] == Code(Column(data, b), i) {
      CodeAtData(Column(data, b), i);
    }
  }

  lemma ParityShard(g: Matrix, k: nat, n: nat, data: seq<seq<byte>>, len: nat, i: nat)
    requires Generator(g, k, n) && |data| == k && SameLength(data, len) && i < n
    ensures IsShard(data, len, i, RowTimes(g[i], data, len))
  {
    hide Code, Dot;
    forall b | 0 <= b < len ensures RowTimes(g[i], data, len)[b] == Code(Column(data, b), i) {
      assert Encodes(g, k, i, Column(data, b));
    }
  }

  // ----- Decoding -----

  type Slots = seq<Option<seq<byte>>>

  /** The positions of the shards that survived, in order. */
  function Survivors(slots: Slots): (xs: seq<nat>)
    ensures forall i :: 0 <= i < |xs| ==> xs[i] < |slots| && slots[xs[i]].Some?
    ensures forall i, j :: 0 <= i < j < |xs| ==> xs[i] < xs[j]
  {
    if slots == [] then []
    else
      var n := |slots| - 1;
      Survivors(slots[..n]) + if slots[n].Some? then [n] else []
  }

  /** `decode` works from the first `k` survivors. */
  function Picked(slots: Slots, k: nat): (shards: seq<seq<byte>>)
    requires k <= |Survivors(slots)|
    ensures |shards| == k && forall i :: 0 <= i < k ==> shards[i] == slots[Survivors(slots)[i]].value
  {
    seq(k, i requires 0 <= i < k => slots[Survivors(slots)[i]].value)
  }

  /** The first thing `decode` objects to; a singular matrix is never among them. */
  ghost function DecodeError(slots: Slots, k: nat, m: nat): Option<RsError> {
    if ParamError(k, m).Some? then ParamError(k, m)
    else if |slots| != k + m then Some(UnexpectedShardCount(k + m, |slots|))
    else if |Survivors(slots)| < k then Some(InsufficientShards(|Survivors(slots)|, k))
    else if !SameLength(Picked(slots, k), |Picked(slots, k)[0]|) then Some(InconsistentShardLen)
    else None
  }

  method CollectSurvivors(slots: Slots) returns (xs: seq<nat>)
    ensures xs == Survivors(slots)
  {
    xs := [];
    var i := 0;
    while i < |slots|
      invariant 0 <= i <= |slots| && xs == Survivors(slots[..i])
    {
      assert slots[..i + 1][..i] == slots[..i];
      if slots[i].Some? { xs := xs + [i]; }
      i := i + 1;
    }
    assert slots[..i] == slots;
  }

  /** The shards at positions `xs` are those of `data`. */
  ghost predicate Explains(data: seq<seq<byte>>, len: nat, xs: seq<nat>, shards: seq<seq<byte>>) {
    && SameLength(data, len) && |data| <= 255 && |xs| == |shards|
    && forall i :: 0 <= i < |xs| ==> xs[i] < 255 && IsShard(data, len, xs[i], shards[i])
  }

  ghost predicate Increasing(xs: seq<nat>) { forall i, j :: 0 <= i < j < |xs| ==> xs[i] < xs[j] }

  function AsBytes(xs: seq<nat>): (bs: seq<byte>)
    requires forall i :: 0 <= i < |xs| ==> xs[i] < 256
    ensures |bs| == |xs| && forall i :: 0 <= i < |xs| ==> bs[i] == xs[i]
  {
    seq(|xs|, i requires 0 <= i < |xs| => xs[i])
  }

  /** As many shards as there are data shards leave only one possible data. */
  lemma ShardsDetermine(a: seq<seq<byte>>, b: seq<seq<byte>>, len: nat, xs: seq<nat>, shards: seq<seq<byte>>)
    requires |a| == |b| == |xs| && Increasing(xs) && Explains(a, len, xs, shards) && Explains(b, len, xs, shards)
    ensures a == b
  {
    hide Code;
    var bs := AsBytes(xs);
    forall t, c | 0 <= t < |a| && 0 <= c < len ensures a[t][c] == b[t][c] {
      forall i | 0 <= i < |xs| ensures Code(Column(a, c), bs[i]) == Code(Column(b, c), bs[i]) {
        assert IsShard(a, len, xs[i], shards[i]) && IsShard(b, len, xs[i], shards[i]);
      }
      CodeDetermines(Column(a, c), Column(b, c), bs);
      assert Column(a, c)[t] == Column(b, c)[t];
    }
    forall t | 0 <= t < |a| ensures a[t] == b[t] {
      assert |a[t]| == |b[t]|;
    }
  }

  function PickRows(g: Matrix, xs: seq<nat>): (rows: Matrix)
    requires forall i :: 0 <= i < |xs| ==> xs[i] < |g|
    ensures |rows| == |xs| && forall i :: 0 <= i < |xs| ==> rows[i] == g[xs[i]]
  {
    seq(|xs|, i requires 0 <= i < |xs| => g[xs[i]])
  }

  /** Any `k` rows of the generator can be inverted. */
  lemma RowsRegular(g: Matrix, k: nat, n: nat, xs: seq<nat>)
    requires Generator(g, k, n) && |xs| == k && Increasing(xs) && forall i :: 0 <= i < k ==> xs[i] < n
    ensures Sized(PickRows(g, xs), k, k) && Regular(PickRows(g, xs))
  {
    hide Apply, Generator;
    GeneratorSize(g, k, n);
    forall y: seq<byte> | |y| == k && Apply(PickRows(g, xs), y) == Zeros(k) ensures y == Zeros(k) {
      KernelTrivial(g, k, n, xs, y);
    }
  }

  lemma KernelTrivial(g: Matrix, k: nat, n: nat, xs: seq<nat>, y: seq<byte>)
    requires Generator(g, k, n) && |xs| == k && Increasing(xs) && forall i :: 0 <= i < k ==> xs[i] < n
    requires |y| == k && Apply(PickRows(g, xs), y) == Zeros(k)
    ensures y == Zeros(k)
  {
    hide Dot, Code, Generator;
    GeneratorSize(g, k, n);
    var rows, bs := PickRows(g, xs), AsBytes(xs);
    forall i | 0 <= i < k ensures Code(y, bs[i]) == Code(Zeros(k), bs[i]) {
      assert Apply(rows, y)[i] == 0;
      KernelOfRow(g, k, n, xs[i], y);
    }
    CodeDetermines(y, Zeros(k), bs);
  }

  lemma KernelOfRow(g: Matrix, k: nat, n: nat, i: nat, y: seq<byte>)
    requires Generator(g, k, n) && i < n && |y| == k && Dot(g[i], y) == 0
    ensures Code(y, i) == 0 && Code(Zeros(k), i) == 0
  {
    hide Dot, Code;
    assert Encodes(g, k, i, y) && Encodes(g, k, i, Zeros(k));
    DotZeros(g[i]);
  }

  /** Applying the inverse to the surviving shards gives data that explains them. */
  lemma RecoveredExplains(g: Matrix, k: nat, n: nat, xs: seq<nat>, d: Matrix, shards: seq<seq<byte>>, len: nat,
    data: seq<seq<byte>>)
    requires Generator(g, k, n) && |xs| == k && forall i :: 0 <= i < k ==> xs[i] < n
    requires Sized(PickRows(g, xs), k, k) && Sized(d, k, k) && Inverse(PickRows(g, xs), d)
    requires |shards| == k && SameLength(shards, len)
    requires |data| == k && forall j :: 0 <= j < k ==> data[j] == RowTimes(d[j], shards, len)
    ensures Explains(data, len, xs, shards)
  {
    hide Dot, Code;
    var rows := PickRows(g, xs);
    forall i, b | 0 <= i < k && 0 <= b < len ensures shards[i][b] == Code(Column(data, b), xs[i]) {
      var y := Column(data, b);
      assert y == Apply(d, Column(shards, b));
      assert Apply(rows, y)[i] == Column(shards, b)[i];
      assert Encodes(g, k, xs[i], y);
    }
  }

  /** `decode`. */
  method Decode(slots: Slots, k: nat, m: nat) returns (r: Result<seq<seq<byte>>, RsError>)
    ensures DecodeError(slots, k, m).Some? ==> r == Err(DecodeError(slots, k, m).value)
    ensures DecodeError(slots, k, m).None? ==> r.Ok? && |r.value| == k
    ensures r.Ok? ==> Explains(r.value, |Picked(slots, k)[0]|, Survivors(slots)[..k], Picked(slots, k))
  {
    hide Dot, Code, RowTimes, Explains, Generator, Regular, Inverse, Survivors;
    var bad := ParamError(k, m);
    if bad.Some? { return Err(bad.value); }
    if |slots| != k + m { return Err(UnexpectedShardCount(k + m, |slots|)); }
    var survivors := CollectSurvivors(slots);
    if |survivors| < k { return Err(InsufficientShards(|survivors|, k)); }
    var chosen := survivors[..k];
    var shards := Picked(slots, k);
    var len := |shards[0]|;
    if exists i :: 0 <= i < k && |shards[i]| != len { return Err(InconsistentShardLen); }
    var g := BuildGenerator(k, m);
    GeneratorSize(g, k, k + m);
    RowsRegular(g, k, k + m, chosen);
    var decoder := InvertMatrix(PickRows(g, chosen));
    if decoder.None? { assert false; }
    var data: seq<seq<byte>> := [];
    while |data| < k
      invariant |data| <= k && forall j :: 0 <= j < |data| ==> data[j] == RowTimes(decoder.value[j], shards, len)
      decreases k - |data|
    {
      var recovered := TimesColumns(decoder.value[|data|], shards, len);
      data := data + [recovered];
    }
    RecoveredExplains(g, k, k + m, chosen, decoder.value, shards, len, data);
    return Ok(data);
  }

  lemma GeneratorSize(g: Matrix, k: nat, n: nat)
    requires Generator(g, k, n)
    ensures Sized(g, n, k) && k <= 255 && n <= 255
  {
  }

  /** Encoding, losing any `m` or fewer shards, and decoding gives back the data. */
  method EncodeLoseDecode(data: seq<seq<byte>>, k: nat, m: nat, lost: set<nat>)
    returns (r: Result<seq<seq<byte>>, RsError>)
    requires EncodeError(data, k, m).None?
    ensures var kept := Kept(k + m, lost);
      r == if |kept| >= k then Ok(data) else Err(InsufficientShards(|kept|, k))
    ensures |lost| <= m ==> r == Ok(data)
  {
    hide Code, IsShard, SameLength, EncodeError, DecodeError, Kept, Survivors, Explains, Picked;
    var shards := Encode(data, k, m);
    EncodeDims(data, k, m);
    var slots: Slots := seq(k + m, i requires 0 <= i < k + m => if i in lost then None else Some(shards.value[i]));
    r := Decode(slots, k, m);
    LostDecodes(data, k, m, lost, shards.value, slots, r);
    KeptMany(k + m, lost);
  }

  /** The positions that were not lost. */
  function Kept(n: nat, lost: set<nat>): seq<nat> {
    if n == 0 then [] else Kept(n - 1, lost) + if n - 1 in lost then [] else [n - 1]
  }

  lemma {:induction false} KeptIgnores(n: nat, lost: set<nat>, x: nat)
    requires n <= x
    ensures Kept(n, lost - {x}) == Kept(n, lost)
  {
    if n > 0 { KeptIgnores(n - 1, lost, x); }
  }

  /** Each loss removes at most one position. */
  lemma {:induction false} KeptMany(n: nat, lost: set<nat>)
    ensures |Kept(n, lost)| + |lost| >= n
  {
    if n > 0 {
      if n - 1 in lost {
        KeptIgnores(n - 1, lost, n - 1);
        KeptMany(n - 1, lost - {n - 1});
      } else {
        KeptMany(n - 1, lost);
      }
    }
  }

  lemma EncodeDims(data: seq<seq<byte>>, k: nat, m: nat)
    requires EncodeError(data, k, m).None?
    ensures |data| == k && 0 < k && k + m <= 255 && ParamError(k, m).None? && SameLength(data, |data[0]|)
  {
  }

  lemma {:induction false} KeptSurvive(slots: Slots, lost: set<nat>)
    requires forall i :: 0 <= i < |slots| ==> (slots[i].None? <==> i in lost)
    ensures Survivors(slots) == Kept(|slots|, lost)
    decreases |slots|
  {
    if slots != [] { KeptSurvive(slots[..|slots| - 1], lost); }
  }

  lemma LostDecodes(data: seq<seq<byte>>, k: nat, m: nat, lost: set<nat>, shards: seq<seq<byte>>, slots: Slots,
    r: Result<seq<seq<byte>>, RsError>)
    requires EncodeError(data, k, m).None? && |shards| == k + m == |slots|
    requires forall i :: 0 <= i < k + m ==> IsShard(data, |data[0]|, i, shards[i])
    requires forall i :: 0 <= i < k + m ==> slots[i] == if i in lost then None else Some(shards[i])
    requires DecodeError(slots, k, m).Some? ==> r == Err(DecodeError(slots, k, m).value)
    requires DecodeError(slots, k, m).None? ==> r.Ok? && |r.value| == k
    requires r.Ok? ==> DecodeError(slots, k, m).None?
    requires r.Ok? ==> Explains(r.value, |Picked(slots, k)[0]|, Survivors(slots)[..k], Picked(slots, k))
    ensures var kept := Kept(k + m, lost);
      r == if |kept| >= k then Ok(data) else Err(InsufficientShards(|kept|, k))
  {
    hide Code;
    var len := |data[0]|;
    KeptSurvive(slots, lost);
    var kept := Survivors(slots);
    if |kept| >= k {
      var picked := Picked(slots, k);
      forall i | 0 <= i < k ensures IsShard(data, len, kept[i], picked[i]) {
        assert picked[i] == shards[kept[i]];
      }
      assert Explains(data, len, kept[..k], picked);
      ShardsDetermine(r.value, data, len, kept[..k], picked);
    }
  }

  /** Every shard that is there survives. */
  lemma {:induction false} SurvivorsAll(slots: Slots, p: nat)
    ensures p in Survivors(slots) <==> p < |slots| && slots[p].Some?
    decreases |slots|
  {
    if slots != [] { SurvivorsAll(slots[..|slots| - 1], p); }
  }
}
