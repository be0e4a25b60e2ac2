/** Shamir secret sharing: any k shares give the secret back, any k - 1 say nothing about it. */
module Shamir {
  import opened Bytes
  import opened Gf2
  import opened Gf256
  import opened Polynomials

  datatype ShamirError =
    | ThresholdTooSmall(k: nat)
    | ThresholdExceedsShares(k: nat, n: nat)
    | TooManyShares(n: nat)
    | EmptySecret
    | NoShares
    | MalformedShare
    | InconsistentShareLen
    | DuplicateIndex(index: byte)
    | RngFailed

  /** Coefficient `j` of row `i` as the caller's entropy source fills it. */
  type Entropy = (nat, nat) -> byte

  /** The polynomial of secret byte `i`: the byte itself, then k - 1 random coefficients. */
  function Row(secret: seq<byte>, k: nat, random: Entropy, i: nat): (row: Poly)
    requires i < |secret| && k > 0
    ensures |row| == k && row[0] == secret[i]
  {
    seq(k, (j: nat) => if j == 0 then secret[i] else random(i, j))
  }

  /** Share `index`: the index, then every row's value there. */
  function Share(secret: seq<byte>, k: nat, random: Entropy, index: byte): (share: seq<byte>)
    requires k > 0
    ensures |share| == 1 + |secret| && share[0] == index
    ensures forall i :: 0 <= i < |secret| ==> share[1 + i] == Eval(Row(secret, k, random, i), index)
  {
    [index] + seq(|secret|, i requires 0 <= i < |secret| => Eval(Row(secret, k, random, i), index))
  }

  function SplitError(secret: seq<byte>, k: nat, n: nat): Option<ShamirError> {
    if k < 2 then Some(ThresholdTooSmall(k))
    else if k > n then Some(ThresholdExceedsShares(k, n))
    else if n > 255 then Some(TooManyShares(n))
    else if secret == [] then Some(EmptySecret)
    else None
  }

  /** One turn of the share loop. */
  method MakeShare(secret: seq<byte>, k: nat, random: Entropy, index: byte) returns (share: seq<byte>)
    requires k > 0
    ensures share == Share(secret, k, random, index)
  {
    hide Eval, Row;
    share := [index];
    var i := 0;
    while i < |secret|
      invariant 0 <= i <= |secret|
      invariant share == Share(secret, k, random, index)[..1 + i]
    {
      var value := EvalPoly(Row(secret, k, random, i), index);
      share := share + [value];
      i := i + 1;
    }
  }

  /** For each row of coefficients, whether the entropy source fails on it. */
  type Faults = nat -> Option<ShamirError>

  function FirstFault(faults: Faults, n: nat): Option<ShamirError> {
    if n == 0 then None
    else if FirstFault(faults, n - 1).Some? then FirstFault(faults, n - 1)
    else faults(n - 1)
  }

  /** The calls to the entropy source, one row after the other. */
  method FindFault(faults: Faults, rows: nat) returns (r: Option<ShamirError>)
    ensures r == FirstFault(faults, rows)
  {
    r := None;
    var i := 0;
    while i < rows
      invariant 0 <= i <= rows && r == FirstFault(faults, i) == None
    {
      r := faults(i);
      if r.Some? {
        FaultStays(faults, i + 1, rows);
        return;
      }
      i := i + 1;
    }
  }

  lemma {:induction false} FaultStays(faults: Faults, i: nat, n: nat)
    requires i <= n && FirstFault(faults, i).Some?
    ensures FirstFault(faults, n) == FirstFault(faults, i)
    decreases n
  {
    if i < n { FaultStays(faults, i, n - 1); }
  }

  /** `split`: refuses bad parameters, passes on the entropy source's error, else returns the shares 1 to n. */
  method Split(secret: seq<byte>, k: nat, n: nat, random: Entropy, faults: Faults)
    returns (r: Result<seq<seq<byte>>, ShamirError>)
    ensures SplitError(secret, k, n).Some? ==> r == Err(SplitError(secret, k, n).value)
    ensures SplitError(secret, k, n).None? && FirstFault(faults, |secret|).Some? ==>
      r == Err(FirstFault(faults, |secret|).value)
    ensures SplitError(secret, k, n).None? && FirstFault(faults, |secret|).None? ==>
      && r.Ok? && |r.value| == n
      && forall i :: 0 <= i < n ==> r.value[i] == Share(secret, k, random, i + 1)
  {
    hide Eval, Row;
    if k < 2 { return Err(ThresholdTooSmall(k)); }
    if k > n { return Err(ThresholdExceedsShares(k, n)); }
    if n > 255 { return Err(TooManyShares(n)); }
    if secret == [] { return Err(EmptySecret); }
    var fault := FindFault(faults, |secret|);
    if fault.Some? { return Err(fault.value); }
    var shares: seq<seq<byte>> := [];
    var index := 1;
    while index <= n
      invariant 1 <= index <= n + 1
      invariant |shares| == index - 1
      invariant forall i :: 0 <= i < |shares| ==> shares[i] == Share(secret, k, random, i + 1)
    {
      var share := MakeShare(secret, k, random, index);
      shares := shares + [share];
      index := index + 1;
    }
    return Ok(shares);
  }

  // ----- Reconstruction -----

  function Indices(shares: seq<seq<byte>>): (xs: seq<byte>)
    requires forall s :: s in shares ==> |s| > 0
    ensures |xs| == |shares|
  {
    seq(|shares|, i requires 0 <= i < |shares| => shares[i][0])
  }

  function Column(shares: seq<seq<byte>>, b: nat): (ys: seq<byte>)
    requires forall s :: s in shares ==> |s| > b + 1
    ensures |ys| == |shares|
  {
    seq(|shares|, i requires 0 <= i < |shares| => shares[i][1 + b])
  }

  /** `lagrange_at_zero`. */
  method LagrangeAtZero(xs: seq<byte>, ys: seq<byte>) returns (acc: byte)
    requires |xs| == |ys|
    ensures acc == Lagrange(xs, ys, |xs|, 0)
  {
    hide Mul, Xor, Inv;
    acc := 0;
    var i := 0;
    while i < |xs|
      invariant 0 <= i <= |xs|
      invariant acc == Lagrange(xs, ys, i, 0)
    {
      var num: byte, den: byte := 1, 1;
      var j := 0;
      while j < |xs|
        invariant 0 <= j <= |xs|
        invariant num == Product(xs, i, j, 0) && den == Product(xs, i, j, xs[i])
      {
        if i != j {
          XorZero(xs[j]);
          num := MulLoop(num, xs[j]);
          den := MulLoop(den, Add(xs[i], xs[j]));
        }
        j := j + 1;
      }
      var inverse := InvLoop(den);
      var weight := MulLoop(num, inverse);
      var term := MulLoop(ys[i], weight);
      acc := Add(acc, term);
      i := i + 1;
    }
  }

  ghost predicate WellFormed(shares: seq<seq<byte>>) {
    && shares != []
    && |shares[0]| >= 2
    && (forall s :: s in shares ==> |s| == |shares[0]|)
    && Distinct(Indices(shares))
  }

  /** Which objection `e` is right: the first that applies, in this order. */
  ghost predicate Objects(shares: seq<seq<byte>>, e: ShamirError) {
    if shares == [] then e == NoShares
    else if |shares[0]| < 2 then e == MalformedShare
    else if exists s :: s in shares && |s| != |shares[0]| then e == InconsistentShareLen
    else e.DuplicateIndex? && exists i, j :: 0 <= i < j < |shares| && shares[i][0] == e.index && shares[j][0] == e.index
  }

  /** `combine`: refuses unusable shares, else interpolates every byte position at zero. */
  method Combine(shares: seq<seq<byte>>) returns (r: Result<seq<byte>, ShamirError>)
    ensures r.Ok? <==> WellFormed(shares)
    ensures r.Err? ==> Objects(shares, r.error)
    ensures r.Ok? ==>
      && |r.value| == |shares[0]| - 1
      && forall b :: 0 <= b < |r.value| ==> r.value[b] == Lagrange(Indices(shares), Column(shares, b), |shares|, 0)
  {
    if shares == [] { return Err(NoShares); }
    if |shares[0]| < 1 { return Err(MalformedShare); }
    var bodyLen := |shares[0]| - 1;
    if bodyLen == 0 { return Err(MalformedShare); }
    var i := 0;
    while i < |shares|
      invariant 0 <= i <= |shares|
      invariant forall j :: 0 <= j < i ==> |shares[j]| == bodyLen + 1
    {
      if |shares[i]| != bodyLen + 1 {
        assert shares[i] in shares;
        return Err(InconsistentShareLen);
      }
      i := i + 1;
    }
    var duplicate := FindDuplicate(Indices(shares));
    if duplicate.Some? {
      ghost var i, j :| 0 <= i < j < |shares| && Indices(shares)[i] == Indices(shares)[j] == duplicate.value;
      assert shares[i][0] == duplicate.value && shares[j][0] == duplicate.value;
      return Err(DuplicateIndex(duplicate.value));
    }
    var secret: seq<byte> := [];
    while |secret| < bodyLen
      invariant |secret| <= bodyLen
      invariant forall b :: 0 <= b < |secret| ==> secret[b] == Lagrange(Indices(shares), Column(shares, b), |shares|, 0)
    {
      var value := LagrangeAtZero(Indices(shares), Column(shares, |secret|));
      secret := secret + [value];
    }
    return Ok(secret);
  }

  /** The loop inserting indices into a set until one is already there. */
  method FindDuplicate(xs: seq<byte>) returns (r: Option<byte>)
    ensures r.None? <==> Distinct(xs)
    ensures r.Some? ==> exists i, j :: 0 <= i < j < |xs| && xs[i] == xs[j] == r.value
  {
    var seen: set<byte> := {};
    var i := 0;
    while i < |xs|
      invariant 0 <= i <= |xs|
      invariant Distinct(xs[..i])
      invariant forall x :: x in seen <==> x in xs[..i]
    {
      if xs[i] in seen {
        ghost var j :| 0 <= j < i && xs[j] == xs[i];
        return Some(xs[i]);
      }
      seen := seen + {xs[i]};
      assert xs[..i + 1] == xs[..i] + [xs[i]];
      i := i + 1;
    }
    assert xs[..i] == xs;
    return None;
  }

  // ----- Main theorem 1: any k of the n shares give the secret back -----

  /** `shares` are shares of `secret` with threshold `k`, each index used once. */
  ghost predicate SharesOf(shares: seq<seq<byte>>, secret: seq<byte>, k: nat, random: Entropy) {
    && k > 0
    && (forall i :: 0 <= i < |shares| ==> |shares[i]| > 0 && shares[i] == Share(secret, k, random, shares[i][0]))
    && Distinct(Indices(shares))
  }

  lemma CombineRecovers(shares: seq<seq<byte>>, secret: seq<byte>, k: nat, random: Entropy, b: nat)
    requires secret != [] && |shares| >= k && SharesOf(shares, secret, k, random) && b < |secret|
    ensures WellFormed(shares) && |shares[0]| == |secret| + 1
    ensures Lagrange(Indices(shares), Column(shares, b), |shares|, 0) == secret[b]
  {
    var xs, ys := Indices(shares), Column(shares, b);
    var row := Row(secret, k, random, b);
    forall i | 0 <= i < |xs| ensures ys[i] == Eval(row, xs[i]) {
      assert shares[i] == Share(secret, k, random, shares[i][0]);
    }
    InterpolationExact(row, xs, ys, 0);
    EvalAtZero(row);
  }

  /** Splitting, losing all but k or more shares and combining what is left returns the secret. */
  method SplitThenCombine(secret: seq<byte>, k: nat, n: nat, random: Entropy, faults: Faults, kept: seq<nat>)
    returns (r: Result<seq<byte>, ShamirError>)
    requires SplitError(secret, k, n).None? && FirstFault(faults, |secret|).None?
    requires |kept| >= k && Distinct(kept) && forall i :: 0 <= i < |kept| ==> kept[i] < n
    ensures r == Ok(secret)
  {
    var split := Split(secret, k, n, random, faults);
    var shares := seq(|kept|, i requires 0 <= i < |kept| => split.value[kept[i]]);
    forall i | 0 <= i < |shares| ensures |shares[i]| > 0 && shares[i] == Share(secret, k, random, shares[i][0]) {
      assert shares[i] == Share(secret, k, random, kept[i] + 1);
    }
    forall i, j | 0 <= i < j < |shares| ensures Indices(shares)[i] != Indices(shares)[j] {
      assert kept[i] != kept[j];
    }
    r := Combine(shares);
    forall b | 0 <= b < |secret| ensures r.Ok? && |r.value| == |secret| && r.value[b] == secret[b] {
      CombineRecovers(shares, secret, k, random, b);
    }
    assert r.value == secret;
  }

  // ----- Main theorem 2: k - 1 shares are consistent with every secret -----

  /** Row `c` hides byte `s` and passes through the observed points. */
  ghost predicate Explains(c: Poly, k: nat, s: byte, xs: seq<byte>, ys: seq<byte>)
    requires |xs| == |ys|
  {
    |c| == k && k > 0 && c[0] == s && forall i :: 0 <= i < |xs| ==> Eval(c, xs[i]) == ys[i]
  }

  /**
   * Whatever k - 1 shares show, every secret byte is explained by exactly one choice of the
   * random coefficients, so the shares leave all secrets equally likely.
   */
  lemma FewerSharesRevealNothing(k: nat, s: byte, xs: seq<byte>, ys: seq<byte>) returns (c: Poly)
    requires k > 0 && |xs| == |ys| == k - 1 && Distinct(xs) && 0 !in xs
    ensures Explains(c, k, s, xs, ys)
    ensures forall d :: Explains(d, k, s, xs, ys) ==> d == c
  {
    var px, py := [0] + xs, [s] + ys;
    assert Distinct(px) by {
      forall i, j | 0 <= i < j < |px| ensures px[i] != px[j] {
        assert px[j] == xs[j - 1] && xs[j - 1] in xs;
        if i > 0 { assert px[i] == xs[i - 1]; }
      }
    }
    c := Interpolant(px, py, k);
    forall i | 0 <= i < k ensures Eval(c, px[i]) == py[i] {
      EvalInterpolant(px, py, k, px[i]);
      LagrangeAtPoint(px, py, k, i);
    }
    EvalAtZero(c);
    assert Eval(c, px[0]) == py[0];
    forall i | 0 <= i < |xs| ensures Eval(c, xs[i]) == ys[i] {
      assert Eval(c, px[i + 1]) == py[i + 1];
    }
    forall d | Explains(d, k, s, xs, ys) ensures d == c {
      EvalAtZero(d);
      forall i | 0 <= i < k ensures Eval(d, px[i]) == Eval(c, px[i]) {
        if i > 0 { assert px[i] == xs[i - 1] && py[i] == ys[i - 1]; }
      }
      AgreeEqual(d, c, px);
    }
  }

  // ----- The same for whole secrets -----

  /** The random coefficients of each row are its own: every table of rows that hide the secret can come up. */
  lemma RowsAreFree(secret: seq<byte>, k: nat, table: seq<Poly>) returns (random: Entropy)
    requires k > 0 && |table| == |secret|
    requires forall i :: 0 <= i < |table| ==> |table[i]| == k && table[i][0] == secret[i]
    ensures forall i :: 0 <= i < |secret| ==> Row(secret, k, random, i) == table[i]
  {
    random := (i: nat, j: nat) => if i < |table| && j < |table[i]| then table[i][j] else 0;
    forall i | 0 <= i < |secret| ensures Row(secret, k, random, i) == table[i] {
      assert forall j :: 0 <= j < k ==> Row(secret, k, random, i)[j] == table[i][j];
    }
  }

  /** Rows for the first `n` bytes of `other` that show the same values at `xs` as those of `secret`. */
  lemma {:induction false} OtherRows(secret: seq<byte>, other: seq<byte>, k: nat, random: Entropy, xs: seq<byte>,
    n: nat)
    returns (table: seq<Poly>)
    requires k > 0 && |xs| == k - 1 && Distinct(xs) && 0 !in xs && n <= |secret| == |other|
    ensures |table| == n
    ensures forall i :: 0 <= i < n ==> |table[i]| == k && table[i][0] == other[i]
    ensures forall i, x :: 0 <= i < n && x in xs ==> Eval(table[i], x) == Eval(Row(secret, k, random, i), x)
    decreases n
  {
    hide Eval, Row;
    if n == 0 {
      table := [];
    } else {
      var before := OtherRows(secret, other, k, random, xs, n - 1);
      var row := Row(secret, k, random, n - 1);
      var ys := seq(|xs|, i requires 0 <= i < |xs| => Eval(row, xs[i]));
      var c := FewerSharesRevealNothing(k, other[n - 1], xs, ys);
      table := before + [c];
      forall x | x in xs ensures Eval(c, x) == Eval(row, x) {
        var i :| 0 <= i < |xs| && xs[i] == x;
        assert Eval(c, xs[i]) == ys[i];
      }
    }
  }

  /** Any k - 1 shares of a secret are also those of any other secret of its length, for some random coefficients. */
  lemma SharesFitEverySecret(secret: seq<byte>, other: seq<byte>, k: nat, random: Entropy, xs: seq<byte>)
    returns (otherRandom: Entropy)
    requires k > 0 && |xs| == k - 1 && Distinct(xs) && 0 !in xs && |secret| == |other|
    ensures forall x :: x in xs ==> Share(other, k, otherRandom, x) == Share(secret, k, random, x)
  {
    hide Eval, Row;
    var table := OtherRows(secret, other, k, random, xs, |secret|);
    otherRandom := RowsAreFree(other, k, table);
    forall x | x in xs ensures Share(other, k, otherRandom, x) == Share(secret, k, random, x) {
      var a, b := Share(other, k, otherRandom, x), Share(secret, k, random, x);
      forall i | 0 < i < |a| ensures a[i] == b[i] {
        assert Row(other, k, otherRandom, i - 1) == table[i - 1];
        assert a[1 + (i - 1)] == Eval(table[i - 1], x) == b[1 + (i - 1)];
      }
    }
  }
}
