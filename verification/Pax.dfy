/** PAX records: a length that counts its own digits. */
module Pax {
  import opened Bytes

  const SPACE: byte := 0x20
  const NEWLINE: byte := 0x0A
  const ZERO: byte := 0x30

  // ----- Decimal numbers -----

  /** `to_string`. */
  function Decimal(n: nat): (s: seq<byte>)
    ensures |s| > 0 && AllDigits(s)
  {
    if n < 10 then [ZERO + n] else Decimal(n / 10) + [ZERO + n % 10]
  }

  predicate Digit(b: byte) { ZERO <= b < ZERO + 10 }

  predicate AllDigits(s: seq<byte>) { forall i :: 0 <= i < |s| ==> Digit(s[i]) }

  function Number(s: seq<byte>): nat
    requires AllDigits(s)
  {
    if s == [] then 0 else 10 * Number(s[..|s| - 1]) + s[|s| - 1] - ZERO
  }

  lemma {:induction false} NumberOfDecimal(n: nat)
    ensures Number(Decimal(n)) == n
    decreases n
  {
    var s := Decimal(n);
    if n >= 10 {
      NumberOfDecimal(n / 10);
      assert s[..|s| - 1] == Decimal(n / 10);
    } else {
      assert s[..|s| - 1] == [];
    }
  }

  function Width(n: nat): nat { |Decimal(n)| }

  lemma {:induction false} WidthMonotone(m: nat, n: nat)
    requires m <= n
    ensures Width(m) <= Width(n)
    decreases n
  {
    if m >= 10 { WidthMonotone(m / 10, n / 10); }
  }

  lemma {:induction false} WidthBound(n: nat)
    ensures Width(n) <= n / 2 + 1
    decreases n
  {
    if n >= 10 { WidthBound(n / 10); }
  }

  function Pow10(k: nat): (p: nat)
    ensures p > 0
  {
    if k == 0 then 1 else 10 * Pow10(k - 1)
  }

  /** A number has `d` digits iff it lies between the powers of ten. */
  lemma {:induction false} WidthIff(n: nat, d: nat)
    requires d > 0
    ensures Width(n) <= d <==> n < Pow10(d)
    decreases d
  {
    assert Pow10(1) == 10 * Pow10(0);
    if d == 1 {
      if n >= 10 { assert Width(n) == Width(n / 10) + 1; }
    } else {
      Pow10Grows(d);
      if n >= 10 { WidthIff(n / 10, d - 1); }
    }
  }

  lemma {:induction false} Pow10Grows(d: nat)
    requires d > 0
    ensures Pow10(d) >= 10
  {
    if d > 1 { Pow10Grows(d - 1); } else { assert Pow10(1) == 10 * Pow10(0); }
  }

  // ----- The record -----

  /** The record's length if its number is printed with `digits` digits. */
  function Total(line: nat, digits: nat): nat { line + digits + 2 }

  /** Printing that many digits is right. */
  predicate Consistent(line: nat, digits: nat) { Width(Total(line, digits)) == digits }

  function Record(len: nat, line: seq<byte>): seq<byte> {
    Decimal(len) + [SPACE] + line + [NEWLINE]
  }

  /** The record of a line: the number it starts with is its own length. */
  ghost predicate SelfCounting(record: seq<byte>, line: seq<byte>) {
    record == Record(|record|, line)
  }

  /** The digit loop of the tar writer. */
  method PaxRecord(line: seq<byte>) returns (record: seq<byte>, digits: nat)
    ensures SelfCounting(record, line)
    ensures Consistent(|line|, digits) && forall d: nat :: Consistent(|line|, d) ==> digits <= d
    ensures |record| == Total(|line|, digits)
  {
    hide Width;
    digits := 1;
    StartIsLeast(|line|);
    while true
      invariant 1 <= digits <= Width(Total(|line|, digits)) && digits <= |line| + 3
      invariant forall d: nat :: Consistent(|line|, d) ==> digits <= d
      decreases |line| + 3 - digits
    {
      var len := |line| + digits + 2;
      var printed := |Decimal(len)|;
      DigitStep(|line|, digits);
      if printed == digits {
        record := Decimal(len) + [SPACE] + line + [NEWLINE];
        return;
      }
      digits := printed;
    }
  }

  lemma StartIsLeast(line: nat)
    ensures Width(Total(line, 1)) >= 1
    ensures forall d: nat :: Consistent(line, d) ==> 1 <= d
  {
  }

  /** One turn: the guess can only grow, stays under the bound, and never passes a consistent count. */
  lemma DigitStep(line: nat, digits: nat)
    requires digits <= Width(Total(line, digits)) && digits <= line + 3
    ensures var next := Width(Total(line, digits));
      && next == |Decimal(line + digits + 2)| && next <= line + 3 && next <= Width(Total(line, next))
      && forall d: nat :: Consistent(line, d) && digits <= d ==> next <= d
  {
    var next := Width(Total(line, digits));
    WidthBound(Total(line, digits));
    WidthMonotone(Total(line, digits), Total(line, next));
    forall d: nat | Consistent(line, d) && digits <= d ensures next <= d {
      WidthMonotone(Total(line, digits), Total(line, d));
    }
  }

  /** A line has two consistent counts next to each other iff the shorter total is a row of nines. */
  lemma TwoConsistentIff(line: nat, d: nat)
    requires d > 0
    ensures Consistent(line, d) && Consistent(line, d + 1) <==> Total(line, d) == Pow10(d) - 1
  {
    WidthIff(Total(line, d), d);
    WidthIff(Total(line, d + 1), d);
    WidthIff(Total(line, d + 1), d + 1);
    if d > 1 {
      WidthIff(Total(line, d), d - 1);
      assert Pow10(d) == 10 * Pow10(d - 1);
    }
    assert Pow10(d + 1) == 10 * Pow10(d);
    Pow10Grows(d);
  }

  // ----- Reading records back -----

  /** How many digits stand in front. */
  function DigitRun(s: seq<byte>): (k: nat)
    ensures k <= |s| && AllDigits(s[..k]) && (k < |s| ==> !Digit(s[k]))
  {
    if s == [] || !Digit(s[0]) then 0
    else
      var k := DigitRun(s[1..]) + 1;
      assert forall i :: 0 < i < k ==> s[i] == s[1..][..k - 1][i - 1];
      k
  }

  /** The "pax Extended Header" section of POSIX.1 pax: a length, a space, the line, a newline. */
  function SplitRecords(s: seq<byte>): Option<seq<seq<byte>>>
    decreases |s|
  {
    if s == [] then Some([])
    else
      var k := DigitRun(s);
      var n := Number(s[..k]);
      if k + 2 <= n <= |s| && s[k] == SPACE && s[n - 1] == NEWLINE then
        match SplitRecords(s[n..])
        case None => None
        case Some(lines) => Some([s[k + 1..n - 1]] + lines)
      else None
  }

  lemma {:induction false} DigitRunIs(digits: seq<byte>, rest: seq<byte>)
    requires AllDigits(digits) && rest != [] && !Digit(rest[0])
    ensures DigitRun(digits + rest) == |digits|
  {
    if digits != [] {
      DigitRunIs(digits[1..], rest);
      assert (digits + rest)[1..] == digits[1..] + rest;
    } else {
      assert digits + rest == rest;
    }
  }

  /** A self-counting record, followed by anything, is split off as its line. */
  lemma SplitsFirst(record: seq<byte>, line: seq<byte>, rest: seq<byte>)
    requires SelfCounting(record, line) && SplitRecords(rest).Some?
    ensures SplitRecords(record + rest) == Some([line] + SplitRecords(rest).value)
  {
    hide Decimal, Number, DigitRun, AllDigits, SplitRecords;
    var digits := Decimal(|record|);
    NumberOfDecimal(|record|);
    Layout(digits, line, rest);
    DigitRunIs(digits, [SPACE] + line + [NEWLINE] + rest);
    SplitUnfold(record + rest, |digits|, |record|);
  }

  lemma SplitUnfold(s: seq<byte>, k: nat, n: nat)
    requires DigitRun(s) == k && Number(s[..k]) == n && k + 2 <= n <= |s| && s[k] == SPACE && s[n - 1] == NEWLINE
    requires SplitRecords(s[n..]).Some?
    ensures SplitRecords(s) == Some([s[k + 1..n - 1]] + SplitRecords(s[n..]).value)
  {
    hide Number, DigitRun;
  }

  lemma Layout(digits: seq<byte>, line: seq<byte>, rest: seq<byte>)
    ensures var record := digits + [SPACE] + line + [NEWLINE];
      var s, n := record + rest, |record|;
      && s == digits + ([SPACE] + line + [NEWLINE] + rest)
      && s[..|digits|] == digits && s[n..] == rest && s[|digits|] == SPACE && s[n - 1] == NEWLINE
      && s[|digits| + 1..n - 1] == line
  {
  }

  /** Records read back as their lines, in order. */
  ghost predicate ReadsBack(records: seq<byte>, lines: seq<seq<byte>>) {
    forall rest :: SplitRecords(rest).Some? ==> SplitRecords(records + rest) == Some(lines + SplitRecords(rest).value)
  }

  lemma ReadsBackSnoc(records: seq<byte>, lines: seq<seq<byte>>, record: seq<byte>, line: seq<byte>)
    requires ReadsBack(records, lines) && SelfCounting(record, line)
    ensures ReadsBack(records + record, lines + [line])
  {
    hide SplitRecords, SelfCounting;
    forall rest | SplitRecords(rest).Some?
      ensures SplitRecords((records + record) + rest) == Some((lines + [line]) + SplitRecords(rest).value)
    {
      var more := SplitRecords(rest).value;
      SplitsFirst(record, line, rest);
      assert (records + record) + rest == records + (record + rest);
      assert (lines + [line]) + more == lines + ([line] + more);
    }
  }

  // ----- The attributes of a file -----

  datatype XAttr = XAttr(key: seq<byte>, value: seq<byte>)

  /** ASCII `SCHILY.xattr.`. */
  const KEY_PREFIX: seq<byte> := [0x53, 0x43, 0x48, 0x49, 0x4C, 0x59, 0x2E, 0x78, 0x61, 0x74, 0x74, 0x72, 0x2E]
  const EQUALS: byte := 0x3D

  /** What pax framing can carry; the rest is skipped. */
  predicate Representable(x: XAttr) { 0 !in x.key && NEWLINE !in x.key && 0 !in x.value && NEWLINE !in x.value }

  /** One attribute's line; `lossy` stands for `String::from_utf8_lossy`. */
  function Line(x: XAttr, lossy: seq<byte> -> seq<byte>): seq<byte> {
    KEY_PREFIX + x.key + [EQUALS] + lossy(x.value)
  }

  /** A line by position: the prefix, the key, an equals sign and the value. */
  lemma LineLayout(x: XAttr, lossy: seq<byte> -> seq<byte>)
    ensures var s, n := Line(x, lossy), 13 + |x.key|;
      && |s| == n + 1 + |lossy(x.value)| && s[..13] == Ascii("SCHILY.xattr.") && s[13..n] == x.key
      && s[n..n + 1] == Ascii("=") && s[n + 1..] == lossy(x.value)
  {
    assert Line(x, lossy)[..13] == KEY_PREFIX;
  }

  lemma RepresentableIff(x: XAttr)
    ensures Representable(x) <==> forall b :: b in x.key + x.value ==> b != 0 && b != 0x0A
  {
    assert forall b :: b in x.key + x.value <==> b in x.key || b in x.value;
  }

  /** Just the attributes with a NUL or a newline somewhere are left out, and the others keep their order. */
  lemma {:induction false} LinesOf(xattrs: seq<XAttr>, lossy: seq<byte> -> seq<byte>, i: nat)
    requires i < |xattrs|
    ensures var x, before := xattrs[i], |Lines(xattrs[..i], lossy)|;
      if forall b :: b in x.key + x.value ==> b != 0 && b != 0x0A
      then before < |Lines(xattrs, lossy)| && Lines(xattrs, lossy)[before] == Line(x, lossy)
      else Lines(xattrs[..i + 1], lossy) == Lines(xattrs[..i], lossy)
    decreases |xattrs|
  {
    hide Line;
    var n, x := |xattrs| - 1, xattrs[i];
    RepresentableIff(x);
    hide Representable;
    assert xattrs[..i + 1][..i] == xattrs[..i] && xattrs[..n + 1] == xattrs;
    if i < n {
      LinesOf(xattrs[..n], lossy, i);
      assert xattrs[..n][..i] == xattrs[..i];
    }
  }

  /** The lines of the representable attributes, in order. */
  function Lines(xattrs: seq<XAttr>, lossy: seq<byte> -> seq<byte>): seq<seq<byte>> {
    if xattrs == [] then []
    else
      var n := |xattrs| - 1;
      Lines(xattrs[..n], lossy) + if Representable(xattrs[n]) then [Line(xattrs[n], lossy)] else []
  }

  /** The `records` string of one file: read as pax prescribes it gives back the representable attributes' lines. */
  method PaxRecords(xattrs: seq<XAttr>, lossy: seq<byte> -> seq<byte>) returns (records: seq<byte>)
    ensures SplitRecords(records) == Some(Lines(xattrs, lossy))
  {
    hide SplitRecords, SelfCounting, Consistent, Line, ReadsBack, Representable, Lines;
    LinesStep(xattrs, 0, lossy);
    records := [];
    NothingReadsBack();
    var i := 0;
    while i < |xattrs|
      invariant 0 <= i <= |xattrs| && ReadsBack(records, Lines(xattrs[..i], lossy))
    {
      LinesStep(xattrs, i, lossy);
      if Representable(xattrs[i]) {
        var line := Line(xattrs[i], lossy);
        var record, digits := PaxRecord(line);
        ReadsBackSnoc(records, Lines(xattrs[..i], lossy), record, line);
        records := records + record;
      } else {
        assert Lines(xattrs[..i], lossy) + [] == Lines(xattrs[..i], lossy);
      }
      i := i + 1;
    }
    assert xattrs[..i] == xattrs;
    ReadsBackWhole(records, Lines(xattrs, lossy));
  }

  lemma LinesStep(xattrs: seq<XAttr>, i: nat, lossy: seq<byte> -> seq<byte>)
    requires i <= |xattrs|
    ensures i == 0 ==> Lines(xattrs[..i], lossy) == []
    ensures i < |xattrs| ==>
      Lines(xattrs[..i + 1], lossy)
      == Lines(xattrs[..i], lossy) + if Representable(xattrs[i]) then [Line(xattrs[i], lossy)] else []
  {
    if i < |xattrs| { assert xattrs[..i + 1][..i] == xattrs[..i]; }
  }

  lemma ReadsBackWhole(records: seq<byte>, lines: seq<seq<byte>>)
    requires ReadsBack(records, lines)
    ensures SplitRecords(records) == Some(lines)
  {
    EmptySplits();
    hide SplitRecords;
    assert records + [] == records && lines + [] == lines;
    assert SplitRecords(records + []) == Some(lines + []);
  }

  lemma EmptySplits()
    ensures SplitRecords([]) == Some([])
  {
  }

  lemma NothingReadsBack()
    ensures ReadsBack([], [])
  {
    hide SplitRecords;
    forall rest | SplitRecords(rest).Some? ensures SplitRecords([] + rest) == Some([] + SplitRecords(rest).value) {
      assert [] + rest == rest && [] + SplitRecords(rest).value == SplitRecords(rest).value;
    }
  }
}
