/** The slice-map contract: an accepted map tiles the file. */
module SliceMaps {
  import opened Bytes
  import opened Metadata

  /** What the field parse and `validate_slice_map` accept together. */
  ghost predicate Accepted(slices: seq<SliceRef>) {
    && (forall i :: 0 <= i < |slices| ==> slices[i].fileByteStart < slices[i].fileByteEnd)
    && Contiguous(slices)
  }

  /** Each slice starts where the previous one ended, the first at byte 0. */
  ghost predicate Contiguous(slices: seq<SliceRef>) {
    forall i {:trigger ExpectedStart(slices, i)} ::
      0 <= i < |slices| ==> slices[i].fileByteStart == ExpectedStart(slices, i)
  }

  function ExpectedStart(slices: seq<SliceRef>, i: nat): u64
    requires i <= |slices|
  {
    if i == 0 then 0 else slices[i - 1].fileByteEnd
  }

  lemma PrefixAccepted(slices: seq<SliceRef>, n: nat)
    requires Accepted(slices) && n <= |slices|
    ensures Accepted(slices[..n])
  {
    forall i | 0 <= i < n ensures slices[..n][i].fileByteStart == ExpectedStart(slices[..n], i) {
      assert slices[i].fileByteStart == ExpectedStart(slices, i);
    }
  }

  /** `validate_slice_map`. */
  method ValidateSliceMap(slices: seq<SliceRef>) returns (ok: bool)
    ensures ok <==> Contiguous(slices)
  {
    var expectedStart: u64 := 0;
    var i := 0;
    while i < |slices|
      invariant 0 <= i <= |slices|
      invariant expectedStart == ExpectedStart(slices, i)
      invariant forall k {:trigger ExpectedStart(slices, k)} ::
        0 <= k < i ==> slices[k].fileByteStart == ExpectedStart(slices, k)
    {
      if slices[i].fileByteStart != expectedStart { return false; }
      expectedStart := slices[i].fileByteEnd;
      i := i + 1;
    }
    return true;
  }

  function SaturatingSub(a: u64, b: u64): u64 { if a >= b then a - b else 0 }

  /** `Inode::file_len`. */
  function FileLen(inode: Inode): nat {
    match inode.content
    case InlineData(data) => if |data| < 0x1_0000_0000_0000_0000 then |data| else 0xFFFF_FFFF_FFFF_FFFF
    case SliceMap(slices) =>
      if slices == [] then 0
      else SaturatingSub(slices[|slices| - 1].fileByteEnd, slices[0].fileByteStart)
    case _ => 0
  }

  predicate Covers(slice: SliceRef, offset: int) {
    slice.fileByteStart <= offset < slice.fileByteEnd
  }

  ghost function TotalLength(slices: seq<SliceRef>): int {
    if slices == [] then 0
    else TotalLength(slices[..|slices| - 1]) + slices[|slices| - 1].fileByteEnd - slices[|slices| - 1].fileByteStart
  }

  /** In an accepted map slices are ordered, so two different ones never overlap. */
  lemma {:induction false} StrictlyOrdered(slices: seq<SliceRef>, i: nat, j: nat)
    requires Accepted(slices) && i < j < |slices|
    ensures slices[i].fileByteEnd <= slices[j].fileByteStart
    decreases j
  {
    assert slices[j].fileByteStart == ExpectedStart(slices, j);
    if i < j - 1 {
      StrictlyOrdered(slices, i, j - 1);
      assert slices[j - 1].fileByteStart < slices[j - 1].fileByteEnd;
    } else {
      assert i == j - 1;
    }
  }

  /** Every offset below the last end is covered. */
  lemma {:induction false} FindCovering(slices: seq<SliceRef>, offset: nat) returns (i: nat)
    requires Accepted(slices) && slices != [] && offset < slices[|slices| - 1].fileByteEnd
    ensures i < |slices| && Covers(slices[i], offset)
    decreases |slices|
  {
    var last := |slices| - 1;
    if slices[last].fileByteStart <= offset { return last; }
    PrefixAccepted(slices, last);
    assert slices[last].fileByteStart == ExpectedStart(slices, last);
    i := FindCovering(slices[..last], offset);
  }

  lemma {:induction false} TotalIsLastEnd(slices: seq<SliceRef>)
    requires Accepted(slices)
    ensures TotalLength(slices) == if slices == [] then 0 else slices[|slices| - 1].fileByteEnd
    decreases |slices|
  {
    if slices != [] {
      var front := slices[..|slices| - 1];
      PrefixAccepted(slices, |front|);
      TotalIsLastEnd(front);
      assert slices[|front|].fileByteStart == ExpectedStart(slices, |front|);
      assert front != [] ==> front[|front| - 1] == slices[|slices| - 2];
    }
  }

  lemma CoveredBelowLastEnd(slices: seq<SliceRef>, i: nat, offset: int)
    requires Accepted(slices) && i < |slices| && Covers(slices[i], offset)
    ensures offset < slices[|slices| - 1].fileByteEnd
  {
    var last := |slices| - 1;
    if i < last {
      StrictlyOrdered(slices, i, last);
      assert slices[last].fileByteStart < slices[last].fileByteEnd;
    }
  }

  lemma CoveredOnce(slices: seq<SliceRef>, i: nat, j: nat, offset: int)
    requires Accepted(slices) && i < |slices| && j < |slices|
    requires Covers(slices[i], offset) && Covers(slices[j], offset)
    ensures i == j
  {
    if i < j { StrictlyOrdered(slices, i, j); }
    if j < i { StrictlyOrdered(slices, j, i); }
  }

  /**
   * An accepted map tiles the file: an offset lies in some slice iff it is below `file_len`,
   * then in exactly one, and `file_len` is the sum of the slice lengths.
   */
  lemma AcceptedMapTiles(inode: Inode, offset: nat)
    requires inode.content.SliceMap? && Accepted(inode.content.slices)
    ensures var slices := inode.content.slices;
      && (offset < FileLen(inode) <==> exists i :: 0 <= i < |slices| && Covers(slices[i], offset))
      && (forall i, j | 0 <= i < |slices| && 0 <= j < |slices| ::
        Covers(slices[i], offset) && Covers(slices[j], offset) ==> i == j)
      && FileLen(inode) == TotalLength(slices)
  {
    var slices := inode.content.slices;
    TotalIsLastEnd(slices);
    if slices != [] {
      assert slices[0].fileByteStart == ExpectedStart(slices, 0);
      if offset < FileLen(inode) {
        var i := FindCovering(slices, offset);
        assert Covers(slices[i], offset);
      }
    }
    forall i | 0 <= i < |slices| && Covers(slices[i], offset) ensures offset < FileLen(inode) {
      CoveredBelowLastEnd(slices, i, offset);
    }
    forall i, j | 0 <= i < |slices| && 0 <= j < |slices| && Covers(slices[i], offset) && Covers(slices[j], offset)
      ensures i == j
    {
      CoveredOnce(slices, i, j, offset);
    }
  }
}
