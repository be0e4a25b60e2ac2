/** What is in a file: how long it is, and which byte of which drop stands at each offset. */
module FileContents {
  import opened Bytes
  import opened Metadata
  import opened SliceMaps
  import opened FileReaders
  import opened Sinks

  /** The slice's drop has all the bytes the slice names, and as many as the slice spans in the file. */
  ghost predicate Full(store: SlabSource, slice: SliceRef) {
    && store(slice.dropId).Plain?
    && slice.dropByteStart + slice.dropByteLen <= |store(slice.dropId).bytes|
    && slice.dropByteLen == slice.fileByteEnd - slice.fileByteStart
  }

  ghost predicate AllFull(store: SlabSource, slices: seq<SliceRef>) {
    forall i :: 0 <= i < |slices| ==> Full(store, slices[i])
  }

  /** Inline data is the file, and its length is the file's. */
  lemma InlineContents(inode: Inode, store: Option<SlabSource>)
    requires inode.content.InlineData? && |inode.content.data| < 0x1_0000_0000_0000_0000
    ensures Plaintext(inode, store) == Some(inode.content.data) && FileLen(inode) == |inode.content.data|
  {
  }

  /** The first `n` slices make up the file up to where slice `n` starts. */
  lemma {:induction false} FrontLength(store: SlabSource, slices: seq<SliceRef>, n: nat)
    requires Accepted(slices) && AllFull(store, slices) && n <= |slices|
    ensures AllOk(DecodeAll(store, slices[..n]))
    ensures |Concat(DecodeAll(store, slices[..n]))| == ExpectedStart(slices, n)
    decreases n
  {
    if n == 0 {
      assert DecodeAll(store, slices[..0]) == [];
    } else {
      FrontLength(store, slices, n - 1);
      var front, last := DecodeAll(store, slices[..n - 1]), DecodeSlice(store, slices[n - 1]);
      assert Full(store, slices[n - 1]);
      assert DecodeAll(store, slices[..n]) == front + [last];
      ConcatOne(front, last.value);
      assert slices[n - 1].fileByteStart == ExpectedStart(slices, n - 1);
    }
  }

  lemma ConcatOne(items: Items, x: seq<byte>)
    requires AllOk(items)
    ensures AllOk(items + [Some(x)]) && Concat(items + [Some(x)]) == Concat(items) + x
  {
    ConcatAppend(items, [Some(x)]);
    var one: Items := [Some(x)];
    var none: Items := [];
    assert one[1..] == none && Concat(none) == [] && Concat(one) == x + Concat(none);
    assert x + Concat(none) == x;
  }

  /**
   * A file whose slices tile it and are all there: it is as long as `file_len` says, and at each offset stands
   * the byte of the covering slice's drop at the corresponding place.
   */
  lemma PlaintextByOffset(inode: Inode, store: SlabSource, i: nat, offset: nat)
    requires inode.content.SliceMap? && Accepted(inode.content.slices) && AllFull(store, inode.content.slices)
    requires i < |inode.content.slices| && Covers(inode.content.slices[i], offset)
    ensures var text, slice := Plaintext(inode, Some(store)), inode.content.slices[i];
      && text.Some? && |text.value| == FileLen(inode) && offset < |text.value|
      && text.value[offset] == store(slice.dropId).bytes[slice.dropByteStart + (offset - slice.fileByteStart)]
  {
    var slices := inode.content.slices;
    FrontLength(store, slices, |slices|);
    assert slices[..|slices|] == slices;
    assert slices[0].fileByteStart == ExpectedStart(slices, 0);
    CoveredBelowLastEnd(slices, i, offset);
    InPlace(store, slices, i);
    hide DecodeAll, Concat, Contiguous;
    var text, slice := Concat(DecodeAll(store, slices)), slices[i];
    var there := text[slice.fileByteStart..slice.fileByteEnd];
    assert Full(store, slice) && there[offset - slice.fileByteStart] == text[offset];
  }

  /** A slice's bytes stand at its place in the file. */
  lemma InPlace(store: SlabSource, slices: seq<SliceRef>, i: nat)
    requires Accepted(slices) && AllFull(store, slices) && i < |slices| && AllOk(DecodeAll(store, slices))
    ensures var text, slice := Concat(DecodeAll(store, slices)), slices[i];
      && slice.fileByteEnd <= |text|
      && text[slice.fileByteStart..slice.fileByteEnd]
        == store(slice.dropId).bytes[slice.dropByteStart..slice.dropByteStart + slice.dropByteLen]
  {
    FrontLength(store, slices, i);
    assert Full(store, slices[i]) && slices[i].fileByteStart == ExpectedStart(slices, i);
    var front, here := DecodeAll(store, slices[..i]), DecodeSlice(store, slices[i]).value;
    var back := DecodeAll(store, slices[i + 1..]);
    assert DecodeAll(store, slices) == (front + [Some(here)]) + back;
    ConcatOne(front, here);
    assert AllOk(back) by { assert back == DecodeAll(store, slices)[i + 1..]; }
    ConcatAppend(front + [Some(here)], back);
    hide DecodeAll, Concat, DecodeSlice, Contiguous;
    Middle(Concat(front), here, Concat(back));
  }

  lemma Middle(a: seq<byte>, b: seq<byte>, c: seq<byte>)
    ensures ((a + b) + c)[|a|..|a| + |b|] == b
  {
  }

  /** The guard of `extract_file` lets a file through iff it is regular or holds something. */
  lemma WritesIff(inode: Inode)
    requires inode.content.SliceMap? ==> Accepted(inode.content.slices)
    ensures inode.content.InlineData? ==> (Writes(inode) <==> inode.IsRegular() || inode.content.data != [])
    ensures inode.content.SliceMap? ==> (Writes(inode) <==> inode.IsRegular() || inode.content.slices != [])
  {
    if inode.content.SliceMap? && inode.content.slices != [] {
      var slices := inode.content.slices;
      assert slices[0].fileByteStart == ExpectedStart(slices, 0);
      assert slices[|slices| - 1].fileByteStart < slices[|slices| - 1].fileByteEnd;
    }
  }
}
