/**
 * The ways to read one file: the chunk iterator, the whole-file loop (sequential and
 * batched) and the buffered slice reader of the tar writer. All are compared with the
 * plain concatenation of the decoded slices.
 */
module FileReaders {
  import opened Bytes
  import opened Metadata

  /** `SlabSource::plaintext_for`: no slab has the drop, the drop does not decode, or its bytes. */
  datatype Fetched = Missing | Undecodable | Plain(bytes: seq<byte>)

  type SlabSource = Digest -> Fetched

  const DECODE_BATCH_SLICES := 64
  const DECODE_PARALLEL_THRESHOLD := 8

  /** `decode_slice`: the slice's range of its drop, cut off at the drop's end; None is an error. */
  function DecodeSlice(store: SlabSource, slice: SliceRef): (r: Option<seq<byte>>)
    ensures r.Some? <==> store(slice.dropId).Plain? && slice.dropByteStart <= |store(slice.dropId).bytes|
    ensures r.Some? ==> |r.value| <= slice.dropByteLen && slice.dropByteStart + |r.value| <= |store(slice.dropId).bytes|
    ensures r.Some? ==> |r.value| == slice.dropByteLen || slice.dropByteStart + |r.value| == |store(slice.dropId).bytes|
    ensures r.Some? ==>
      forall i :: 0 <= i < |r.value| ==> r.value[i] == store(slice.dropId).bytes[slice.dropByteStart + i]
  {
    match store(slice.dropId)
    case Missing => None
    case Undecodable => None
    case Plain(p) =>
      var end := slice.dropByteStart + slice.dropByteLen;
      var end := if end <= |p| then end else |p|;
      if slice.dropByteStart > |p| then None else Some(p[slice.dropByteStart..end])
  }

  /** What a reader hands out chunk by chunk; None stands for an error in that place. */
  type Items = seq<Option<seq<byte>>>

  function DecodeAll(store: SlabSource, slices: seq<SliceRef>): Items
  {
    seq(|slices|, i requires 0 <= i < |slices| => DecodeSlice(store, slices[i]))
  }

  /** The items of a file: its inline data, its slices in order, or one error if there is no store to ask. */
  function ItemsOf(inode: Inode, store: Option<SlabSource>): Items {
    match inode.content
    case InlineData(data) => [Some(data)]
    case SliceMap(slices) =>
      if slices == [] then [] else if store.None? then [None] else DecodeAll(store.value, slices)
    case _ => []
  }

  predicate AllOk(items: Items) {
    forall i :: 0 <= i < |items| ==> items[i].Some?
  }

  function Concat(items: Items): seq<byte>
    requires AllOk(items)
  {
    if items == [] then [] else items[0].value + Concat(items[1..])
  }

  lemma {:induction false} ConcatAppend(a: Items, b: Items)
    requires AllOk(a) && AllOk(b)
    ensures AllOk(a + b) && Concat(a + b) == Concat(a) + Concat(b)
  {
    if a == [] {
      assert a + b == b;
    } else {
      assert (a + b)[1..] == a[1..] + b;
      ConcatAppend(a[1..], b);
    }
  }

  lemma HeadOk(items: Items)
    requires items != []
    ensures AllOk(items) <==> items[0].Some? && AllOk(items[1..])
  {
    assert items == [items[0]] + items[1..];
  }

  /** Taking one more good item extends the concatenation by it. */
  lemma ConcatNext(items: Items, n: nat)
    requires n < |items| && AllOk(items[..n]) && items[n].Some?
    ensures AllOk(items[..n + 1]) && Concat(items[..n + 1]) == Concat(items[..n]) + items[n].value
  {
    var one: Items := [items[n]];
    assert items[..n + 1] == items[..n] + one;
    ConcatAppend(items[..n], one);
    assert one[1..] == [] && Concat(one) == one[0].value + Concat(one[1..]) && one[0].value + [] == one[0].value;
  }

  lemma DecodeRange(store: SlabSource, slices: seq<SliceRef>, i: nat, j: nat)
    requires i <= j <= |slices|
    ensures DecodeAll(store, slices[i..j]) == DecodeAll(store, slices)[i..j]
  {
  }

  lemma OkRange(items: Items, i: nat, j: nat)
    requires i <= j <= |items|
    ensures AllOk(items) ==> AllOk(items[i..j])
  {
  }

  /** The bytes a file streams to, if every item is good. */
  function Streamed(inode: Inode, store: Option<SlabSource>): Option<seq<byte>> {
    Joined(ItemsOf(inode, store))
  }

  /** The iterator `FileChunks` with its three mutable fields. */
  class FileChunks {
    const inode: Inode
    const store: Option<SlabSource>
    var idx: nat
    var pendingInline: Option<seq<byte>>
    var done: bool

    ghost predicate Valid() reads this {
      && (pendingInline.Some? ==> inode.content == InlineData(pendingInline.value) && !done)
      && (inode.content.SliceMap? ==> idx <= |inode.content.slices|)
      && (inode.content.InlineData? && pendingInline.None? ==> done)
    }

    /** The items not yet handed out. */
    ghost function Remaining(): Items
      requires Valid()
      reads this
    {
      if done then []
      else if pendingInline.Some? then [pendingInline]
      else if !inode.content.SliceMap? || idx == |inode.content.slices| then []
      else if store.None? then [None]
      else DecodeAll(store.value, inode.content.slices[idx..])
    }

    constructor (inode: Inode, store: Option<SlabSource>)
      ensures Valid() && this.inode == inode && this.store == store
      ensures Remaining() == ItemsOf(inode, store)
    {
      this.inode, this.store, this.idx := inode, store, 0;
      match inode.content {
        case InlineData(data) => this.pendingInline, this.done := Some(data), false;
        case SliceMap(_) => this.pendingInline, this.done := None, false;
        case _ => this.pendingInline, this.done := None, true;
      }
      new;
      assert inode.content.SliceMap? ==> inode.content.slices[0..] == inode.content.slices;
    }

    /** Hands out the remaining items in order, then None for good. */
    method Next() returns (item: Option<Option<seq<byte>>>)
      requires Valid()
      modifies this
      ensures Valid()
      ensures old(Remaining()) == [] ==> item == None && Remaining() == []
      ensures old(Remaining()) != [] ==> item == Some(old(Remaining())[0]) && Remaining() == old(Remaining())[1..]
    {
      if done { return None; }
      if pendingInline.Some? {
        var data := pendingInline;
        pendingInline, done := None, true;
        return Some(data);
      }
      if !inode.content.SliceMap? {
        done := true;
        return None;
      }
      var slices := inode.content.slices;
      if idx >= |slices| {
        done := true;
        return None;
      }
      if store.None? {
        done := true;
        return Some(None);
      }
      var slice := slices[idx];
      assert slices[idx + 1..] == slices[idx..][1..];
      idx := idx + 1;
      return Some(DecodeSlice(store.value, slice));
    }
  }

  /** The bytes in front of the first error: what a writer has written when it meets it. */
  function Delivered(items: Items): seq<byte> {
    if items == [] || items[0].None? then [] else items[0].value + Delivered(items[1..])
  }

  lemma {:induction false} DeliveredAll(items: Items)
    requires AllOk(items)
    ensures Delivered(items) == Concat(items)
  {
    if items != [] { DeliveredAll(items[1..]); }
  }

  /** The loop over `file_chunks` with which extraction writes a file, until a chunk fails. */
  method StreamFile(inode: Inode, store: Option<SlabSource>) returns (out: seq<byte>, ok: bool)
    ensures ok <==> Streamed(inode, store).Some?
    ensures ok ==> Streamed(inode, store) == Some(out)
    ensures out == Delivered(ItemsOf(inode, store))
  {
    var chunks := new FileChunks(inode, store);
    ghost var items := ItemsOf(inode, store);
    if AllOk(items) { DeliveredAll(items); }
    out := [];
    while true
      invariant chunks.Valid() && fresh(chunks)
      invariant AllOk(items) <==> AllOk(chunks.Remaining())
      invariant Delivered(items) == out + Delivered(chunks.Remaining())
      decreases |chunks.Remaining()|
    {
      ghost var left := chunks.Remaining();
      var item := chunks.Next();
      if item.None? {
        assert left == [] && out + [] == out;
        return out, true;
      }
      HeadOk(left);
      if item.value.None? {
        assert out + [] == out;
        return out, false;
      }
      Assoc(out, item.value.value, Delivered(left[1..]));
      out := out + item.value.value;
    }
  }

  /** What `file_plaintext` answers; None is an error. */
  function Plaintext(inode: Inode, store: Option<SlabSource>): Option<seq<byte>> {
    match inode.content
    case InlineData(data) => Some(data)
    case SliceMap(slices) => if store.None? then None else Joined(DecodeAll(store.value, slices))
    case _ => Some([])
  }

  function Joined(items: Items): Option<seq<byte>> {
    if AllOk(items) then Some(Concat(items)) else None
  }

  /** A slice-backed file of no slices, read without a slab store. */
  predicate EmptyWithoutStore(inode: Inode, store: Option<SlabSource>) {
    inode.content.SliceMap? && inode.content.slices == [] && store.None?
  }

  /** One batch of the parallel decode; `collect` keeps the order and yields an error if any part failed. */
  method DecodeBatch(store: SlabSource, batch: seq<SliceRef>) returns (r: Option<seq<byte>>)
    ensures r.Some? <==> AllOk(DecodeAll(store, batch))
    ensures r.Some? ==> r.value == Concat(DecodeAll(store, batch))
  {
    var parts := DecodeAll(store, batch);
    if i :| 0 <= i < |parts| && parts[i].None? { return None; }
    var out, i := [], 0;
    while i < |parts|
      invariant 0 <= i <= |parts|
      invariant out == Concat(parts[..i])
    {
      ConcatNext(parts, i);
      out := out + parts[i].value;
      i := i + 1;
    }
    assert parts[..i] == parts;
    return Some(out);
  }

  /** `file_plaintext`, through the sequential loop or the batches of 64. */
  method FilePlaintext(inode: Inode, store: Option<SlabSource>) returns (r: Option<seq<byte>>)
    ensures r == Plaintext(inode, store)
  {
    match inode.content {
      case InlineData(data) =>
        return Some(data);
      case SliceMap(slices) =>
        if store.None? { return None; }
        if |slices| >= DECODE_PARALLEL_THRESHOLD {
          r := PlaintextBatched(store.value, slices);
        } else {
          r := PlaintextSequential(store.value, slices);
        }
      case _ => return Some([]);
    }
  }

  method PlaintextSequential(store: SlabSource, slices: seq<SliceRef>) returns (r: Option<seq<byte>>)
    ensures r == Joined(DecodeAll(store, slices))
  {
    ghost var all := DecodeAll(store, slices);
    var out := [];
    var i := 0;
    while i < |slices|
      invariant 0 <= i <= |slices|
      invariant AllOk(all[..i]) && out == Concat(all[..i])
    {
      var part := DecodeSlice(store, slices[i]);
      assert DecodeAll(store, slices)[i] == part;
      if part.None? { return None; }
      ConcatNext(all, i);
      out := out + part.value;
      i := i + 1;
    }
    assert all[..i] == all;
    return Some(out);
  }

  method PlaintextBatched(store: SlabSource, slices: seq<SliceRef>) returns (r: Option<seq<byte>>)
    ensures r == Joined(DecodeAll(store, slices))
  {
    ghost var all := DecodeAll(store, slices);
    assert AllOk(all[..0]) && Concat(all[..0]) == [];
    hide DecodeSlice, Concat, AllOk;
    var out := [];
    var i := 0;
    while i < |slices|
      invariant 0 <= i <= |slices|
      invariant AllOk(all[..i]) && out == Concat(all[..i])
    {
      var end := if i + DECODE_BATCH_SLICES <= |slices| then i + DECODE_BATCH_SLICES else |slices|;
      var part := DecodeBatch(store, slices[i..end]);
      DecodeRange(store, slices, i, end);
      if part.None? {
        OkRange(all, i, end);
        return None;
      }
      ConcatAppend(all[..i], all[i..end]);
      assert all[..i] + all[i..end] == all[..end];
      out := out + part.value;
      i := end;
    }
    assert all[..i] == all;
    return Some(out);
  }

  /** The chunk iterator and `file_plaintext` give the same answer exactly off the storeless empty map. */
  lemma PlaintextAgreesIff(inode: Inode, store: Option<SlabSource>)
    ensures Plaintext(inode, store) == Streamed(inode, store) <==> !EmptyWithoutStore(inode, store)
  {
    match inode.content
    case InlineData(data) =>
      var items := [Some(data)];
      assert items[1..] == [] && Concat(items) == data + Concat(items[1..]) && data + [] == data;
      assert ItemsOf(inode, store) == items;
    case SliceMap(slices) =>
      if store.None? && slices != [] {
        assert ItemsOf(inode, store)[0].None?;
      } else if store.Some? && slices == [] {
        assert DecodeAll(store.value, slices) == [];
      }
    case _ =>
  }

  /** Such a file: refused as a whole, empty chunk by chunk. */
  lemma EmptyMapDiffers()
    ensures var inode := Inode(1, S_IFREG, SliceMap([]));
      Plaintext(inode, None) == None && Streamed(inode, None) == Some([])
  {
  }

  // ----- The buffered slice reader -----

  datatype ReaderState = ReaderState(slices: seq<SliceRef>, current: seq<byte>, pos: nat)
  {
    ghost predicate Valid() { pos <= |current| }
  }

  /** The reader's window into a drop: unlike `decode_slice` it refuses a range past the drop's end. */
  function Window(store: Option<SlabSource>, slice: SliceRef): Option<seq<byte>> {
    if store.None? then None
    else
      match store.value(slice.dropId)
      case Missing => None
      case Undecodable => None
      case Plain(p) =>
        if slice.dropByteStart + slice.dropByteLen <= |p|
        then Some(p[slice.dropByteStart..slice.dropByteStart + slice.dropByteLen]) else None
  }

  /** Every remaining window is readable. */
  ghost predicate Clean(store: Option<SlabSource>, slices: seq<SliceRef>) {
    forall i :: 0 <= i < |slices| ==> Window(store, slices[i]).Some?
  }

  /** The windows before the first unreadable one, concatenated. */
  ghost function Windows(store: Option<SlabSource>, slices: seq<SliceRef>): seq<byte> {
    if slices == [] || Window(store, slices[0]).None? then []
    else Window(store, slices[0]).value + Windows(store, slices[1..])
  }

  /** Everything the reader can still deliver. */
  ghost function Yield(store: Option<SlabSource>, s: ReaderState): seq<byte>
    requires s.Valid()
  {
    s.current[s.pos..] + Windows(store, s.slices)
  }

  /** What one `read` returned, None for an I/O error, and the state it left. */
  datatype ReadStep = ReadStep(read: Option<seq<byte>>, state: ReaderState)

  /** One `read` with a buffer of `n` bytes. */
  function ReadOnce(store: Option<SlabSource>, s: ReaderState, n: nat): (step: ReadStep)
    requires s.Valid()
    ensures step.state.Valid()
    decreases |s.slices|
  {
    if s.pos < |s.current| then
      var k := if |s.current| - s.pos <= n then |s.current| - s.pos else n;
      ReadStep(Some(s.current[s.pos..s.pos + k]), s.(pos := s.pos + k))
    else if s.slices == [] then ReadStep(Some([]), s)
    else
      match Window(store, s.slices[0])
      case None => ReadStep(None, s.(slices := s.slices[1..]))
      case Some(w) => ReadOnce(store, ReaderState(s.slices[1..], w, 0), n)
  }

  /** `SliceReader` with the fields it updates. */
  class SliceReader {
    const store: Option<SlabSource>
    var slices: seq<SliceRef>
    var current: seq<byte>
    var pos: nat

    ghost predicate Valid() reads this { pos <= |current| }

    ghost function State(): ReaderState reads this { ReaderState(slices, current, pos) }

    constructor (store: Option<SlabSource>, slices: seq<SliceRef>)
      ensures Valid() && this.store == store && State() == ReaderState(slices, [], 0)
    {
      this.store, this.slices, this.current, this.pos := store, slices, [], 0;
    }

    method Read(n: nat) returns (r: Option<seq<byte>>)
      requires Valid()
      modifies this
      ensures Valid() && ReadStep(r, State()) == ReadOnce(store, old(State()), n)
    {
      while true
        invariant Valid()
        invariant ReadOnce(store, State(), n) == ReadOnce(store, old(State()), n)
        decreases |slices|
      {
        if pos < |current| {
          var k := if |current| - pos <= n then |current| - pos else n;
          r := Some(current[pos..pos + k]);
          pos := pos + k;
          return;
        }
        if slices == [] { return Some([]); }
        var slice := slices[0];
        slices := slices[1..];
        var window := Window(store, slice);
        if window.None? { return None; }
        current, pos := window.value, 0;
      }
    }
  }

  /** One read moves bytes from what is to come to what was delivered, and fails or ends only when nothing is left. */
  lemma {:induction false} ReadOnceConserves(store: Option<SlabSource>, s: ReaderState, n: nat)
    requires s.Valid()
    ensures var ReadStep(r, t) := ReadOnce(store, s, n);
      if r.None? then Yield(store, s) == [] && !Clean(store, s.slices)
      else
        && |r.value| <= n
        && r.value + Yield(store, t) == Yield(store, s)
        && (Clean(store, t.slices) <==> Clean(store, s.slices))
        && (r.value == [] && n > 0 ==> Yield(store, s) == [] && Clean(store, s.slices))
    decreases |s.slices|
  {
    var ReadStep(r, t) := ReadOnce(store, s, n);
    if s.pos < |s.current| {
      assert s.current[s.pos..] == r.value + t.current[t.pos..];
    } else if s.slices != [] {
      var w := Window(store, s.slices[0]);
      if w.Some? {
        var next := ReaderState(s.slices[1..], w.value, 0);
        ReadOnceConserves(store, next, n);
        assert w.value[0..] == w.value && s.current[s.pos..] == [];
        assert Yield(store, next) == Yield(store, s);
        assert Clean(store, s.slices) <==> Clean(store, next.slices) by {
          assert s.slices == [s.slices[0]] + next.slices;
        }
      }
    }
  }

  datatype Run = Run(out: seq<byte>, failed: bool, ended: bool)

  /** A caller reading with the given buffer sizes until an error or an empty read. */
  function ReadAll(store: Option<SlabSource>, s: ReaderState, sizes: seq<nat>): Run
    requires s.Valid()
    decreases |sizes|
  {
    if sizes == [] then Run([], false, false)
    else
      var ReadStep(r, t) := ReadOnce(store, s, sizes[0]);
      if r.None? then Run([], true, false)
      else if r.value == [] then Run([], false, true)
      else
        var rest := ReadAll(store, t, sizes[1..]);
        Run(r.value + rest.out, rest.failed, rest.ended)
  }

  ghost predicate NonEmptyBuffers(sizes: seq<nat>) {
    forall i :: 0 <= i < |sizes| ==> sizes[i] > 0
  }

  /**
   * Whatever the buffer sizes: delivered bytes are always a prefix of what the windows hold,
   * all of it once the run ends or fails, and it ends only on readable windows.
   */
  lemma {:induction false} RunDeliversWindows(store: Option<SlabSource>, s: ReaderState, sizes: seq<nat>)
    requires s.Valid() && NonEmptyBuffers(sizes)
    ensures var run := ReadAll(store, s, sizes);
      && run.out <= Yield(store, s)
      && (run.failed ==> run.out == Yield(store, s) && !Clean(store, s.slices))
      && (run.ended ==> run.out == Yield(store, s) && Clean(store, s.slices))
      && (|sizes| > |Yield(store, s)| ==> run.failed || run.ended)
    decreases |sizes|
  {
    if sizes != [] {
      ReadOnceConserves(store, s, sizes[0]);
      var ReadStep(r, t) := ReadOnce(store, s, sizes[0]);
      if r.Some? && r.value != [] {
        RunDeliversWindows(store, t, sizes[1..]);
        var rest := ReadAll(store, t, sizes[1..]).out;
        assert r.value + rest <= r.value + Yield(store, t);
      }
    }
  }

  /** Strict windows are the decoded slices wherever they exist, so their concatenation starts the plaintext. */
  lemma {:induction false} WindowsStartPlaintext(store: SlabSource, slices: seq<SliceRef>)
    requires AllOk(DecodeAll(store, slices))
    ensures Windows(Some(store), slices) <= Concat(DecodeAll(store, slices))
    ensures Clean(Some(store), slices) ==> Windows(Some(store), slices) == Concat(DecodeAll(store, slices))
  {
    if slices != [] {
      var all := DecodeAll(store, slices);
      assert all[1..] == DecodeAll(store, slices[1..]);
      assert all[0].Some?;
      if Window(Some(store), slices[0]).Some? {
        WindowsStartPlaintext(store, slices[1..]);
        assert Window(Some(store), slices[0]) == all[0];
      }
    }
  }

  /** A slice whose range stays inside its drop. */
  ghost predicate InsideDrop(store: SlabSource, slice: SliceRef) {
    && store(slice.dropId).Plain?
    && slice.dropByteStart + slice.dropByteLen <= |store(slice.dropId).bytes|
  }

  /**
   * Against a file whose plaintext is `v`: at every moment the reader has delivered a prefix
   * of `v`; reading to the end without error delivers exactly `v`; and a long enough run ends
   * without error exactly when every slice's range stays inside its drop.
   */
  lemma SliceReaderAgrees(store: SlabSource, inode: Inode, v: seq<byte>, sizes: seq<nat>)
    requires inode.content.SliceMap? && Streamed(inode, Some(store)) == Some(v)
    requires NonEmptyBuffers(sizes)
    ensures var run := ReadAll(Some(store), ReaderState(inode.content.slices, [], 0), sizes);
      && run.out <= v
      && (run.ended ==> run.out == v)
      && (|sizes| > |v| ==>
            (run.ended <==> forall s :: s in inode.content.slices ==> InsideDrop(store, s)))
  {
    var slices := inode.content.slices;
    var start := ReaderState(slices, [], 0);
    assert DecodeAll(store, slices) == ItemsOf(inode, Some(store));
    WindowsStartPlaintext(store, slices);
    RunDeliversWindows(Some(store), start, sizes);
    assert Yield(Some(store), start) == Windows(Some(store), slices);
    forall i | 0 <= i < |slices| ensures Window(Some(store), slices[i]).Some? <==> InsideDrop(store, slices[i]) {
      assert DecodeAll(store, slices)[i].Some?;
    }
    if Clean(Some(store), slices) {
      forall s | s in slices ensures InsideDrop(store, s) {
        var i :| 0 <= i < |slices| && slices[i] == s;
      }
    } else {
      var i :| 0 <= i < |slices| && Window(Some(store), slices[i]).None?;
      assert slices[i] in slices;
    }
  }

  function OneByteStore(): SlabSource { _ => Plain([7]) }

  /** A slice that passes the end of its drop: shortened by the other readers, an error here. */
  lemma LongSliceFails(drop: Digest)
    ensures var inode := Inode(1, S_IFREG, SliceMap([SliceRef(0, 2, drop, 0, 2)]));
      && Streamed(inode, Some(OneByteStore())) == Some([7])
      && ReadAll(Some(OneByteStore()), ReaderState(inode.content.slices, [], 0), [8]) == Run([], true, false)
  {
    var store, slices := OneByteStore(), [SliceRef(0, 2, drop, 0, 2)];
    var items := DecodeAll(store, slices);
    var plain: seq<byte> := [7];
    assert plain[0..1] == plain;
    assert items == [Some([7])];
    var none: Items := [];
    assert items[1..] == none && Concat(none) == [];
    assert Concat(items) == plain + Concat(none) && plain + Concat(none) == plain;
    assert ItemsOf(Inode(1, S_IFREG, SliceMap(slices)), Some(store)) == items;
    assert Window(Some(store), slices[0]) == None;
  }
}
