/** `parse_content_handle`: which content an inode of each file type can carry. */
module ContentHandles {
  import opened Bytes
  import opened Metadata
  import opened SliceMaps
  import opened Utf8
  import opened Wire
  import SliceMapWire

  const NO_CEILING: u32 := 0xFFFF_FFFF

  /** `flags & INODE_FLAG_SHARED_INLINE != 0`. */
  predicate SharedFlag(flags: byte) { flags / 8 % 2 == 1 }

  /** `flags & INODE_FLAG_INLINE_DATA != 0`. */
  predicate InlineFlag(flags: byte) { flags / 4 % 2 == 1 }

  /** Bit 3 says shared and bit 2 says inline. */
  lemma FlagBits(high: nat, shared: bool, inline: bool, low: nat)
    requires high < 0x10 && low < 4
    ensures var flags := high * 0x10 + (if shared then 8 else 0) + (if inline then 4 else 0) + low;
      SharedFlag(flags) == shared && InlineFlag(flags) == inline
  {
  }

  ghost function ParseRegular(flags: byte, max: u32, s: seq<byte>): Parse<ContentHandle> {
    if SharedFlag(flags) then
      var (index, rest) :- TakeUint(s, 4);
      Done(SharedInline(index), rest)
    else if InlineFlag(flags) then
      var (data, rest) :- TakeBlob(s, max);
      Done(InlineData(data), rest)
    else
      var (slices, rest) :- SliceMapWire.ParseSlices(s);
      Done(SliceMap(slices), rest)
  }

  ghost function ParseHandle(mode: u32, flags: byte, max: u32, s: seq<byte>): Parse<ContentHandle> {
    var kind := FileType(mode);
    if kind == S_IFREG then ParseRegular(flags, max, s)
    else if kind == S_IFDIR then
      var (hash, rest) :- Take(s, 32);
      Done(Directory(hash), rest)
    else if kind == S_IFLNK then
      var (target, rest) :- TakeBlob(s, NO_CEILING);
      if IsUtf8(target) then Done(Symlink(target), rest) else Fail
    else if kind == S_IFBLK || kind == S_IFCHR then
      var (dev, rest) :- TakeUint(s, 8);
      Widths();
      Done(Device(dev), rest)
    else if kind == S_IFIFO || kind == S_IFSOCK then
      var (id, rest) :- TakeUint(s, 8);
      Widths();
      Done(Pipe(id), rest)
    else Fail
  }

  /** What the parser can have put into an inode, shared inline data resolved on the same inode afterwards. */
  ghost predicate Parsed(inode: Inode) {
    exists flags: byte, max: u32, s: seq<byte> ::
      && ParseHandle(inode.mode, flags, max, s).Done?
      && var handle := ParseHandle(inode.mode, flags, max, s).value;
        inode.content == handle || (handle.SharedInline? && inode.content.InlineData?)
  }

  ghost predicate InodesParsed(blob: Blob) { forall i :: i in blob.inodes ==> Parsed(i) }

  /** In a parsed inode the content fits the file type: files are regular, directories directories, links links. */
  lemma ParsedFitsType(inode: Inode)
    requires Parsed(inode)
    ensures inode.IsFile() || inode.content.SharedInline? <==> inode.IsRegular()
    ensures inode.IsDirectory() <==> FileType(inode.mode) == S_IFDIR
    ensures inode.content.Symlink? <==> FileType(inode.mode) == S_IFLNK
    ensures inode.content.SliceMap? ==> Accepted(inode.content.slices)
  {
    hide TakeUint, TakeBlob, IsUtf8, SliceMapWire.ParseSlices, FileType;
    var flags: byte, max: u32, s: seq<byte> :|
      && ParseHandle(inode.mode, flags, max, s).Done?
      && var handle := ParseHandle(inode.mode, flags, max, s).value;
        inode.content == handle || (handle.SharedInline? && inode.content.InlineData?);
    if inode.content.SliceMap? { SliceMapWire.Canonical(s); }
  }

  // ----- Over a cursor -----

  method ReadRegular(c: ManifestCursor, flags: byte, max: u32) returns (r: Result<ContentHandle, CoreError>)
    requires c.Valid()
    modifies c
    ensures c.Valid() && old(c.pos) <= c.pos
    ensures Follows(ParseRegular(flags, max, old(c.Rest())), r, c.Rest())
  {
    hide TakeUint, TakeBlob, SliceMapWire.ParseSlices;
    if SharedFlag(flags) {
      var index := c.ReadUint(4);
      return if index.Ok? then Ok(SharedInline(index.value)) else Err(index.error);
    } else if InlineFlag(flags) {
      var data := c.ReadBlob(max);
      return if data.Ok? then Ok(InlineData(data.value)) else Err(data.error);
    } else {
      var slices := SliceMapWire.Read(c);
      return if slices.Ok? then Ok(SliceMap(slices.value)) else Err(slices.error);
    }
  }

  /** `parse_content_handle`. */
  method Read(c: ManifestCursor, mode: u32, flags: byte, max: u32) returns (r: Result<ContentHandle, CoreError>)
    requires c.Valid()
    modifies c
    ensures c.Valid() && old(c.pos) <= c.pos
    ensures Follows(ParseHandle(mode, flags, max, old(c.Rest())), r, c.Rest())
  {
    hide TakeUint, TakeBlob, IsUtf8, ParseRegular, FileType;
    var kind := FileType(mode);
    if kind == S_IFREG {
      r := ReadRegular(c, flags, max);
    } else if kind == S_IFDIR {
      var hash := c.ReadN(32);
      return if hash.Ok? then Ok(Directory(hash.value)) else Err(hash.error);
    } else if kind == S_IFLNK {
      var target := c.ReadBlob(NO_CEILING);
      if target.Err? { return Err(target.error); }
      if !IsUtf8(target.value) { return Err(Corrupt); }
      return Ok(Symlink(target.value));
    } else if kind == S_IFBLK || kind == S_IFCHR {
      var dev := c.ReadUint(8);
      Widths();
      return if dev.Ok? then Ok(Device(dev.value)) else Err(dev.error);
    } else if kind == S_IFIFO || kind == S_IFSOCK {
      var id := c.ReadUint(8);
      Widths();
      return if id.Ok? then Ok(Pipe(id.value)) else Err(id.error);
    } else {
      return Err(Corrupt);
    }
  }
}
