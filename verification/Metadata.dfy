/** The metadata blob: inodes, directory nodes and the two lookups every reader uses. */
module Metadata {
  import opened Bytes

  const SLASH: byte := 0x2F
  const BACKSLASH: byte := 0x5C
  const DOT: byte := 0x2E
  const NUL: byte := 0

  const S_IFREG: u32 := 0x8000
  const S_IFDIR: u32 := 0x4000
  const S_IFLNK: u32 := 0xA000
  const S_IFBLK: u32 := 0x6000
  const S_IFCHR: u32 := 0x2000
  const S_IFIFO: u32 := 0x1000
  const S_IFSOCK: u32 := 0xC000

  /** `mode & S_IFMT`. */
  function FileType(mode: u32): u32 { mode / 0x1000 % 0x10 * 0x1000 }

  /** A name is the UTF-8 byte string of one path component. */
  type Name = seq<byte>

  /** A path relative to the walk root, one name per component; the root is `[]`. */
  type Path = seq<Name>

  datatype SliceRef = SliceRef(
    fileByteStart: u64, fileByteEnd: u64, dropId: Digest, dropByteStart: u32, dropByteLen: u32)

  datatype ContentHandle =
    | InlineData(data: seq<byte>)
    | SharedInline(index: nat)
    | SliceMap(slices: seq<SliceRef>)
    | Directory(hash: Digest)
    | Symlink(target: seq<byte>)
    | Device(dev: u64)
    | Pipe(id: u64)

  datatype Inode = Inode(number: u64, mode: u32, content: ContentHandle)
  {
    predicate IsDirectory() { content.Directory? }

    /** The handles `walk_dir` reports through `on_regular_file`. */
    predicate IsFile() { content.InlineData? || content.SliceMap? }

    predicate IsRegular() { FileType(mode) == S_IFREG }
  }

  datatype DirEntry = DirEntry(name: Name, inodeNumber: u64, entryType: byte)

  /** `nodeHash` stands for `dir_node_hash`: BLAKE3 over the encoding of the entries. */
  datatype Blob = Blob(inodes: seq<Inode>, dirNodes: seq<seq<DirEntry>>, nodeHash: seq<DirEntry> -> Digest)

  function FindInode(inodes: seq<Inode>, number: u64): (r: Option<Inode>)
    ensures r.Some? ==> r.value in inodes && r.value.number == number
    ensures r.None? ==> forall i :: i in inodes ==> i.number != number
  {
    if inodes == [] then None
    else if inodes[0].number == number then Some(inodes[0])
    else FindInode(inodes[1..], number)
  }

  function FindNode(nodes: seq<seq<DirEntry>>, nodeHash: seq<DirEntry> -> Digest, hash: Digest)
    : (r: Option<seq<DirEntry>>)
    ensures r.Some? ==> r.value in nodes && nodeHash(r.value) == hash
    ensures r.None? ==> forall n :: n in nodes ==> nodeHash(n) != hash
  {
    if nodes == [] then None
    else if nodeHash(nodes[0]) == hash then Some(nodes[0])
    else FindNode(nodes[1..], nodeHash, hash)
  }

  /** Of several inodes with the number the first is found. */
  lemma {:induction false} FindInodeFirst(inodes: seq<Inode>, number: u64, i: nat)
    requires i < |inodes| && inodes[i].number == number && forall j :: 0 <= j < i ==> inodes[j].number != number
    ensures FindInode(inodes, number) == Some(inodes[i])
    decreases i
  {
    if i > 0 { FindInodeFirst(inodes[1..], number, i - 1); }
  }

  /** Of several nodes with the hash the first is found. */
  lemma {:induction false} FindNodeFirst(
    nodes: seq<seq<DirEntry>>, nodeHash: seq<DirEntry> -> Digest, hash: Digest, i: nat)
    requires i < |nodes| && nodeHash(nodes[i]) == hash && forall j :: 0 <= j < i ==> nodeHash(nodes[j]) != hash
    ensures FindNode(nodes, nodeHash, hash) == Some(nodes[i])
    decreases i
  {
    if i > 0 { FindNodeFirst(nodes[1..], nodeHash, hash, i - 1); }
  }

  /** `MetadataBlob::inode_by_number`: the first inode carrying the number. */
  function InodeByNumber(blob: Blob, number: u64): Option<Inode> {
    FindInode(blob.inodes, number)
  }

  /** `MetadataBlob::dir_node_by_hash`: the entries of the first node with the hash. */
  function NodeByHash(blob: Blob, hash: Digest): Option<seq<DirEntry>> {
    FindNode(blob.dirNodes, blob.nodeHash, hash)
  }

  /** `inode` is the one its number resolves to, as every inode handled by a walk is. */
  ghost predicate Canonical(blob: Blob, inode: Inode) {
    InodeByNumber(blob, inode.number) == Some(inode)
  }

  /** What the directory-node parser guarantees about names inside one node. */
  ghost predicate UniqueNames(entries: seq<DirEntry>) {
    forall i, j :: 0 <= i < j < |entries| ==> entries[i].name != entries[j].name
  }

  ghost predicate BlobHasUniqueNames(blob: Blob) {
    forall n :: n in blob.dirNodes ==> UniqueNames(n)
  }

  // ----- Bits and characters -----

  /** The file type is the four bits above the lowest twelve. */
  lemma FileTypeIs(high: nat, kind: nat, low: nat)
    requires kind < 0x10 && low < 0x1000 && high * 0x1_0000 + kind * 0x1000 + low < 0x1_0000_0000
    ensures FileType(high * 0x1_0000 + kind * 0x1000 + low) == kind * 0x1000
  {
    var mode := high * 0x1_0000 + kind * 0x1000 + low;
    assert mode / 0x1000 == high * 0x10 + kind;
  }

  lemma CharacterCodes()
    ensures [SLASH, BACKSLASH, DOT] == Ascii("/\\.") && NUL == 0
  {
  }
}
