# LimniFS model

A Dafny model of the core of LimniFS, an image format for content-addressed, read-only file trees, with proofs
about it. `dafny verify dfyconfig.toml` checks the whole project.

The model has seven parts.

- **The live tree** (`Metadata`, `TreePaths`, `Walk`, `WalkProperties`, `ReportedPaths`, `ResolvePath`, `PathQueue`,
  `PathIndex`). The recursive walk over a possibly cyclic graph of inodes and directory nodes, the independent path
  lookup, and the path index with its breadth-first queue. The walker is a class whose fields change in place; it is
  proved against a function from blobs to events, and reachability is defined without reference to it. Events list the
  names followed; `Reports` holds the paths handed to the sink, which on Windows can lose names in front of a drive.
- **Collection and extraction** (`Sinks`, `DropCollection`, `ExtractionPlan`, `Destinations`, `Extraction`,
  `ExtractionRuns`, `HardLinks`). The three sinks as classes, drop collection, and sequential against two-phase parallel extraction
  over a file system that tells hard links from copies: what one write or link does, when each extraction leaves the
  right bytes at every path, when the two agree, when hard links are restored, and the programs that run them.
- **The manifest** (`Wire`, `Utf8`, `Header`, `FeatureFlags`, `Locators`, `MetadataReference`, `SlabIds`, `SlabIndex`,
  `EcParams`, `DmsPolicy`, `History`, `SectionRules`, `Merkle`, `Manifest`, `ManifestReader`, `ManifestBuilder`). Every section has a
  parsing function, an encoding function, a method that moves a cursor and follows the parsing function exactly, and
  proofs that parser and encoder are inverse in both directions whatever bytes follow, and that the fields stand at
  the positions the format gives them. The sections compose into the
  manifest, its reader, its builder and its root.
- **Files** (`SliceMaps`, `SliceMapWire`, `ContentHandles`, `FileReaders`, `FileContents`, `DirectoryNode`). Slice maps that tile a file,
  the content an inode of each type can carry, four ways to read a file, and the directory nodes the walk depends on.
- **Algebra** (`Gf2`, `Gf256`, `Polynomials`, `Matrices`, `Shamir`, `ReedSolomon`, `ParameterChecks`). GF(2^8) as polynomials modulo 0x11B,
  and on top of it secret sharing and erasure coding.
- **Archives** (`Bits`, `Varint`, `Car`). LEB128, multihash, CID and CARv1 framing.
- **Two loops** (`Pax`, `Base32`). The self-counting PAX record and the bit-buffer base32 codecs.

BLAKE3 is a parameter: any function from byte strings to 32 bytes. No such function is injective, so statements
that rest on collision resistance do not assume injectivity; they say "or these two particular inputs collide", naming
the inputs that were actually hashed. Compression codecs, the slab store, the entropy source and the outcome of hard
links are parameters as well.

Integer widths are explicit: 64-bit shifts drop their high bits, checked additions fail at the address-space bound,
and lengths that must fit 32 bits do so by precondition only where the program panics otherwise.

## Where the code and its description differ

The model follows the code.

- A slab index with no entries is accepted (`limnifs-core/src/slab_index.rs:75-140`), though its documentation calls that corrupt.
- `limnifs-conformance/src/builder.rs:95-97` calls the declared erasure-coding polynomial 0x011D the AES polynomial; the
  field arithmetic uses 0x11B. The two are not related here.
- On Windows the tree-name check refuses a backslash and not a drive (`limnifs-core/src/live_tree.rs:109-132`), while
  sidecar names may hold no colon (`limnifs-core/src/locator.rs:203-205`). Joining a name such as `C:x` drops the directory
  and the destination in front of it, so the file leaves the extraction root and two of them can collide
  (`ReportedPaths.DriveNamesCollide`). Results about paths handed over ask for no such name, or say what it does.
- `build_path_index` claims a cost linear in the inodes (`limnifs-core/src/metadata.rs:91-104`); on a cycle below the root
  it does not return, while the walk does (`PathIndex.LoopNeverIndexed`).
- A manifest longer than the read budget is said to fall back to header-only reporting (`limni/src/main.rs:55-59`); it
  is refused (`ManifestReader.LargeManifestRefused`).
- `split` is documented to panic when the entropy source fails (`limnifs-core/src/shamir.rs:50-55`); it returns the error.
- A root inode that is itself a slice-backed file is never reported by the walk, so its drops are not collected.
- Reading an empty slice map without a store is an error for the whole-file reader and an empty file for the iterator.
- On a corrupt tree sequential extraction leaves the files reported before the failure, while parallel extraction
  returns before any file is written (`limni/src/main.rs:3015-3016`; `ExtractionRuns.CorruptTreeParts`).
- Parallel extraction over an earlier extraction: the hard link fails because the name is there, and the copy that is
  to make "content always land" (`limni/src/main.rs:3044-3050`) copies the object onto itself, which `std::fs::copy`
  truncates. Hard-linked files end up empty (`ExtractionRuns.ReextractionEmpties`); sequential extraction rewrites them.
- The guard of `extract_file` (`limni/src/main.rs:3081`) would skip an empty file under a mode that is not regular. No
  parsed image reaches it, because file contents are only parsed under a regular mode
  (`limnifs-core/src/inode.rs:273-332`, shared inline data resolved on the same inodes in
  `limnifs-core/src/metadata.rs:266-275`; `ExtractionRuns.ParsedNoneSkipped`).
- Only the first task's error is looked at (`limni/src/main.rs:3034`), so extraction can succeed with files cut short
  (`ExtractionRuns.LaterFailureIgnored`).
- The tar reader refuses a slice that passes the end of its drop; the other readers shorten it.
- The CAR header announces the length of its root CID in five bits, so 36 becomes 4 and the header is not the CBOR it is
  described as, unless there are no blocks (`limnifs-core/src/ipfs_locator.rs:347-366`; `Car.HeaderLayout`).
- A policy section may name a threshold of one, which `split` refuses (`ParameterChecks.ThresholdsIff`).
- The CID decoder's fixed width is wrong for over-long multihash varints, and `decode_b3` ignores four trailing bits.

## Model

| member | source | states |
|---|---|---|
| Metadata.FindInode | limnifs-core/src/metadata.rs:50-52 | the inode found carries the number asked for; none is found only if no inode carries it |
| Metadata.FindNode | limnifs-core/src/metadata.rs:57-62 | the node found has the hash asked for; none is found only if no node has it |
| Metadata.FindInodeFirst | limnifs-core/src/metadata.rs:50-52 | of several inodes with the number the first is found |
| Metadata.FindNodeFirst | limnifs-core/src/metadata.rs:57-62 | of several nodes with the hash the first is found |
| Metadata.FileTypeIs | limnifs-core/src/inode.rs:272-273 | the file type is the four mode bits above the lowest twelve |
| Walk.LiveTreeWalker.Dir | limnifs-core/src/live_tree.rs:134-158 | one directory, visited list and sink updated in place: exactly the specified events reach the sink in order, each under the path that joining the names followed gives on the platform; it fails iff the sink refuses one or the tree is corrupt, and it terminates on cycles with the unvisited inodes as measure |
| Walk.LiveTreeWalker.Entries | limnifs-core/src/live_tree.rs:159-193 | the entry loop with its join, on Windows a drive dropping the directory in front, against the same specification |
| Walk.LiveTreeWalker.Child | limnifs-core/src/live_tree.rs:179-192 | the dispatch on the content handle, against the same specification |
| Walk.LiveTreeWalker.Tree | limnifs-core/src/live_tree.rs:84-96 | a whole walk from an empty visited list, against the same specification |
| Walk.FeedConcat | limnifs-core/src/live_tree.rs:149-193 | running a sink over two stretches of events is running it over their concatenation, stopping at the first refusal |
| WalkProperties.WalkSucceedsIff | limnifs-core/src/live_tree.rs:84-195 | for every blob, cyclic or not: the walk succeeds iff the root exists and every directory reachable from it has its node, only admissible names and only existing children |
| WalkProperties.ReportedIffReachable | limnifs-core/src/live_tree.rs:134-195 | after a success an inode below a directory root is reported iff it is reachable, reachability being defined by paths and not by the walk |
| WalkProperties.DirSound | limnifs-core/src/live_tree.rs:134-195 | whatever one directory's walk reports is reachable, and a failure means some reachable directory is unsound |
| WalkProperties.DirVisits | limnifs-core/src/live_tree.rs:145-149 | the visited list grows by exactly the numbers of the directories reported, in order |
| WalkProperties.DirectoriesReportedOnce | limnifs-core/src/live_tree.rs:145-149 | no two reported directories of one walk have the same inode number |
| WalkProperties.PreOrder | limnifs-core/src/live_tree.rs:141-193 | the first event is the root with the empty path; every other event comes after its parent directory, which has an entry with its last name leading to it, and its path is handed over as the parent's path joined with that name |
| TreePaths.JoinedIs | limnifs-core/src/live_tree.rs:169-173 | joining names one by one keeps the base and all names, or on Windows, if one of them starts with a drive, only the names from the last drive on, a bare drive and the next name being one component |
| TreePaths.DrivePrefixedIff | limnifs-core/src/live_tree.rs:169-173 | a drive is a letter of either case followed by a colon |
| TreePaths.BareDriveJoins | limnifs-core/src/live_tree.rs:169-173 | a name below a directory that is just a drive follows it without a separator, on Windows only |
| TreePaths.SpelledAsNamedIff | limnifs-core/src/live_tree.rs:169-173 | the path handed over is just the names followed iff, on Windows, no drive stands behind a name and no bare drive before one |
| TreePaths.SpelledAlikeIff | limnifs-core/src/live_tree.rs:169-173 | two lists of names are handed over alike iff they are the same, or both pass a drive and are the same from there on |
| TreePaths.PlacedInsideIff | limnifs-core/src/live_tree.rs:474-500 | a sink puts what it is handed below its destination under the names followed iff none of them is a drive on Windows; otherwise the destination plays no part |
| ReportedPaths.ReportedStaysInside | limnifs-core/src/live_tree.rs:98-132 | whatever names the image holds, successful or not: the names followed never go up and hold no separator of the platform, and what is reported stays below the destination under those names iff not on Windows or none of them starts with a drive |
| ReportedPaths.ValidTreeNameIff | limnifs-core/src/live_tree.rs:109-132 | a tree name is accepted iff it has no NUL and no separator of the platform and leads lexically one component down: the empty name and the two dot names are refused, other names with dots are not |
| ReportedPaths.DrivelessReports | limnifs-core/src/live_tree.rs:109-132 | no path passes a drive if no reachable directory has an entry that starts with one |
| ReportedPaths.ReportsAsNamed | limnifs-core/src/live_tree.rs:169-173 | and then what is handed over is exactly the names followed |
| ReportedPaths.ReportsDistinctIff | limnifs-core/src/live_tree.rs:169-173 | if no directory node repeats a name, the paths handed over are pairwise distinct iff no two of them meet at a drive |
| ReportedPaths.DriveNamesCollide | limnifs-core/src/live_tree.rs:109-132 | a root with a file `C:x` and a directory with another: on Windows both are handed over as `C:x` and neither is put below the destination |
| DirectoryNode.DriveNodesParse | limnifs-core/src/directory_node.rs:66-114 | the nodes of that tree are ones the parser accepts |
| WalkProperties.PathsDistinct | limnifs-core/src/live_tree.rs:159-173 | if no directory node repeats a name, no list of names is followed twice across the whole tree |
| DirectoryNode.ParsedPathsDistinct | limnifs-core/src/directory_node.rs:66-114 | over directory nodes that came out of the parser that hypothesis holds, so no list of names is followed twice, and the paths handed over are distinct iff no two meet at a drive |
| Walk.Callbacks | limnifs-core/src/live_tree.rs:84-96 | the walk with a recording sink: exactly the specified events, in order, and whether it succeeds |
| Sinks.DropIdCollectorSink.OnRegularFile | limnifs-core/src/live_tree.rs:567-574 | the in-place set after one file is the specified one |
| Sinks.DropIdCollectorSink.Consume | limnifs-core/src/live_tree.rs:562-574 | the set after any sequence of callbacks is the specified one |
| Sinks.FilesystemSink.OnRegularFile | limnifs-core/src/live_tree.rs:498-525 | one file of sequential extraction: first sight of an inode writes it, later sights link to the first path and write when linking fails; a chunk that fails leaves the ones before it |
| Sinks.FilesystemSink.Consume | limnifs-core/src/live_tree.rs:482-546 | any sequence of callbacks, stopping at the first failure with the state reached |
| Sinks.ParallelExtractSink.OnRegularFile | limnifs-core/src/live_tree.rs:659-673 | phase one of parallel extraction: first sight becomes a task, later sights become links |
| Sinks.ParallelExtractSink.Consume | limnifs-core/src/live_tree.rs:643-690 | any sequence of callbacks, none of which fails |
| Sinks.FilesystemSink.OnDirectory | limnifs-core/src/live_tree.rs:482-496 | a directory is recorded in order and files are not touched |
| Sinks.FilesystemSink.OnSymlink | limnifs-core/src/live_tree.rs:527-546 | a symbolic link is recorded in order with its target and files are not touched |
| Sinks.ParallelExtractSink.OnDirectory | limnifs-core/src/live_tree.rs:643-657 | the same for the parallel sink, whose tasks and links stay as they are |
| Sinks.ParallelExtractSink.OnSymlink | limnifs-core/src/live_tree.rs:675-690 | the same for the parallel sink |
| Sinks.FinishExtraction | limni/src/main.rs:3029-3050 | phases two and three: the tasks in any given completion order, partial content included, then the links with copy as fallback; it fails before the links iff the first task of the list fails |
| DropCollection.CollectLiveDrops | limnifs-core/src/live_tree.rs:562-574 | the walk with the collecting sink: it succeeds iff the tree is sound, and a drop is in the set iff some slice of some file reachable from a directory root is cut from it |
| DropCollection.CollectorIsExact | limnifs-core/src/live_tree.rs:562-574 | membership in the collected set iff the root is a directory and some slice of a reachable file is cut from the drop |
| DropCollection.UsesIff | limnifs-core/src/live_tree.rs:567-574 | a file contributes the drops of all its slices and nothing else |
| DropCollection.CollectorMissesRootFile | limnifs-core/src/live_tree.rs:141-144 | every reachable drop is kept iff the root is not itself a slice-backed file with slices; such a root is never reported |
| DropCollection.RootFileNotCollected | limnifs-core/src/live_tree.rs:141-144 | such a root: the walk succeeds, reports nothing, and the drop is not collected |
| ContentHandles.Read | limnifs-core/src/inode.rs:266-370 | the content handle by file type and flags, accepted exactly as the parsing function says |
| ContentHandles.ReadRegular | limnifs-core/src/inode.rs:274-332 | the three handles of a regular file, shared inline before inline before slices |
| ContentHandles.ParsedFitsType | limnifs-core/src/inode.rs:273-370 | in an inode that was parsed, shared inline data resolved or not, a file has a regular mode, a directory a directory mode and a symbolic link a link mode, each iff; and slice maps tile |
| ExtractionPlan.PhaseOnePartitions | limnifs-core/src/live_tree.rs:659-673 | each reported file lands in exactly one of tasks and links, task inodes and paths are distinct, and every link target is a task path of the same inode |
| Destinations.CreateSettles | limnifs-core/src/live_tree.rs:498-525 | over a destination whose names may share objects: writing a path its bytes settles it and disturbs nothing settled, if names that share an object want the same |
| Destinations.LinkSettles | limnifs-core/src/live_tree.rs:504-510 | so does binding a new name to a settled path that wants the same |
| Destinations.EndsWellMeansUniform | limnifs-core/src/live_tree.rs:498-525 | the converse: if no bound name is bound anew and every path ends up right, names that shared an object wanted the same |
| Destinations.TasksSettle | limni/src/main.rs:3029-3033 | running tasks in any order settles every path the writing guard admits |
| Destinations.TasksBind | limni/src/main.rs:3029-3033 | tasks keep every name and bind exactly the other written paths, no two to one object; contents play no part |
| Destinations.TasksShare | limni/src/main.rs:3029-3033 | what running the tasks does to the names is what that computation on names says |
| Destinations.SkippedReads | limni/src/main.rs:3081 | a path whose task the writing guard skips has its bytes afterwards iff it had them before or shares its object with a path that is written |
| Destinations.LinkTracks | limni/src/main.rs:3046-3050 | one link, hard or copied: the objects that are wrong afterwards are computed from names and sharing alone, a copy of an object onto itself emptying it |
| Destinations.LinksEndWellIff | limni/src/main.rs:3046-3050 | after all links every path is right iff that computation leaves no object wrong |
| Destinations.LinksAlike | limni/src/main.rs:3046-3050 | what it leaves wrong depends only on which names share objects, so not on the order of the tasks |
| Extraction.EndsWellIff | limni/src/main.rs:3010-3050 | every path has what it should iff each reported file's bytes are at its path and every other path is as before |
| Extraction.SequentialEndsWellIff | limnifs-core/src/live_tree.rs:498-525 | sequential extraction of distinct, readable files leaves every file's bytes at its path and everything else alone iff names that share an object in the destination want the same bytes, and then it succeeds; for any outcome of the links |
| Extraction.ParallelEndsWellIff | limni/src/main.rs:3029-3050 | parallel extraction does so, in any task order, iff names that share an object want the same bytes and the plan is sound: skipped paths are there already and, computed from which names share objects, copying leaves nothing wrong |
| Extraction.PlanIsSound | limni/src/main.rs:3029-3050 | the plan is sound under any link policy if no file is skipped and no link's path is already a name of its target's object, empty files aside |
| Extraction.SoundMeansNoLinkedPairs | limni/src/main.rs:3046-3050 | conversely a sound plan has no such pair, unless later sights of different inodes share an object |
| ExtractionRuns.ParallelRefinesSequential | limni/src/main.rs:3010-3050 | over a destination where names that share an object agree, for walks that pass no drive: both extractions leave the same bytes at every path, after a successful walk iff the plan is sound, after a failed walk iff the destination already held every file reported before the failure; in any task order, with any outcome of the links on either side; both succeed iff the walk does, and directories and symbolic links are recorded alike |
| ExtractionRuns.SequentialRecords | limnifs-core/src/live_tree.rs:482-546 | a successful sequential run creates the directories reported and the symbolic links reported with their targets, each in order |
| ExtractionRuns.ParallelRecords | limnifs-core/src/live_tree.rs:643-690 | so does phase one of parallel extraction |
| HardLinks.SequentialKeepsLinks | limnifs-core/src/live_tree.rs:504-513 | after sequential extraction a later sight of an inode names the same file as the first, if its path was free and the link is permitted |
| HardLinks.ParallelKeepsLinks | limni/src/main.rs:3046-3050 | after parallel extraction every link names the same file as its target, if its path was free, the link is permitted and no file is skipped |
| ExtractionRuns.ParsedNoneSkipped | limnifs-core/src/inode.rs:273-332 | the writing guard skips no file of a parsed image |
| ExtractionRuns.ParsedExtractionsAgree | limni/src/main.rs:3010-3050 | for parsed images whose walk succeeds and passes no drive: both extractions leave the same, right bytes at every path if names that share an object agree and no link's path is already linked to its target, and only if unless later sights of different inodes share an object |
| ExtractionRuns.FreshDestination | limni/src/main.rs:3005-3050 | a destination without any of the reported files meets both conditions |
| ExtractionRuns.ExtractSequentially | limnifs-write/src/rw.rs:452-459 | the walk driving the sequential sink: what a failed walk or file leaves behind, and the exact condition for every path to be right |
| ExtractionRuns.AnyOrder | limni/src/main.rs:3029-3033 | some order of all the tasks, each as often as listed |
| ExtractionRuns.ReadableTasks | limni/src/main.rs:3029-3036 | if every file can be read no task fails, and if none is skipped the converse |
| ExtractionRuns.SuccessIsCompleteIff | limni/src/main.rs:3034-3036 | a success means that every file was read and is there and nothing else changed iff no task after the first failed, names that share an object agree and the plan is sound |
| ExtractionRuns.ExtractInParallel | limni/src/main.rs:3014-3050 | the walk driving the parallel sink, then tasks and links: it succeeds iff the walk does and the first task of the list, if any, does not fail; no file is touched when the walk fails; and when a success is complete, as above |
| ExtractionRuns.LaterFailureIgnored | limni/src/main.rs:3034-3036 | a readable file followed by one that cannot be read: extraction succeeds and leaves the second one empty |
| ExtractionRuns.CorruptTreeParts | limni/src/main.rs:3015-3016 | a tree with a file and a dangling entry: the file is there after sequential extraction and not after parallel extraction |
| ExtractionRuns.SharedDestinationBreaks | limnifs-core/src/live_tree.rs:498-525 | a root with two files, over two pre-existing hard links to one object, the second file's bytes end up at both paths |
| ExtractionRuns.ReextractionEmpties | limni/src/main.rs:3046-3050 | a root with one inode under two names, over an earlier extraction: sequential extraction restores the file and parallel extraction empties it |
| ExtractionRuns.SkippedFileDiffers | limni/src/main.rs:3081 | an empty file under a mode that is not regular, which no parser yields, is created by sequential extraction only |
| ResolvePath.ResolvePath | limni/src/main.rs:3943-3966 | the component loop returns what component-wise resolution of the trimmed, split string gives, including every refusal |
| ResolvePath.SplitJoin | limni/src/main.rs:3953 | splitting a joined path gives its components back |
| ResolvePath.TrimIs | limni/src/main.rs:3948 | trimming takes off all slashes at both ends and nothing else |
| ResolvePath.SlashesResolve | limni/src/main.rs:3943-3966 | a path resolves by its components, whatever slashes stand before and after it |
| ResolvePath.ResolveIffLeads | limni/src/main.rs:3943-3966 | over nodes without repeated names, a path resolves to an inode iff following its names leads there and no component is empty or holds NUL |
| ResolvePath.ReportedResolves | limni/src/main.rs:3943-3966 | the names followed to an inode a walk reports, joined, resolve to it; so does the path handed over unless it passes a drive on Windows |
| ResolvePath.WalkReportsAllIffTree | limnifs-core/src/live_tree.rs:134-195 | after a success, everything that names lead to is reported under those names iff the root is a directory without incoming entry and every reachable directory has one incoming entry; and then all of it is handed over |
| ResolvePath.ResolvedIsReported | limni/src/main.rs:3943-3966 | in such a tree every string that resolves is, once trimmed, the joined names of a reported event with that inode, and its handed-over path unless that passes a drive on Windows |
| ResolvePath.NoDrivesIff | limnifs-core/src/live_tree.rs:134-195 | in such a tree no path passes a drive on Windows iff no reachable directory has an entry that starts with one |
| PathIndex.RootInodeNumber | limnifs-core/src/metadata.rs:71-90 | a root is found iff exactly one inode of directory mode has no incoming entry, and it is that one |
| PathQueue.TurnsOver | limnifs-core/src/metadata.rs:116-139 | as many turns of the queue loop as there are items in front put everything below them, in order, at its end and into the index |
| PathQueue.LevelIff | limnifs-core/src/metadata.rs:116-139 | after the turns for k levels the queue holds exactly the inode numbers that paths of k names lead to |
| PathQueue.PathsBounded | limnifs-core/src/metadata.rs:116-139 | without cycles no path is longer than there are inode numbers |
| PathQueue.ReturnsIffNoCycle | limnifs-core/src/metadata.rs:105-141 | the loop, which keeps no visited set, ends iff no reachable directory can be reached from itself |
| PathIndex.IndexIsExact | limnifs-core/src/metadata.rs:105-141 | over parsed nodes the finished index maps a text to a number iff it spells a path that leads to that number |
| PathIndex.IndexAgreesWithResolve | limnifs-write/src/rw.rs:806-813 | for every string: the normalised string is in the finished index with the number of an inode iff lookup by components resolves the string to that inode |
| PathIndex.SlashesNormalize | limnifs-write/src/rw.rs:806-813 | the key of a path, whatever slashes stand around it, is one slash and its joined components |
| PathIndex.BuildPathIndex | limnifs-core/src/metadata.rs:105-141 | the index loop, on blobs where it returns at all: empty without a root, else the state after the last turn, which agrees with lookup by components on every string |
| PathIndex.LoopNeverIndexed | limnifs-core/src/metadata.rs:116-139 | a directory that holds itself below the root: the walk succeeds and the index loop never ends |
| DirectoryNode.Read | limnifs-core/src/directory_node.rs:54-115 | the cursor loop accepts exactly what the parsing function accepts, stops where it stops, and what it accepts repeats no name |
| DirectoryNode.ReadEntry | limnifs-core/src/directory_node.rs:67-113 | one entry, its name compared with the previous one before the rest is read: follows the entry parser, or reports a name out of order |
| DirectoryNode.RoundTrip | limnifs-core/src/metadata.rs:156-168 | a node with strictly ascending, admissible names encodes to bytes that parse back to it, whatever follows |
| DirectoryNode.Canonical | limnifs-core/src/directory_node.rs:54-115 | whatever is accepted is a valid node, and re-encoding it gives exactly the bytes consumed |
| DirectoryNode.Layout | limnifs-core/src/metadata.rs:156-168 | version, count, entries, by position |
| DirectoryNode.EntryLayout | limnifs-core/src/metadata.rs:156-168 | an entry by position: name length, name, inode number, type |
| DirectoryNode.LessIff | limnifs-core/src/directory_node.rs:90-96 | the order of names: the smaller byte at the first difference, or a proper prefix |
| DirectoryNode.ValidNameIff | limnifs-core/src/directory_node.rs:70-90 | a UTF-8 name parses iff the walk takes it on Unix or it is one of the two dot names |
| DirectoryNode.AcceptedHasUniqueNames | limnifs-core/src/directory_node.rs:66-96 | accepted entries have pairwise different, non-empty names without a slash |
| DirectoryNode.HashNamesNode | limnifs-core/src/metadata.rs:156-170 | two valid nodes with the same node hash are equal, or their encodings are an explicit hash collision |
| SliceMaps.ValidateSliceMap | limnifs-core/src/inode.rs:250-264 | accepts iff each slice starts where the previous one ended, the first at byte 0 |
| SliceMaps.AcceptedMapTiles | limnifs-core/src/inode.rs:124-133 | an accepted map tiles its file: an offset lies in some slice iff it is below the file length, then in exactly one, and the file length is the sum of the slice lengths |
| SliceMapWire.Read | limnifs-core/src/inode.rs:306-331 | the slice branch of the inode parser: accepts exactly what the parsing function accepts, and only maps that tile |
| SliceMapWire.ReadSlice | limnifs-core/src/inode.rs:306-329 | one slice, its range checked between the reads, follows the slice parser |
| SliceMapWire.RoundTrip | limnifs-core/src/inode.rs:306-331 | every map that tiles, encoded field by field, parses back to itself, whatever follows |
| SliceMapWire.Canonical | limnifs-core/src/inode.rs:306-331 | whatever is accepted tiles, and re-encoding gives exactly the bytes consumed |
| SliceMapWire.Layout | limnifs-core/src/inode.rs:300-331 | the count, then 56 bytes per slice in order |
| SliceMapWire.SliceLayout | limnifs-core/src/inode.rs:306-329 | a slice by position: file start and end, drop id, drop start and length |
| ContentHandles.FlagBits | limnifs-core/src/inode.rs:20-25 | bit 3 of the flags says shared and bit 2 says inline |
| FileContents.InlineContents | limnifs-core/src/inode.rs:124-133 | inline data is the plaintext, and its length is the file length |
| FileContents.PlaintextByOffset | limnifs-core/src/live_tree.rs:347-384 | a file whose slices tile it and are all there is as long as its file length, and at each offset stands the byte of the covering slice's drop at the corresponding place |
| FileContents.WritesIff | limni/src/main.rs:3081 | the guard of extraction lets a file through iff it is regular or holds something |
| FileReaders.DecodeSlice | limnifs-core/src/live_tree.rs:222-249 | good iff the drop is there, decodes and reaches the start of the range; then exactly the bytes of the range, cut only by the end of the drop |
| FileReaders.FileChunks.Next | limnifs-core/src/live_tree.rs:307-338 | each call hands out the next item of the specified item list and keeps the rest, then ends for good |
| FileReaders.StreamFile | limnifs-core/src/live_tree.rs:304-345 | draining the iterator until a chunk fails: complete iff every item is good, then their concatenation, else what came before the bad one |
| FileReaders.FilePlaintext | limnifs-core/src/live_tree.rs:347-384 | the whole-file reader, sequential or batched by slice count, returns the concatenation of the decoded slices iff all decode |
| FileReaders.PlaintextSequential | limnifs-core/src/live_tree.rs:377-380 | the sequential path gives the concatenation of the decoded slices iff all decode |
| FileReaders.PlaintextBatched | limnifs-core/src/live_tree.rs:366-383 | the 64-slice batched path gives the same result as plain concatenation |
| FileReaders.PlaintextAgreesIff | limnifs-core/src/live_tree.rs:347-384 | whole-file reading and chunk iteration agree iff the file is not an empty slice map read without a store |
| FileReaders.EmptyMapDiffers | limnifs-core/src/live_tree.rs:347-384 | such a file: refused as a whole, empty chunk by chunk |
| FileReaders.SliceReader.Read | limni/src/main.rs:1902-1938 | one read call on the buffered reader, its state updated in place, does what the step function says |
| FileReaders.ReadOnceConserves | limni/src/main.rs:1902-1938 | one read delivers the front of what is left to deliver and keeps the rest; it reports end only when nothing is left, and fails only at a slice whose window is not there |
| FileReaders.RunDeliversWindows | limni/src/main.rs:1898-1939 | any run over nonempty buffers delivers a prefix; it ends or fails exactly when the full deliverable content is out, at the latest one call after as many calls as it has bytes |
| FileReaders.SliceReaderAgrees | limni/src/main.rs:1898-1939 | against a file with plaintext v: every state has delivered a prefix of v, a run that reaches the end delivered v, and a long enough run reaches the end iff every slice stays inside its drop |
| FileReaders.LongSliceFails | limni/src/main.rs:1902-1938 | a slice past the end of its drop: shortened by the other readers, an error in this one |
| Wire.ManifestCursor.ReadN | limnifs-core/src/cursor.rs:141-157 | all or nothing: n bytes and the position advanced by n, or the position unchanged and the exact shortfall |
| Wire.ManifestCursor.ReadUint | limnifs-core/src/cursor.rs:83-120 | the little-endian integer of the given width, bounded by that width |
| Wire.ManifestCursor.ReadBlob | limnifs-core/src/dms_policy.rs:220-239 | a length, its ceiling, and that many bytes, accepted exactly as the parsing function says |
| Wire.LEInverse | limnifs-conformance/src/builder.rs:228-235 | reading a little-endian integer back gives the number written |
| Wire.FromLEInverse | limnifs-core/src/cursor.rs:93-120 | writing the number read gives the bytes read |
| Wire.LEAt | limnifs-core/src/cursor.rs:83-120 | where an encoded integer of 1, 2, 4 or 8 bytes stands, the bytes are its digits, the lowest first |
| Wire.ManyAt | limnifs-conformance/src/builder.rs:242-245 | the items of a counted list stand one after the other in order |
| Utf8.Utf8Iff | limnifs-core/src/directory_node.rs:88 | byte strings accepted as UTF-8 are exactly the encodings of texts of Unicode scalar values |
| Wire.ManyReads | limnifs-conformance/src/builder.rs:242-245 | a counted list of self-delimiting items parses back from its concatenated encodings |
| Wire.ManyAccepts | limnifs-core/src/feature_flags.rs:114-144 | a counted list that is accepted is the concatenation of the encodings of valid items |
| Header.ToBytes | limnifs-core/src/header.rs:57-65 | the array filled in place holds the encoding |
| Header.Read | limnifs-core/src/header.rs:82-103 | the cursor parser accepts exactly what the parsing function accepts and names the bad magic |
| Header.RoundTrip | limnifs-core/src/header.rs:57-103 | parsing an encoded header, whatever follows, gives it back and stops after 16 bytes |
| Header.Canonical | limnifs-core/src/header.rs:82-103 | accepted bytes are the encoding of the header returned |
| Header.Layout | limnifs-core/src/header.rs:57-65 | the sixteen bytes by position: LMFS, three versions, six zeros |
| FeatureFlags.Read | limnifs-core/src/feature_flags.rs:84-145 | the cursor loop with its duplicate scan and allocation guard accepts exactly what the parsing function accepts |
| FeatureFlags.RoundTrip | limnifs-conformance/src/builder.rs:237-245 | valid flag lists parse back, whatever follows |
| FeatureFlags.Canonical | limnifs-core/src/feature_flags.rs:84-145 | accepted bytes are the encoding of a valid flag list, the one returned |
| FeatureFlags.Layout | limnifs-conformance/src/builder.rs:237-245 | version, count, then id and required byte of each flag, by position |
| FeatureFlags.Get | limnifs-core/src/feature_flags.rs:56-61 | the flag found has the id; none is found only if no flag has it |
| FeatureFlags.DeclaredIff | limni/src/main.rs:657-669 | an optional section is declared iff the list has its flag, required or not |
| FeatureFlags.TooFewBytes | limnifs-core/src/feature_flags.rs:99-113 | the allocation guard refuses nothing the entries themselves would not |
| EcParams.Read | limnifs-core/src/ec_params.rs:66-139 | the cursor loop accepts exactly what the parsing function accepts |
| EcParams.RoundTrip | limnifs-conformance/src/builder.rs:298-315 | valid parameters parse back, whatever follows |
| EcParams.Canonical | limnifs-core/src/ec_params.rs:66-139 | accepted bytes are the encoding of valid parameters, those returned |
| EcParams.Layout | limnifs-conformance/src/builder.rs:298-315 | version, k, m, polynomial, count, overrides, by position |
| EcParams.OverrideLayout | limnifs-conformance/src/builder.rs:307-313 | override i by position: slab id, k, m |
| SlabIds.Layout | limnifs-format/src/lib.rs:159-164 | the ordinal in eight bytes, then the hash |
| DmsPolicy.Read | limnifs-core/src/dms_policy.rs:73-133 | the cursor parser with its seen-set accepts exactly what the parsing function accepts |
| DmsPolicy.ReadShare | limnifs-core/src/dms_policy.rs:135-170 | one share record, accepted exactly as the parsing function says |
| DmsPolicy.ReadHint | limnifs-core/src/dms_policy.rs:172-196 | the hint, an empty one standing for none |
| DmsPolicy.RoundTrip | limnifs-conformance/src/builder.rs:319-347 | valid policies parse back, whatever follows |
| DmsPolicy.Canonical | limnifs-core/src/dms_policy.rs:73-196 | accepted bytes are the encoding of a valid policy, the one returned |
| DmsPolicy.Layout | limnifs-conformance/src/builder.rs:319-347 | version, scheme, k, n, count, shares, hint, by position |
| DmsPolicy.ShareLayout | limnifs-conformance/src/builder.rs:330-340 | a share by position: custodian and data, each behind its length |
| History.FromByte | limnifs-core/src/history.rs:41-50 | the operation whose byte was given; none only if no operation has that byte |
| History.Read | limnifs-core/src/history.rs:114-171 | the cursor parser accepts exactly what the parsing function accepts |
| History.ReadEntry | limnifs-core/src/history.rs:173-219 | one entry, accepted exactly as the parsing function says |
| History.CollectInputs | limnifs-core/src/history.rs:196-202 | the input bytes cut into 32-byte roots, in order |
| History.RoundTrip | limnifs-conformance/src/builder.rs:350-366 | valid histories parse back, whatever follows |
| History.Canonical | limnifs-core/src/history.rs:114-219 | accepted bytes are the encoding of a valid history, the one returned |
| History.Layout | limnifs-conformance/src/builder.rs:350-366 | version, count, entries, by position |
| History.EntryLayout | limnifs-conformance/src/builder.rs:353-365 | an entry by position: opcode from 1 for build to 5 for deepen, timestamp, counted inputs, parameters |
| Locators.ReadLocator | limnifs-core/src/locator.rs:150-195 | one locator with its length, UTF-8 and scheme checks, accepted exactly as the parsing function says |
| Locators.ReadMany | limnifs-core/src/locator.rs:105-142 | the counted loop with its allocation guard accepts exactly what the parsing function accepts |
| Locators.ListRoundTrip | limnifs-conformance/src/builder.rs:278-292 | valid locator lists parse back, whatever follows |
| Locators.ListCanonical | limnifs-core/src/locator.rs:105-148 | accepted bytes are the encoding of a valid locator list, the one returned |
| Locators.ListLayout | limnifs-conformance/src/builder.rs:262-266 | the count, then the URIs |
| Locators.ValidUriIff | limnifs-core/src/locator.rs:160-195 | a locator is accepted iff it is UTF-8 of at least four bytes and a scheme in the sense of section 3.1 of RFC 3986, a colon and something after it |
| MetadataReference.Read | limnifs-core/src/metadata_reference.rs:131-261 | the cursor parser, both versions, accepts exactly what the parsing function accepts |
| MetadataReference.ReadV1 | limnifs-core/src/metadata_reference.rs:150-177 | version 1, accepted exactly as the parsing function says |
| MetadataReference.ReadV2 | limnifs-core/src/metadata_reference.rs:179-208 | version 2, accepted exactly as the parsing function says |
| MetadataReference.RoundTrip | limnifs-core/src/metadata_reference.rs:150-261 | every admissible section of either version, followed by anything, parses to the record it stands for |
| MetadataReference.Canonical | limnifs-core/src/metadata_reference.rs:131-261 | accepted bytes are the encoding of one admissible section, which stands for the record returned |
| MetadataReference.Layout | limnifs-core/src/metadata_reference.rs:150-208 | version, hash, in version 2 length and codec, then the sources, by position |
| MetadataReference.SourcesLayout | limnifs-core/src/metadata_reference.rs:210-225 | the locators, then the stored bytes behind their length |
| MetadataReference.InterpretIs | limnifs-core/src/metadata_reference.rs:220-261 | the record field by field; a section is refused iff its bytes are compressed and do not decompress to the length announced |
| SlabIndex.Read | limnifs-core/src/slab_index.rs:75-140 | the cursor loop accepts exactly what the parsing function accepts, an empty index included |
| SlabIndex.ReadEntry | limnifs-core/src/slab_index.rs:107-136 | one entry, the duplicate check before the locators: follows the entry parser, or reports a known id |
| SlabIndex.RoundTrip | limnifs-conformance/src/builder.rs:278-292 | valid indexes parse back, whatever follows |
| SlabIndex.Canonical | limnifs-core/src/slab_index.rs:75-140 | accepted bytes are the encoding of a valid index, the one returned |
| SlabIndex.Layout | limnifs-conformance/src/builder.rs:278-292 | version, count, entries, by position |
| SlabIndex.EntryLayout | limnifs-conformance/src/builder.rs:282-291 | an entry by position: ordinal, hash, locators |
| Merkle.ComputeMerkleRoot | limnifs-core/src/merkle.rs:105-121 | feeding the hasher step by step hashes the domain separator and the ten slots in their fixed order |
| Merkle.PreimageDetermines | limnifs-core/src/merkle.rs:105-121 | the hashed input has 330 bytes and determines all ten section hashes |
| Merkle.PreimageLayout | limnifs-core/src/merkle.rs:101-121 | the hashed input by position: the separator limnifs/v1, then each named section hash in its place |
| Manifest.RoundTrip | limnifs-conformance/src/harness.rs:96-132 | parsing the encoding of a valid manifest recovers every section value and stops exactly at its end, whatever follows |
| Manifest.Canonical | limni/src/main.rs:641-674 | whatever the reader accepts is a valid manifest whose encoding is exactly the bytes consumed; optional sections are present iff their flag is declared |
| Manifest.RootDeterminesSections | limnifs-core/src/merkle.rs:105-121 | equal roots imply byte-equal sections, unless one of the eight pairs of inputs actually hashed is a collision |
| Manifest.RootDeterminesManifest | limni/src/main.rs:641-697 | any two accepted images with equal roots are the same manifest over the same bytes, unless those inputs collide |
| Manifest.RootLayout | limnifs-core/src/merkle.rs:101-121 | the root is the hash of 330 bytes in which the separator, the metadata hash and the hash of each section of the manifest stand at fixed positions, absent and never-present sections hashing as nothing |
| Manifest.Layout | limnifs-conformance/src/builder.rs:170-198 | the sections of an image stand one after the other in their order |
| SectionRules.FlagsRule | limnifs-core/src/feature_flags.rs:84-145 | a flags section may hold any list without a zero id and without repeated ids |
| SectionRules.EcParamsRule | limnifs-core/src/ec_params.rs:66-161 | counts within the field, the known polynomial, no slab overridden twice |
| SectionRules.PolicyRule | limnifs-core/src/dms_policy.rs:73-218 | k at most n, n shares with distinct, named custodians and data, all within the ceilings |
| SectionRules.IndexRule | limnifs-core/src/slab_index.rs:75-140 | any number of distinct slabs, each with at least one valid locator |
| SectionRules.HistoryRule | limnifs-core/src/history.rs:114-219 | at least one entry, parameters within the ceiling |
| SectionRules.NodeRule | limnifs-core/src/directory_node.rs:54-115 | valid names in strictly ascending order and types from one to four |
| ManifestReader.ReadManifest | limni/src/main.rs:636-707 | the cursor reader with its recorded boundaries refuses exactly what the parse refuses and otherwise returns the view of the parsed manifest, with the root of its sections and the count of unread bytes |
| ManifestReader.ReadEc | limni/src/main.rs:657-662 | the erasure-coding section is read iff its flag is declared |
| ManifestReader.ReadDms | limni/src/main.rs:664-669 | the policy section is read iff its flag is declared |
| ManifestReader.ReadHead | limnifs-conformance/src/harness.rs:96-116 | the required sections lie exactly between the recorded boundaries |
| ManifestReader.ReadTail | limnifs-conformance/src/harness.rs:118-138 | so do the flag-gated sections and the history |
| ManifestReader.PrefixSuffices | limni/src/main.rs:621-636 | a buffer that holds the whole manifest parses as the whole image does, but for the bytes after it |
| ManifestReader.PrefixParsesIff | limni/src/main.rs:621-636 | the first n bytes of an image are accepted iff the image is and its manifest is at most n bytes long |
| ManifestReader.ReadImage | limni/src/main.rs:621-707 | reading an image of which one read call yields n bytes, at most the budget: succeeds iff the image holds an accepted manifest of at most n bytes, and then shows that manifest |
| ManifestReader.LargeManifestRefused | limni/src/main.rs:55-59 | a valid manifest with the largest admitted inline metadata is longer than the budget and is refused |
| ManifestBuilder.ManifestBuilder.EncodeHeader | limnifs-conformance/src/builder.rs:228-235 | appends exactly the header encoding |
| ManifestBuilder.ManifestBuilder.EncodeFeatureFlags | limnifs-conformance/src/builder.rs:237-245 | appends exactly the flags encoding |
| ManifestBuilder.ManifestBuilder.EncodeMetadataReference | limnifs-conformance/src/builder.rs:250-276 | appends exactly the version 1 section and returns the hash it wrote |
| ManifestBuilder.ManifestBuilder.EncodeSlabIndex | limnifs-conformance/src/builder.rs:278-292 | appends exactly the index encoding |
| ManifestBuilder.ManifestBuilder.EncodeEcParams | limnifs-conformance/src/builder.rs:298-315 | appends the section iff present and says which |
| ManifestBuilder.ManifestBuilder.EncodeDmsPolicy | limnifs-conformance/src/builder.rs:319-347 | appends the section iff present and says which |
| ManifestBuilder.ManifestBuilder.EncodeHistory | limnifs-conformance/src/builder.rs:350-366 | appends exactly the history encoding |
| ManifestBuilder.EncodeBytes | limnifs-conformance/src/builder.rs:369-374 | appends exactly the length-prefixed bytes, as for a locator |
| ManifestBuilder.EncodeLocators | limnifs-conformance/src/builder.rs:262-266 | appends the count and every locator in order |
| ManifestBuilder.ManifestBuilder.Build | limnifs-conformance/src/builder.rs:170-226 | the bytes are the manifest's encoding, and the hashes taken at the recorded offsets and the root are those of its sections |
| ManifestBuilder.Offsets | limnifs-conformance/src/builder.rs:171-198 | the offsets recorded while the vector grew cut the finished bytes into exactly the sections |
| ManifestBuilder.WellFormedEncodable | limnifs-conformance/src/builder.rs:237-376 | on a well-formed spec no length overflows 32 bits, so the builder does not panic |
| ManifestBuilder.BuiltParses | limnifs-conformance/src/harness.rs:96-132 | parsing what was built from a well-formed spec gives back every section and leaves nothing over |
| ManifestBuilder.TryRoundTrip | limnifs-conformance/src/harness.rs:73-94 | build, read back, compare roots: succeeds iff the reader accepts the built bytes and what it read has the builder's root, so on every well-formed spec; on any spec a success means that what was read is valid and has the built sections byte for byte, or that inputs hashed on the two sides collide |
| Gf256.MulLoop | limnifs-core/src/gf256.rs:33-50 | the shift-and-XOR loop computes the field product |
| Gf256.MulIsRemainder | limnifs-core/src/gf256.rs:33-50 | a number is the remainder of the carry-less product modulo 0x11B iff it is the field product |
| Gf256.MulComm | limnifs-core/src/gf256.rs:33-50 | multiplication commutes |
| Gf256.MulAssoc | limnifs-core/src/gf256.rs:33-50 | multiplication associates |
| Gf256.MulRight | limnifs-core/src/gf256.rs:33-50 | multiplication distributes over addition |
| Gf256.NoZeroDivisors | limnifs-core/src/gf256.rs:33-50 | a product is zero iff a factor is |
| Gf256.PowLoop | limnifs-core/src/gf256.rs:65-78 | square-and-multiply equals iterated multiplication for every exponent |
| Gf256.PowAdd | limnifs-core/src/gf256.rs:65-78 | powers add exponents |
| Gf256.Power255 | limnifs-core/src/gf256.rs:52-62 | every nonzero element to the 255 is one |
| Gf256.InvIsInverse | limnifs-core/src/gf256.rs:56-62 | for nonzero input the inverse is the one and only element whose product with it is one; zero has none |
| Gf256.InvLoop | limnifs-core/src/gf256.rs:56-62 | the 254th power, zero for zero |
| Gf256.DotLoop | limnifs-core/src/gf256.rs:84-91 | the loop computes the dot product for any equal lengths |
| Gf256.DotBilinear | limnifs-core/src/gf256.rs:84-91 | the dot product is symmetric and linear in each argument, for vectors of any length |
| Polynomials.EvalPoly | limnifs-core/src/shamir.rs:192-199 | the downward loop is polynomial evaluation |
| Polynomials.RootsVanish | limnifs-core/src/shamir.rs:201-219 | a polynomial with as many distinct roots as coefficients is zero |
| Polynomials.InterpolationExact | limnifs-core/src/shamir.rs:201-219 | interpolating through at least as many points as coefficients gives the polynomial back everywhere |
| Shamir.Split | limnifs-core/src/shamir.rs:56-93 | refuses exactly the bad parameters, passes on the first error of the entropy source, else returns shares 1 to n, each the values of the secret's polynomials |
| Shamir.LagrangeAtZero | limnifs-core/src/shamir.rs:201-219 | the double loop is the Lagrange sum at zero |
| Shamir.Combine | limnifs-core/src/shamir.rs:114-142 | accepts exactly the usable share lists, with the right objection otherwise, and interpolates every byte |
| Shamir.FindDuplicate | limnifs-core/src/shamir.rs:130-135 | finds a repeated index iff there is one |
| Shamir.CombineRecovers | limnifs-core/src/shamir.rs:114-142 | any k or more distinct shares interpolate to the secret |
| Shamir.SplitThenCombine | limnifs-core/src/shamir.rs:56-142 | splitting and combining any k or more distinct shares returns the secret |
| Shamir.FewerSharesRevealNothing | limnifs-core/src/shamir.rs:56-93 | for any k - 1 shares and any secret byte there is exactly one polynomial that explains them |
| Shamir.RowsAreFree | limnifs-core/src/shamir.rs:74-79 | each row has its own random coefficients: every table of rows that hide the secret can come up |
| Shamir.SharesFitEverySecret | limnifs-core/src/shamir.rs:56-93 | any k - 1 whole shares of a secret are also those of any other secret of its length, for some random coefficients |
| Matrices.InvertMatrix | limnifs-core/src/reed_solomon.rs:253-299 | Gauss-Jordan elimination succeeds iff the matrix maps only zero to zero, and returns the two-sided inverse |
| Matrices.Eliminate | limnifs-core/src/reed_solomon.rs:279-296 | clearing a column keeps the solution set and makes one more identity column |
| Matrices.PivotColumn | limnifs-core/src/reed_solomon.rs:269-296 | swap, scale and clear keep the solution set and make one more identity column; the zero-inverse error is unreachable |
| Matrices.NoPivot | limnifs-core/src/reed_solomon.rs:264-270 | where no pivot is found the system has a nonzero solution |
| ReedSolomon.MatrixMul | limnifs-core/src/reed_solomon.rs:302-316 | every row of the product is the row times the matrix |
| ReedSolomon.Vandermonde | limnifs-core/src/reed_solomon.rs:105-115 | row i holds the powers of i |
| ReedSolomon.BuildGenerator | limnifs-core/src/reed_solomon.rs:103-125 | the generator's row i computes, for every data column, the value at i of the polynomial through the data; the inverse it needs always exists |
| ReedSolomon.CodeAtData | limnifs-core/src/reed_solomon.rs:99-102 | the code is systematic |
| ReedSolomon.CodeDetermines | limnifs-core/src/reed_solomon.rs:9-16 | two data columns with equal code at as many distinct positions as they have bytes are equal |
| ReedSolomon.RowsRegular | limnifs-core/src/reed_solomon.rs:219-223 | any k rows of the generator are invertible, so the singular-matrix error is unreachable |
| ReedSolomon.Encode | limnifs-core/src/reed_solomon.rs:137-171 | the exact error, else the data verbatim followed by parity shards that are the code of the data at every byte |
| ReedSolomon.Decode | limnifs-core/src/reed_solomon.rs:191-239 | the exact error, never a singular matrix, else data whose shards are the survivors used |
| ReedSolomon.ShardsDetermine | limnifs-core/src/reed_solomon.rs:9-16 | as many shards as data shards leave only one possible data |
| ReedSolomon.EncodeLoseDecode | limnifs-core/src/reed_solomon.rs:137-239 | encode, lose any shards, decode: the data iff at least k survive, in particular after any m or fewer losses |
| ReedSolomon.SurvivorsAll | limnifs-core/src/reed_solomon.rs:200-212 | a position survives iff its shard is there |
| ParameterChecks.ShardCountsIff | limnifs-core/src/ec_params.rs:141-161 | the section admits exactly the shard counts the erasure code works with: at least one of each and at most 255 together |
| ParameterChecks.EncodesIff | limnifs-core/src/reed_solomon.rs:137-150 | encoding takes exactly k shards of one length under such counts |
| ParameterChecks.ThresholdsIff | limnifs-core/src/dms_policy.rs:198-218 | the policy admits exactly the thresholds splitting works with, and a threshold of one |
| ParameterChecks.SplitsIff | limnifs-core/src/shamir.rs:60-71 | splitting takes a secret that is not empty and a threshold from two up to the number of shares, at most 255 |
| Varint.WriteVarint | limnifs-core/src/ipfs_locator.rs:144-150 | the loop appends exactly the LEB128 encoding |
| Varint.ReadVarint | limnifs-core/src/ipfs_locator.rs:162-178 | value and length of the varint, or which way there is none; the overflow error is unreachable |
| Varint.AddGroup | limnifs-core/src/ipfs_locator.rs:165-176 | one turn: OR-ing the shifted group adds it, and the tenth group wraps at 64 bits |
| Varint.DecodeIff | limnifs-core/src/ipfs_locator.rs:162-178 | accepted iff one of the first ten bytes lacks the continuation bit; otherwise too long if there are more than ten bytes, else truncated |
| Varint.RoundTrip | limnifs-core/src/ipfs_locator.rs:144-178 | every 64-bit value, followed by anything, reads back over exactly the bytes written |
| Varint.CanonicalIff | limnifs-core/src/ipfs_locator.rs:162-178 | an accepted varint is what the writer emits iff it has no superfluous zero group and its sum fits 64 bits |
| Varint.ThreeHundred | limnifs-core/src/ipfs_locator.rs:144-150 | 300 is written AC 02: the lowest seven bits come first |
| Varint.OverlongZero | limnifs-core/src/ipfs_locator.rs:162-178 | zero in two bytes: accepted, and not what the writer emits |
| Car.DecodeMultihash | limnifs-core/src/ipfs_locator.rs:197-214 | an accepted multihash spans at least the 34 bytes the CID decoder skips |
| Car.DecodeCid | limnifs-core/src/ipfs_locator.rs:235-250 | the width it claims is never beyond the bytes given |
| Car.MultihashRoundTrip | limnifs-core/src/ipfs_locator.rs:182-214 | an encoded digest decodes to itself, whatever follows |
| Car.CidRoundTrip | limnifs-core/src/ipfs_locator.rs:218-250 | an encoded CID decodes to its digest over exactly 36 bytes, whatever follows |
| Car.CidLayout | limnifs-core/src/ipfs_locator.rs:218-225 | a CID is the bytes 01 55 1E 20 and the digest |
| Car.HeaderLayout | limnifs-core/src/ipfs_locator.rs:347-366 | the header by position; the length announced for the root CID is right iff the archive has no blocks |
| Car.FixedWidth | limnifs-core/src/ipfs_locator.rs:245-249 | the hard-coded width never passes the CID's true end, non-minimal varints included, and equals it iff both multihash varints are the one-byte forms |
| Car.OverlongCodeMisaligns | limnifs-core/src/ipfs_locator.rs:245-249 | with the hash code spelled in two bytes the CID is accepted, ends at byte 37, and the width claimed is 36, so the digest's last byte is taken for data |
| Car.EncodeCar | limnifs-core/src/ipfs_locator.rs:271-300 | the loop builds the archive: framed header, then each block framed |
| Car.WriteCid | limnifs-core/src/ipfs_locator.rs:182-225 | appends exactly the CID of the digest |
| Car.DecodeCar | limnifs-core/src/ipfs_locator.rs:307-345 | on every byte string it terminates with a strictly advancing position, in bounds, with the specified blocks or error |
| Car.RoundTrip | limnifs-core/src/ipfs_locator.rs:271-345 | decoding an encoded archive returns exactly the blocks, the empty list and empty data included |
| Car.PlainFrameIff | limnifs-core/src/ipfs_locator.rs:324-343 | an accepted frame is what the writer emits for its block iff its length is the shortest varint and the four varints of its CID take one byte each |
| Car.ReencodesIff | limnifs-core/src/ipfs_locator.rs:271-345 | an accepted archive is what the writer emits for its blocks iff the header is the writer's, its length the shortest varint, and every frame so spelled |
| Pax.PaxRecord | limni/src/main.rs:1771-1783 | the digit loop terminates for every line; the digit count is the least consistent one and the printed number is the record's whole length |
| Pax.TwoConsistentIff | limni/src/main.rs:1771-1783 | two consecutive digit counts are both consistent iff the shorter total is a row of nines, so least is a real choice |
| Pax.PaxRecords | limni/src/main.rs:1756-1784 | the records of a file, read back as the pax format prescribes, give in order the prefixed lines of exactly the attributes without NUL or newline |
| Pax.LineLayout | limni/src/main.rs:1765-1769 | a line by position: SCHILY.xattr., key, equals sign, value |
| Pax.LinesOf | limni/src/main.rs:1758-1769 | an attribute has its line, in order, iff neither key nor value holds NUL or newline |
| Base32.DecodeB3 | limnifs-conformance/src/differential.rs:328-358 | accepts exactly the prefix and 52 alphabet characters, and returns the top 256 of the 260 bits they spell, though the 64-bit buffer drops high bits |
| Base32.ShiftInKeeps | limnifs-conformance/src/differential.rs:341-342 | the buffer always holds the low 64 bits of the number read so far |
| Base32.B3RoundTrip | limnifs-conformance/src/differential.rs:328-358 | it inverts the printed form of every 32-byte value |
| Base32.B3CanonicalIff | limnifs-conformance/src/differential.rs:328-358 | an accepted text is the printed form of its value iff its last character spells four zero bits |
| Base32.LaxText | limnifs-conformance/src/differential.rs:328-358 | a text accepted for the zero digest that is not its printed form |
| Base32.DecodeBase32 | limnifs-format/src/lib.rs:51-74 | the strict decoder accepts iff all characters are in the alphabet, no whole character is left over and the leftover bits are zero |
| Base32.Alphabet | limnifs-format/src/lib.rs:26 | the letters are a to z and 2 to 7 |
| Base32.EncodeBase32 | limnifs-format/src/lib.rs:28-49 | the loops print the bytes as one zero-padded number in radix 32 |
| Base32.StrictRoundTrip | limnifs-format/src/lib.rs:28-74 | printing and strictly reading any byte string gives it back |
| Base32.StrictCanonical | limnifs-format/src/lib.rs:28-74 | whatever the strict reader accepts is what the printer writes for the bytes returned |

## Left out

- ManifestBuilder.TryRoundTrip: success is not expressed by the spec's own fields, because an empty reconstruction hint and an absent one have the same encoding.
- ExtractionRuns.ParallelRefinesSequential: walks that pass a drive on Windows are left out, because where such a path leads depends on the current directory of the drive; where names that share an object want different bytes neither extraction ends well, and the two wrong results are not compared with each other; likewise where some file's content cannot be read.
- Sinks.FilesystemSink.OnDirectory: mode, time and extended attributes of the recorded identity and failures of directory creation are not modelled.
- Sinks.FilesystemSink.OnSymlink: creating a link at an existing path, which fails, is not modelled.
- Sinks.ParallelExtractSink.OnDirectory: identity fields, the directory count and creation failures are not modelled.
- Sinks.ParallelExtractSink.OnSymlink: creation failures are not modelled.
- Extraction.SoundMeansNoLinkedPairs: asks that later sights of different inodes share no object, because a file emptied by a copy onto itself can be filled again by a later link of another inode; `PlanSound` is the exact condition without that.
- ExtractionRuns.ParsedExtractionsAgree: the converse asks the same.
- Sinks.FilesystemSink.Consume: failures of directory and symbolic link creation are not modelled.
- Sinks.ParallelExtractSink.Consume: the same.
- Destination file systems that take different names for one file: case folding, trailing dots, reserved names and alternate data streams.
- Sinks.FilesystemSink.OnRegularFile: failures of the file system itself are not modelled, a refused hard link excepted.
- Sinks.FinishExtraction: each task is one step, so the interleaving of workers' writes is not modelled; where two tasks' paths name one object that only matters when they want different bytes.
- Car.RoundTrip: the archive must fit the address space; the CBOR inside the header is opaque, because the reader skips it.
- Car.EncodeCar: asks that each block fit the address space, as any block in memory does.
- Pax.PaxRecord: machine-size overflow of the record length is not modelled, because a line in memory is far from it.
- Pax.PaxRecords: the replacement of invalid UTF-8 in attribute values is a parameter.
- Gf256.DotLoop: asks for equal lengths, because the source asserts them.
- ManifestReader.ReadManifest: takes the bytes that were read; `ReadImage` says what the budget of that read does.
- Which of several error messages is returned, beyond the cases the contracts state; messages carry no structure.
- Permissions, timestamps and extended attributes on disk.
- Parsing inode fields other than the content handle, and whole metadata blobs.
- Compression, encryption, signatures and key wrapping: wrappers around external libraries.
- HTTP and IPFS transport, the FUSE layer, command-line output, the writer pipeline and the repair command built on the erasure code.
- Sections of fixed-width configuration fields, read one after the other without a loop, and the static registries of codecs and algorithms, which are tables.
- Bytes after the history section: the root does not cover them.
