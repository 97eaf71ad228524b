# Dafny model of the aegir userland tools and runtime glue

This project models four parts of the repository and proves what they promise.

* **The BeFS image writer, its self-check and its two readers** (`tools/mkbefs.py`, `tools/befs_get.py`,
  `tools/befs_dump.py`, `tools/befs_mkdirty.py`), down to the bytes. `BPlusTree` writes nodes and
  streams, `TreeReaders` parses them the way each reader does, `RoundTrip` and `TreeSearch` connect
  the two. `BlockRuns`, `Inodes`, `Bitmap`, `Images` model runs, inodes and attributes, the bitmap,
  and the image object that is filled in place. `Staging` and `StageWriter` are the two recursive
  passes of the staged build, `Volume` and `DumpVolume` the readers, `Utf8Text` the volume names that
  decode, `ReadBack`, `EndToEnd` and `Build` the proof that every path reads back, `Attributes` what
  the inodes on the way say, `SelfCheck` the writer's own read-back and `CheckedReads` what passing it
  means. `Journal` is the crash injection, `JournalPaths` what it means for a reader, `BuiltVolume`
  the superblock and the indices of a built image.
* **The exception personality routine** (`raise-gcc.c`, `unwind-pe.h`): `Leb128` (byte decoding),
  `Lsda` (header, call-site table, action chains), `Encodings` (every pointer encoding), `Unwind` (the
  decision per frame and the two phases over a whole stack).
* **The socket port layer** (`aegir_gsocket.c`): `SocketTable` (descriptors over bridge handles, and
  signalling pairs), `SocketSend`, `DottedQuad`.
* **The lwIP glue** (`aknet_glue.c`): `Hairpin` (the re-entrant ring) and `Listeners` (the linked
  list).

`Bytes` and `Bits` hold the shared vocabulary: little-endian fields, Python slices, bitwise or. The
block size is symbolic throughout (`ValidBlk`: a multiple of 8 from 1 KiB to 64 KiB). The source's
abnormal stops (`SystemExit`, `struct.error`, `IndexError`, `AssertionError`) are results, never preconditions.

## Main results

* `Build.BuildStage` with `Build.StagedVolumeReads`: the staged build writes an image exactly when
  every directory stream can be built, everything fits and no inode needs more than 12 runs
  (`Build.SmallFilesBuild`: files of at most 11*8192+1 blocks never do). The image has its proper
  length exactly when all attributes fit their inodes, which nothing checks. Then its own read-back
  passes exactly when the root directory fits one leaf, since the rewritten root inode always has a
  two-block stream (`tools/mkbefs.py:685-687`). On such an image every path, with `.` and `..`,
  gives what the host tree gives: files with exactly their bytes, directories with exactly their
  children, absent names as missing. With a larger root every nonempty path fails.
* `Attributes.EveryPathTells`: on such an image every path of the host tree leads to an inode that names
  its own block and its parent's, says whether it is a directory, and carries the node's name followed
  by what the manifest has for the names joined with `/`; the root carries the volume id instead of a
  name. `BuiltVolume.BuiltSuper` and `BuiltVolume.BuiltIndices`: the superblock says what is there, the
  used count is the number of bits in the bitmap, and the index run leads to four empty, typed indices.
* `CheckedReads.CheckedReadsBack`: on any image whatever, passing the self-check means that `befs_get`
  reads every file back, byte for byte, and every directory whose links are whole block offsets.
* Paths that go on behind a regular file are the one exception: `resolve` never asks whether it is in
  a directory. It goes on with the entries that the file's bytes make as a tree
  (`EndToEnd.ResolveAgrees`). Some such path is found, where the host tree has none, if and only if
  the bytes parse as a tree with an entry that leads to an inode (`EndToEnd.BehindFileFoundIff`);
  never when the file does not start with the tree magic (`EndToEnd.PlainFileRefused`).
  `EndToEnd.PathThroughTreeFile` is a path that resolves.
* `RoundTrip.GetInvertsStream`, `RoundTrip.DumpInvertsStream`: both readers invert the tree writer
  at depth 1 and 2. The caps of `befs_get` are never reached; the cap of `befs_dump` is reached
  exactly above 4097 leaves, which needs blocks larger than 32 KiB; `RoundTrip.TooManyLeavesForDump`
  is such a list.
* `BPlusTree.ChunksOptimal`: greedy packing is optimal. `TreeSearch.LookupIsScan`: descent by
  separators finds what the linear scan finds, for every strictly sorted list; for the writer's own
  directories exactly when there is one leaf or the second starts above `..`
  (`TreeSearch.DirectorySearchIff`), and `TreeSearch.DirectorySearchFails` is one that does not.
* `Images.Image.FinishBitmap` and `Build.FixtureBitmap`: disjoint extents, exact bitmap, popcount
  equal to `used`, with and without the hole.
* `Journal.Mkdirty` with `Journal.InjectionPends`: an injected image opens as before except that its log
  holds two blocks more and it is marked dirty; the first log block asks for one block to be written
  to the target, the second is what the target held, and nothing else has changed. The tool refuses
  such an image (`Journal.SecondInjectionRefused`). Replaying the log by the bytes alone gives the
  image back exactly when README.TXT is not an empty file (`Journal.ReplayIsNoOpIff`).
* `JournalPaths.InjectionKeepsPaths`: while the injection does not wrap, every path gets the same
  answer before and after it, with the same bytes and listings, unless it goes on behind a file that
  parses as a tree. One name behind such a file gets another answer if and only if its entry names a
  log block and the injection changes what that block is (`JournalPaths.OneNameBehindIff`), which
  happens (`JournalPaths.InjectionChangesPath`); a longer path is kept when its walk stays clear of
  the log and of block 0 (`JournalPaths.QuietPathsKept`). At the last log position the injection
  overwrites the root inode (`Journal.WrappedInjectionBreaksRoot`).
* `Unwind.Raise`, `Unwind.ForcedUnwind`: two-phase agreement over whole stacks, from the bytes, with
  the abort on a missing type-table entry as an outcome. `Unwind.PrintedSiteActs`: for every layout of
  sites, chains and types there are bytes, and a frame over them does what the layout says.
  `Unwind.ChoiceFramesExist` says for every kind of choice which occurrences it catches.
* `SocketTable.TableFollowsHistory`: over every run, what a descriptor is follows from the calls made and
  the answers given: it listens if and only if a `listen` on it succeeded since it was opened, and does
  not block exactly as it was last told since then. `SocketTable.AcceptOverRun` gives when `accept` succeeds.
* `SocketTable.HandlesOverRun`, `SocketTable.PairOverRun`, `SocketSend.SendStream`,
  `DottedQuad.AcceptsExactly`, `Hairpin.RunIsFifo`, `Listeners.RunFindsLatest`: the same kind of
  statement over every run or every input of the glue code.

Properties that one might expect and that the code does not have, each with its exact condition:

* the staged index list is not ascending, although its comment says so
  (`TreeSearch.StagedIndicesUnsorted`); a directory is sorted only if its first name sorts above
  `..` (`TreeSearch.DirectorySorted`), and a name with a leading dash does not
  (`TreeSearch.DashNameUnsorted`);
* bitmap block 1+g describes group g only for 1 KiB blocks (`Images.BitmapBlockIsGroup`);
* `put` with data of another length moves everything behind it (`Images.PutKeepsLength`);
* a nameless attribute ends the attribute walk, and type codes are cut to 32 bits (`Inodes.AttrsRoundTrip`);
* the range of the direct runs in an inode is a shift, which is their length in bytes only for block sizes
  that are powers of two (`BlockRuns.MaxDirectIff`);
* the journal of an empty README.TXT holds the old superblock (`Journal.ReplayChangesNothingIff`);
* a TCP send that fails may already have sent bytes, exactly when the length exceeds one slot
  (`SocketSend.FailureSentNothingIff`);
* a handler is entered with its own filter only below 2^31, since the filter is narrowed to `int`
  (`Unwind.NarrowKeepsIff`); `Unwind.HandlerEnteredAsCleanup` is a frame found by filter 2^32;
* a signalling close of a socket leaks its handle for good (`SocketTable.HandlesOverRun`), and a
  leftover write end signals a stranger (`SocketTable.FreshPairIsolatedIff`).

## Model

| member | source | states |
|---|---|---|
| BPlusTree.WriteFields | tools/mkbefs.py:174-183 | the array-filling loops put the fields one after the other at the given position and leave the rest of the node alone |
| BPlusTree.BtreeNode | tools/mkbefs.py:159-184 | the in-place layout with its late overflow test equals the one-block node that the readers invert, or fails exactly when the budget exceeds the block |
| BPlusTree.LeafChunks | tools/mkbefs.py:187-205 | the packing loop computes the greedy chunks, or reports a key too large |
| BPlusTree.ChunksCorrect | tools/mkbefs.py:187-205 | when every key fits a node, packing succeeds, the chunks concatenate to the input, none is empty and each fits |
| BPlusTree.ChunksOptimal | tools/mkbefs.py:187-205 | no contiguous partition into fitting chunks has fewer chunks |
| BPlusTree.WriteLeaves | tools/mkbefs.py:223-231 | the leaf loop writes the doubly linked leaves in order and stops at the first that does not fit |
| BPlusTree.BtreeStream | tools/mkbefs.py:208-235 | header, root and leaves form the stream of the specification, at depth 1 or 2 |
| BPlusTree.StreamLength | tools/mkbefs.py:208-235 | an accepted stream has two blocks, or two plus the number of leaves |
| BPlusTree.StreamAccepts | tools/mkbefs.py:187-235 | a list is accepted exactly when each key fits a node and the separators of a deep tree fit one root |
| BPlusTree.TightChunks | tools/mkbefs.py:187-205 | fitting chunks without room for the next entry are what the packing of all of them gives |
| BPlusTree.OneChunk | tools/mkbefs.py:216-222 | entries that fit one node become one leaf |
| BPlusTree.StreamSizeFromKeys | tools/mkbefs.py:576-578 | acceptance and stream size depend on the keys only, so sizing with zero values is exact |
| BPlusTree.KeyAlignIsNext | tools/mkbefs.py:113-114 | key lengths start at the next multiple of eight |
| TreeReaders.ParseEntries | tools/befs_get.py:105-116 | the entry loop collects keys by the length array and values behind it, or fails where a field is missing |
| TreeReaders.DescendToLeaf | tools/befs_get.py:93-102 | the descent follows first children until a node without overflow, at most 8 times |
| TreeReaders.WalkLeaves | tools/befs_get.py:103-123 | the leaves are collected along the right links, at most 100000 of them |
| TreeReaders.TreeEntries | tools/befs_get.py:85-123 | descent and leaf walk together are the reader that GetInvertsStream speaks of |
| TreeReaders.DumpToLeaf | tools/befs_dump.py:134-142 | the descent by the depth in the header |
| TreeReaders.DumpLeaves | tools/befs_dump.py:143-153 | the leaf walk with its set of visited offsets and the cap of 4096 |
| TreeReaders.BtreeEntries | tools/befs_dump.py:127-153 | header checks, descent and walk together are the reader that DumpInvertsStream speaks of |
| RoundTrip.NodeRoundTrip | tools/befs_get.py:105-116 | the entry parser inverts the node layout |
| RoundTrip.NodeReads | tools/befs_dump.py:107-125 | both readers see entries and the three links of a written node |
| RoundTrip.NodeReadsIff | tools/mkbefs.py:168-184 | for any block size a node reads back if and only if its 16-bit counters do not wrap |
| RoundTrip.FewLeaves | tools/mkbefs.py:223-226 | separators that fit one root bound the leaves: 6551, and 3274 up to 32 KiB blocks |
| RoundTrip.GetInvertsStream | tools/befs_get.py:85-123 | for every accepted list `tree_entries` returns exactly that list, and no cap is reached |
| RoundTrip.DumpInvertsStream | tools/befs_dump.py:107-153 | `btree_entries` returns exactly that list if and only if there are at most 4097 leaves, so always up to 32 KiB blocks |
| RoundTrip.TooManyLeavesForDump | tools/befs_dump.py:143-153 | an accepted list of 4098 full leaves that `tree_entries` returns and `btree_entries` gives up on |
| RoundTrip.LeavesDoublyLinked | tools/mkbefs.py:227-231 | the leaves of every accepted stream hold the chunks in order; each left link is the offset of the leaf whose right link leads here, and only the first leaf has none |
| RoundTrip.StreamHeader | tools/mkbefs.py:216-235 | the header says the node size, the depth, 1 exactly for one leaf, the key type, the root offset, that no node is free, and the length of the stream |
| TreeSearch.DirEntry | tools/befs_get.py:125-130 | the value of the first entry with the key; none exactly when no entry has it |
| TreeSearch.CoveringChunkDecides | tools/mkbefs.py:223-226 | in a sorted list the chunk between the separators around a key answers for the whole list |
| TreeSearch.LookupIsScan | tools/mkbefs.py:161-167 | on the bytes of every accepted sorted list, descent by separator comparison finds for every key what the linear scan finds |
| TreeSearch.LookupFinds | tools/mkbefs.py:161-167 | on the bytes of any accepted list the descent ends in the chunk whose separators surround the key |
| TreeSearch.DirectorySearchIff | tools/mkbefs.py:619-623 | in a directory with names in order, search finds for every key what the scan finds if and only if there is one leaf or the second starts above `..` |
| TreeSearch.DirectorySearchFails | tools/mkbefs.py:619-623 | a directory of two leaves in which search does not find `..` |
| TreeSearch.DirectorySorted | tools/mkbefs.py:573-575 | `.`, `..` and the names are sorted if and only if the names are and the first sorts above `..` |
| TreeSearch.DashNameUnsorted | tools/mkbefs.py:573-575 | a name that starts with a dash makes its directory unsorted |
| TreeSearch.StagedIndicesUnsorted | tools/mkbefs.py:660-665 | the index list is not sorted |
| BlockRuns.RunRoundTrip | tools/mkbefs.py:101-110 | a run survives `rblk` and the readers' `run`, for every block a group number can address |
| BlockRuns.SplitAtGroups | tools/mkbefs.py:554-564 | the loop computes the split at group boundaries |
| BlockRuns.SplitRunsCorrect | tools/mkbefs.py:554-564 | the runs tile the range in order, none crosses a group, and there is one per group touched |
| BlockRuns.TwelveRunsSuffice | tools/mkbefs.py:238-250 | twelve runs suffice at every start if and only if at most 11*8192+1 blocks are needed |
| BlockRuns.MaxDirectIff | tools/mkbefs.py:248 | the stored range of the direct runs is their length in bytes if and only if the block size is a power of two |
| Inodes.WriteSmallData | tools/mkbefs.py:253-262 | the loop writes the attribute records and the zero terminator |
| Inodes.ReadAttrs | tools/befs_dump.py:73-88 | the attribute walk with its bounds and both ways of ending |
| Inodes.AttrsRoundTrip | tools/befs_dump.py:73-88 | for attributes that fit, the walk returns those before the first nameless one, with type codes modulo 2^32, so all of them if and only if none is nameless and all type codes fit, whatever bytes they hold |
| Inodes.AttrTerminated | tools/mkbefs.py:257-259 | names and data of a record are followed by NUL |
| Inodes.InodeBytes | tools/mkbefs.py:265-284 | an inode exists exactly for at most 12 runs, and has the length of a block exactly when its attributes fit behind offset 232 |
| Bitmap.SetBitBits | tools/mkbefs.py:141-143 | setting a bit sets that bit and no other |
| Bitmap.PopcountIsCount | tools/mkbefs.py:477-482 | counting bits byte by byte counts the set bits |
| Bitmap.InOrderDisjoint | tools/mkbefs.py:133-139 | no block belongs to two allocations |
| Bitmap.LedgerCount | tools/mkbefs.py:133-152 | a bitmap that marks exactly the reserved and allocated blocks has as many bits as blocks were counted |
| Images.PutReads | tools/mkbefs.py:145-146 | putting a block changes that block and no other |
| Images.PutKeepsLength | tools/mkbefs.py:145-146 | the image keeps its length if and only if the data has block length |
| Images.BitmapBlockIsGroup | tools/mkbefs.py:154-156 | one bitmap block is one group if and only if blocks have 1024 bytes |
| Images.BitmapCapacity | tools/mkbefs.py:123-131 | the bitmap has a bit for every block |
| Images.LedgerAlloc | tools/mkbefs.py:133-139 | a bump allocation extends the ledger by blocks nobody holds |
| Images.LedgerSkip | tools/mkbefs.py:317 | advancing the pointer leaves a hole out of the ledger |
| Images.Image.constructor | tools/mkbefs.py:123-131 | an image of zeros whose counters agree with an empty ledger |
| Images.Image.Alloc | tools/mkbefs.py:133-139 | the next blocks, or a failure exactly when the image is too small |
| Images.Image.Mark | tools/mkbefs.py:141-143 | exactly the blocks of the range are marked in addition |
| Images.Image.MarkAllocated | tools/mkbefs.py:419-421 | after the marking loop a bit is set exactly for the allocated blocks |
| Images.Image.PutBlock | tools/mkbefs.py:145-146 | for data of any length: the new length, and one block replaced and no other exactly for a block of bytes |
| Images.Image.PutBitmap | tools/mkbefs.py:154-156 | blocks 1 to num_ags hold the bitmap, the others are unchanged |
| Images.Image.FinishBitmap | tools/mkbefs.py:148-156 | bits are set exactly for reserved and allocated blocks and number `used`, so the popcount assertion of the self-check holds |
| Staging.AllocNode | tools/mkbefs.py:568-597 | the first pass succeeds exactly when all streams can be built and the subtree fits, and places every node where the bump allocator's order says |
| Staging.AllocData | tools/mkbefs.py:591-596 | the data blocks of a file as group-wise runs, none for an empty file, or a failure exactly when the image is too small |
| Staging.AllocChildren | tools/mkbefs.py:581-587 | the same for the list of children |
| StageWriter.PlaceIsPlaced | tools/mkbefs.py:568-597 | inode, body and children of each node take consecutive disjoint ranges, and each stream has the size its final entries need |
| StageWriter.StoredFrame | tools/mkbefs.py:618-655 | a written subtree stays in the image while its own blocks are left alone |
| StageWriter.WriteStream | tools/mkbefs.py:619-630 | the stream blocks are written; the "resized between passes" abort never fires |
| StageWriter.WriteData | tools/mkbefs.py:634-645 | the data loop over runs and blocks writes each block of the file, zero padded |
| StageWriter.WriteNode | tools/mkbefs.py:618-655 | it fails exactly when some inode needs more than 12 runs; the image keeps its length if and only if all attributes fit, and then the whole subtree is stored in its own blocks and nothing else changes; which attributes that are is in Attributes.StoredLabelled |
| StageWriter.WriteChildren | tools/mkbefs.py:653-655 | the same for the list of children |
| Volume.AppendBlocks | tools/befs_get.py:79-81 | the inner loop appends the blocks of a run |
| Volume.ReadStream | tools/befs_get.py:73-83 | the stream is the concatenation of the direct runs up to the first empty one |
| Volume.WalkPath | tools/befs_get.py:137-152 | the component loop of path resolution |
| Volume.Resolve | tools/befs_get.py:137-152 | path resolution from the root inode, the empty path included |
| Volume.ListDir | tools/befs_get.py:154-162 | the listing loop, with `.` and `..` skipped |
| Volume.DirModeIff | tools/befs_get.py:148 | a mode says directory exactly when its bits 12 to 15 are 4 |
| ReadBack.InodeReadsBack | tools/mkbefs.py:265-284 | every inode field that `befs_get` uses reads back from the written bytes |
| ReadBack.InodeIdentifies | tools/mkbefs.py:265-284 | a written inode says its own block, its parent, owner, state, times, type code, inode size and the range of its direct runs |
| ReadBack.InodeUnused | tools/mkbefs.py:238-284 | and it has no attribute directory and no indirect runs |
| ReadBack.DirectoryReads | tools/befs_get.py:85-123 | an inode and stream in the image read back as the entry list, across runs and groups |
| ReadBack.FileReads | tools/befs_get.py:132-135 | an inode and data blocks in the image read back as exactly the file's bytes |
| EndToEnd.ScanDirectory | tools/befs_get.py:125-130 | looking a name up in a stored directory finds the child, itself or its parent |
| EndToEnd.ListDirectory | tools/befs_get.py:154-162 | the listing of a stored directory is exactly its children, with kinds, in order |
| EndToEnd.ResolveAgrees | tools/befs_get.py:137-152 | from any directory of a readable tree, every path resolves as in the host tree, and behind a regular file as the file's bytes decide |
| EndToEnd.ResolveSame | tools/befs_get.py:137-162 | two readers of the same tree give every path that does not go on behind a file the same answer, bytes and listing |
| EndToEnd.StoredReadable | tools/mkbefs.py:618-655 | what the second pass stored is readable, over the whole subtree |
| EndToEnd.EveryPathReads | tools/befs_get.py:73-162 | on an image with a two-block root every path gives the host tree's answer, and behind a regular file what the file's bytes make as a tree |
| ReadBack.FileEntries | tools/befs_get.py:85-123 | a stored file taken for a directory has the entries of its zero-padded bytes |
| EndToEnd.PlainFileRefused | tools/befs_get.py:91-92 | a file that does not start with the tree magic is refused as a directory |
| EndToEnd.BehindPlainFile | tools/befs_get.py:137-152 | so every path behind such a file is an error |
| EndToEnd.BehindFileIff | tools/befs_get.py:143-152 | every path behind a file is an error if and only if the file's bytes do not parse as a tree |
| EndToEnd.BehindFileFoundIff | tools/befs_get.py:143-152 | some path behind a file is found if and only if the file's bytes parse as a tree with an entry that leads to an inode |
| EndToEnd.TreeFileEntered | tools/befs_get.py:85-123 | a file holding any accepted stream is entered with exactly its entries |
| EndToEnd.PathThroughTreeFile | tools/befs_get.py:137-152 | a path through such a file resolves to a directory although the host tree does not have it |
| EndToEnd.TwoPagesIff | tools/mkbefs.py:576-578 | a directory stream has two blocks if and only if its entries fit one node |
| EndToEnd.RootReadsIff | tools/mkbefs.py:682-687 | the rewritten root reads back if and only if its entries fit one leaf; otherwise every nonempty path fails |
| Attributes.PlacePathed | tools/mkbefs.py:581-586 | the volume path of every record below a named node is the names from the root joined with a slash |
| Attributes.StoredLabelled | tools/mkbefs.py:646-652 | every stored inode names its own block and its parent, its kind, and its name followed by the manifest attributes of its joined names |
| Attributes.TrailTells | tools/befs_get.py:137-152 | from any directory of a stored tree, a path leads to an inode that tells the names of the way, `.` and `..` taken out |
| Attributes.EveryPathTells | tools/mkbefs.py:646-652 | on a built image every path of the host tree leads to an inode with its own block, its parent, its mode, and the name attribute followed by the manifest attributes of the path up to the first nameless one; the root has the volume id |
| SelfCheck.StreamBlockOf | tools/mkbefs.py:744-753 | the run loop maps a stream offset to an image block, or fails past the runs |
| SelfCheck.InodeRuns | tools/mkbefs.py:726-733 | the direct runs up to the first empty one |
| SelfCheck.WalkTree | tools/mkbefs.py:755-786 | magic test, descent and leaf walk of the self-check, with its caps 8 and 10000 |
| SelfCheck.CheckNode | tools/mkbefs.py:735-804 | the recursive check of magic, size, runs, names, child blocks and file bytes |
| SelfCheck.StreamChecks | tools/mkbefs.py:742-786 | the third reader returns exactly the entries of every stream stored behind tiling runs |
| SelfCheck.StoredChecks | tools/mkbefs.py:735-804 | whatever the second pass stored passes the check, over the whole subtree |
| SelfCheck.SelfCheckIff | tools/mkbefs.py:735-806 | on a staged image the check passes if and only if the root directory has two blocks |
| CheckedReads.EntriesAgree | tools/mkbefs.py:742-786 | on any image, where the links are whole block offsets the entries that the self-check walks over are the ones `befs_get` returns |
| CheckedReads.FileCheckIff | tools/mkbefs.py:793-804 | on any image a file passes if and only if its inode has the recorded size and runs and `befs_get` reads exactly its bytes; any difference is rejected |
| CheckedReads.CheckedReadsBack | tools/mkbefs.py:735-804 | on any image that passes, `befs_get` reads back every file, and every directory with whole links as its names with the blocks of its children |
| Build.OpensAs | tools/befs_get.py:52-62 | an image with the written superblock opens with its own geometry and root |
| Build.WriteIndices | tools/mkbefs.py:659-680 | the index directory and the four empty indices are stored, in their own 15 blocks only |
| Build.AllocIndices | tools/mkbefs.py:605-615 | the index blocks follow the tree, or the image is too small |
| Build.IndicesRead | tools/mkbefs.py:659-680 | on a built image the index directory lists exactly the four indices, and each reads as empty |
| Build.RewriteRoot | tools/mkbefs.py:682-687 | the image keeps its length if and only if the root's attributes fit, and then the rest of the tree is kept |
| Build.WriteVolume | tools/mkbefs.py:657-687 | the second pass, the indices and the root inode together: failure exactly for too many runs, length kept if and only if all attributes fit, and then tree and indices are stored |
| Build.StageTree | tools/mkbefs.py:599-687 | both passes and the indices, with the exact condition for success |
| Build.SmallFilesFit | tools/mkbefs.py:568-597 | a tree whose files take at most 11*8192+1 blocks needs at most 12 runs per inode wherever it is placed |
| Build.SmallFilesBuild | tools/mkbefs.py:599-601 | so for such a tree the run condition of the build holds |
| Build.BuildImage | tools/mkbefs.py:538-696 | the image is complete exactly under the stated conditions; it has its proper length if and only if all attributes fit, and then holds the tree; its log is clear; its bitmap marks exactly the blocks below `next_free` and its popcount is `used` |
| Build.BuildStage | tools/mkbefs.py:538-809 | with the self-check: the tool writes exactly under those conditions, its verdict is the self-check of the image written, and with fitting attributes it succeeds if and only if the root directory fits one leaf |
| Build.HeadPasses | tools/mkbefs.py:698-708 | the assertions on the superblock magics and the bitmap's popcount hold |
| Build.HeadCheckIff | tools/mkbefs.py:698-708 | those assertions hold if and only if both magics are there and the bitmap blocks have as many bits as blocks are in use |
| Build.StagedVolumeReads | tools/befs_get.py:73-162 | every path of a built image gives the host tree's answer, or behind a file what its bytes decide, when the root fits one leaf; every nonempty path fails otherwise |
| Build.FixtureBitmap | tools/mkbefs.py:297-322 | the fixture's allocations, its hole and its marking loop: 30 blocks allocated and counted, the hole alone is free |
| BuiltVolume.BuiltSuper | tools/mkbefs.py:435-457 | every superblock field that `befs_dump` reads from a built image: name, sizes, counts, groups, the empty log, root and indices |
| BuiltVolume.BuiltMagics | tools/mkbefs.py:435-457 | the three magics, the byte order, the clean flag and the blocks per group |
| BuiltVolume.BuiltIndices | tools/mkbefs.py:603-680 | the index run leads to a directory of exactly four empty indices whose inodes and trees say their key types, and the used count is the number of bits in the bitmap |
| DumpVolume.ReadRuns | tools/befs_dump.py:90-97 | the nonempty direct runs, where an empty one does not end the array |
| DumpVolume.ReadSlices | tools/befs_dump.py:99-105 | the byte ranges of the runs, joined |
| DumpVolume.DumpStreamReads | tools/befs_dump.py:90-105 | the stream of a written inode, cut to its size |
| DumpVolume.DumpDirectoryReads | tools/befs_dump.py:127-153 | a stored directory read by `befs_dump` is its entry list if and only if it has at most 4097 leaves |
| Utf8Text.DecodableIff | tools/befs_dump.py:49 | a volume name decodes if and only if it is the UTF-8 encoding of some text |
| Journal.Mkdirty | tools/befs_mkdirty.py:37-72 | on any bytes: the injection succeeds exactly for a readable superblock with a name that decodes, a clean log, a README.TXT and fields that can be packed; a log that is not empty is refused as dirty; and where the transaction lies inside the image the result has exactly that transaction pending: two log blocks more, the run record, the old content, the dirty flag, all else unchanged |
| Journal.DataAreaKeptIff | tools/befs_mkdirty.py:57-67 | the data area is untouched if and only if the transaction does not pass the end of the log or the overwritten block already holds the content |
| Journal.RunArrayDecodes | tools/befs_mkdirty.py:58-63 | the run record decodes to one run of one block, the journaled one, for every group size |
| Journal.InjectionPends | tools/befs_mkdirty.py:55-72 | on any bytes where the transaction fits: the injected image opens with the log end two further and all else equal, the log block at its start asks for one block to be written to the target, the next is what the target held, and no other byte of the image changes but the three superblock words |
| Journal.SecondInjectionRefused | tools/befs_mkdirty.py:39-40 | an image with a pending transaction cannot be injected again |
| Journal.BuiltTransactionFits | tools/befs_mkdirty.py:55-67 | on a built image the transaction fits wherever its log stands |
| Journal.ReplayIsNoOpIff | tools/befs_mkdirty.py:4-16 | replaying the pending transaction by the bytes alone gives the image back if and only if README.TXT is not an empty file |
| Journal.TargetIs | tools/befs_mkdirty.py:43-53 | on a built image there is a block to journal if and only if the root fits one leaf and has a README.TXT: its first block, file or directory, and block 0 for an empty file |
| Journal.LargeRootUndumpable | tools/befs_dump.py:127-153 | a root directory of more than one leaf cannot be read by `befs_dump` either |
| Journal.BuiltClean | tools/mkbefs.py:435-457 | a built image is marked clean |
| Journal.FreshLog | tools/mkbefs.py:449-452 | a fresh image has an empty log at position 2 that the tool accepts and that does not wrap |
| Journal.FreshImageInjectable | tools/befs_mkdirty.py:37-72 | a fresh image can be injected if and only if its root fits one leaf and has a README.TXT |
| Journal.InjectionHarmless | tools/befs_mkdirty.py:37-72 | without wrapping the data area is untouched and the injected image still holds the staged tree |
| JournalPaths.InjectionKeepsPaths | tools/befs_mkdirty.py:37-72 | every path that does not go on behind a file parsing as a tree gets the same answer before and after, with the same bytes and listing; behind such a file each image answers by its own blocks |
| JournalPaths.InjectionLogOnly | tools/befs_mkdirty.py:64-72 | whatever block number a reader uses, negative ones included, only the two log blocks and block 0 behind its front read differently |
| JournalPaths.OneNameBehindIff | tools/befs_mkdirty.py:64-72 | one name behind a tree file gets another answer if and only if its entry names a log block and that block changes between directory, file and no inode |
| JournalPaths.QuietPathsKept | tools/befs_mkdirty.py:64-72 | a longer path behind a file is kept when its walk stays clear of the log and of block 0 |
| JournalPaths.InjectionChangesPath | tools/befs_mkdirty.py:37-72 | a host tree with a path that is an error before the injection and is found after it |
| Journal.ReplayChangesNothingIff | tools/befs_mkdirty.py:51-72 | writing the journaled content back changes nothing if and only if README.TXT is not an empty file |
| Journal.WrappedInjectionBreaksRoot | tools/befs_mkdirty.py:56-67 | at the last log position the content replaces the root inode, which is an inode if and only if the content has the magic; otherwise the root can no longer be read |
| Leb128.Accumulate | userspace/gnat-rts/gnat/unwind-pe.h:130-174 | the shift-and-or loop yields the value modulo 2^64 and stops after the encoded bytes |
| Leb128.ReadUleb128 | userspace/gnat-rts/gnat/unwind-pe.h:130-148 | the unsigned value of section 7.6 of DWARF 5, and exactly the encoded bytes consumed |
| Leb128.ReadSleb128 | userspace/gnat-rts/gnat/unwind-pe.h:152-174 | the signed value of section 7.6 of DWARF 5, and exactly the encoded bytes consumed |
| Leb128.SignExtension | userspace/gnat-rts/gnat/unwind-pe.h:168-171 | or-ing the negated power of two gives the two's-complement word of the signed value |
| Leb128.UlebRoundTrip | userspace/gnat-rts/gnat/unwind-pe.h:130-148 | every unsigned 64-bit value survives the canonical encoder and decoding, wherever it is stored |
| Leb128.SlebRoundTrip | userspace/gnat-rts/gnat/unwind-pe.h:152-174 | every signed 64-bit value does |
| Lsda.CoveringUnique | userspace/gnat-rts/gnat/raise-gcc.c:863-944 | in a sorted, non-overlapping table at most one record covers an address |
| Lsda.FindSite | userspace/gnat-rts/gnat/raise-gcc.c:863-944 | the early-exit byte scan finds exactly the covering record |
| Lsda.WalkChain | userspace/gnat-rts/gnat/raise-gcc.c:1242-1305 | the chain walk finds the first positive filter that matches or has no entry, else a cleanup if any filter is zero, else nothing |
| Lsda.TableRoundTrip | userspace/gnat-rts/gnat/raise-gcc.c:875-904 | every call-site table with 64-bit fields has bytes that parse to it |
| Lsda.ChainRoundTrip | userspace/gnat-rts/gnat/raise-gcc.c:1242-1305 | every chain of 64-bit filters has bytes that parse to it |
| Lsda.ChainsRoundTrip | userspace/gnat-rts/gnat/raise-gcc.c:1242-1305 | chains printed one after the other are each found at their offset |
| Lsda.RegionRoundTrip | userspace/gnat-rts/gnat/raise-gcc.c:671-721 | printed data, with or without landing-pad base and type table, are found again by the region decoder |
| Lsda.SizeMatchesRead | userspace/gnat-rts/gnat/unwind-pe.h:71-89 | a value of a fixed-size encoding takes exactly the size the type table is indexed by |
| Encodings.EncodedRoundTrip | userspace/gnat-rts/gnat/unwind-pe.h:186-292 | for every format and every base a printed value is read as its distance from the origin of the encoding, zero as zero, an indirect one through its cell |
| Encodings.AlignedReads | userspace/gnat-rts/gnat/unwind-pe.h:203-209 | an aligned pointer is the word at the next multiple of eight |
| Unwind.PrintedFrame | userspace/gnat-rts/gnat/raise-gcc.c:655-721 | every layout printed is a well-formed frame, and filter i finds entry i of its type table |
| Unwind.PrintedSiteActs | userspace/gnat-rts/gnat/raise-gcc.c:1127-1306 | in every printed frame a call in a site without landing pad gets nothing, without action a cleanup, otherwise the first filter whose type entry takes the occurrence decides, and without any a zero filter means cleanup |
| Unwind.PrintedForced | userspace/gnat-rts/gnat/raise-gcc.c:1270-1272 | in a forced unwind such a frame cleans up or does nothing, exactly as its site and its zero filters say |
| Unwind.PrintedElsewhere | userspace/gnat-rts/gnat/raise-gcc.c:863-944 | a call outside all sites gets nothing |
| Unwind.ChoiceFramesExist | userspace/gnat-rts/gnat/raise-gcc.c:1127-1197 | for every choice there is a frame in which it decides alone: all-others catches everything, others every foreign occurrence and exactly the Ada ones that let it, unhandled-others is an unhandler for Ada ones only, the foreign id catches every foreign one, and any choice the Ada occurrence of its own id and the foreign ones that accept it |
| Unwind.HandlerFramesExist | userspace/gnat-rts/gnat/raise-gcc.c:1202-1306 | for every exception and every filter below 2^60 there are bytes and a frame whose handler is found by that filter |
| Unwind.HandlerEnteredAsCleanup | userspace/gnat-rts/gnat/raise-gcc.c:1475-1476 | a frame whose handler is found by filter 2^32 and entered with the cleanup value |
| Unwind.EntriesPreventAbort | userspace/gnat-rts/gnat/raise-gcc.c:1278-1279 | with an entry for every positive filter the routine never aborts |
| Unwind.OmittedTableAborts | userspace/gnat-rts/gnat/unwind-pe.h:261-262 | without a type table a positive filter aborts, unless the unwind is forced |
| Unwind.NarrowKeepsIff | userspace/gnat-rts/gnat/raise-gcc.c:1312-1316 | the filter handed on is the one found if and only if it is below 2^31, and the cleanup value exactly for multiples of 2^32 |
| Unwind.GetAction | userspace/gnat-rts/gnat/raise-gcc.c:1202-1306 | table scan and chain walk over the bytes equal the decision for the frame, the abort on a missing type entry included; PrintedSiteActs says what it is for every layout and every kind of choice |
| Unwind.ForcedFindsNoHandler | userspace/gnat-rts/gnat/raise-gcc.c:1270-1272 | a forced unwind finds nothing or a cleanup in every frame |
| Unwind.Personality | userspace/gnat-rts/gnat/raise-gcc.c:1384-1486 | the answer per phase: go on, handler found, install landing pad and narrowed filter, or abort |
| Unwind.Search | userspace/gnat-rts/gnat/raise-gcc.c:1424-1468 | the search phase stops at the innermost frame that catches or aborts |
| Unwind.Raise | userspace/gnat-rts/gnat/raise-gcc.c:1384-1486 | if the search stops at frame k, the cleanup phase enters exactly the filter-0 cleanups before k and then the landing pad the search found, with the same filter if and only if it is below 2^31; nothing is entered when the search aborts |
| Unwind.ForcedUnwind | userspace/gnat-rts/gnat/raise-gcc.c:1384-1486 | a forced unwind enters cleanups only, over the whole stack |
| SocketTable.FirstFree | userspace/gnat-rts/gnat_user/aegir_gsocket.c:267-282 | the lowest free descriptor, or none when all are used |
| SocketTable.StepEffect | userspace/gnat-rts/gnat_user/aegir_gsocket.c:304-364 | every operation gains, returns, releases or leaves alone one handle, and loses one exactly on a signalling close of a socket |
| SocketTable.EffectKeeps | userspace/gnat-rts/gnat_user/aegir_gsocket.c:304-364 | safety survives every effect, and a leak is never made good |
| SocketTable.HandlesOverRun | userspace/gnat-rts/gnat_user/aegir_gsocket.c:304-532 | over every run: each socket slot has an open handle of its own, nothing is closed twice, and all open handles are in slots, table full or not, if and only if no signalling close hit a socket |
| SocketTable.HandlesFromStart | userspace/gnat-rts/gnat_user/aegir_gsocket.c:304-532 | the same from the empty table of a starting program |
| SocketTable.SocketGives | userspace/gnat-rts/gnat_user/aegir_gsocket.c:304-348 | exactly when `socket` yields a descriptor: the lowest free one, holding the new handle; no other slot changes; and exactly which error it gives otherwise |
| SocketTable.AwaitDecides | userspace/gnat-rts/gnat_user/aegir_gsocket.c:487-504 | the one poll that decides an `accept` and what it decides |
| SocketTable.AcceptGives | userspace/gnat-rts/gnat_user/aegir_gsocket.c:474-532 | exactly when `accept` yields a descriptor: the lowest free one, with the peer of the deciding poll and the listener's local address; and exactly which error it gives otherwise |
| SocketTable.ListenGives | userspace/gnat-rts/gnat_user/aegir_gsocket.c:454-472 | `listen` answers 0 exactly on a live stream socket that the bridge lets listen; then that slot listens and nothing else changes |
| SocketTable.SetNonblockGives | userspace/gnat-rts/gnat_user/aegir_gsocket.c:1126-1140 | the nonblocking request answers 0 exactly on a live socket; then that flag is as asked and nothing else changes |
| SocketTable.CloseGives | userspace/gnat-rts/gnat_user/aegir_gsocket.c:351-364 | `close` answers 0 exactly on a live socket; then its handle is closed at the bridge, its descriptor free, and no other slot changes |
| SocketTable.PairGives | userspace/gnat-rts/gnat_user/aegir_gsocket.c:1163-1184 | a pair is made exactly when two descriptors are free, of the lowest two; otherwise no descriptor is taken |
| SocketTable.SignalGives | userspace/gnat-rts/gnat_user/aegir_gsocket.c:1186-1235 | what a signal read, write and close answer and change, for every descriptor |
| SocketTable.StepAsTold | userspace/gnat-rts/gnat_user/aegir_gsocket.c:267-532 | every operation keeps each slot in step with the history of calls and answers |
| SocketTable.TableFollowsHistory | userspace/gnat-rts/gnat_user/aegir_gsocket.c:267-532 | over every run a descriptor is a socket, a stream, connected, listening and nonblocking exactly as the calls since it was opened and their answers say |
| SocketTable.AcceptOverRun | userspace/gnat-rts/gnat_user/aegir_gsocket.c:474-532 | after any run `accept` yields a descriptor if and only if the socket was told to listen since it was opened, the deciding poll brings a connection and a descriptor is free |
| SocketTable.PairStep | userspace/gnat-rts/gnat_user/aegir_gsocket.c:1163-1235 | only its own reads, writes and closes touch an isolated pair |
| SocketTable.PairOverRun | userspace/gnat-rts/gnat_user/aegir_gsocket.c:1163-1235 | over every run that closes neither end, an isolated pair is a counter of its writes less its reads |
| SocketTable.FreshPairIsolatedIff | userspace/gnat-rts/gnat_user/aegir_gsocket.c:1163-1184 | a new pair is isolated if and only if no leftover write end has the number of its read end |
| SocketTable.StaleWriter | userspace/gnat-rts/gnat_user/aegir_gsocket.c:1205-1235 | a run in which a leftover write end signals a stranger |
| SocketTable.Sockets.Alloc | userspace/gnat-rts/gnat_user/aegir_gsocket.c:267-282 | the loop claims and clears the lowest free slot and no other |
| SocketTable.Sockets.OpenSocket | userspace/gnat-rts/gnat_user/aegir_gsocket.c:304-348 | the step of `socket`, its error cases and the handle given back when the table is full |
| SocketTable.Sockets.CloseSocket | userspace/gnat-rts/gnat_user/aegir_gsocket.c:351-364 | the step of the socket close |
| SocketTable.Sockets.ListenOn | userspace/gnat-rts/gnat_user/aegir_gsocket.c:454-472 | the step of `listen`, whose flag ListenGives and TableFollowsHistory pin down |
| SocketTable.Sockets.IoctlNonblock | userspace/gnat-rts/gnat_user/aegir_gsocket.c:1126-1140 | the step of the nonblocking request, whose flag SetNonblockGives and TableFollowsHistory pin down |
| SocketTable.Sockets.AcceptConnection | userspace/gnat-rts/gnat_user/aegir_gsocket.c:474-532 | the polling loop and the step of `accept` for every sequence of bridge replies |
| SocketTable.Sockets.CreateSignallingFds | userspace/gnat-rts/gnat_user/aegir_gsocket.c:1163-1184 | the step of pair creation, with the first end released when there is no room for the second |
| SocketTable.Sockets.ReadSignallingFd | userspace/gnat-rts/gnat_user/aegir_gsocket.c:1186-1203 | the step of a signal read |
| SocketTable.Sockets.WriteSignallingFd | userspace/gnat-rts/gnat_user/aegir_gsocket.c:1205-1226 | the step of a signal write, the counter wrapping at 2^32 |
| SocketTable.Sockets.CloseSignallingFd | userspace/gnat-rts/gnat_user/aegir_gsocket.c:1228-1235 | the step of a signalling close, whatever the descriptor's kind |
| SocketSend.SendStream | userspace/gnat-rts/gnat_user/aegir_gsocket.c:669-712 | for every bridge: what goes out is a prefix in chunks of at most 996, a returned count is its length, a blocking success is the whole length, and the answer is the one the rounds decide |
| SocketSend.FailureSentNothingIff | userspace/gnat-rts/gnat_user/aegir_gsocket.c:669-712 | a failed call has sent nothing, whatever the bridge does, if and only if the length fits one slot |
| SocketSend.SomeBridgeLosesBytes | userspace/gnat-rts/gnat_user/aegir_gsocket.c:676-685 | for every stream of more than one slot some bridge causes it |
| SocketSend.FailureTells | userspace/gnat-rts/gnat_user/aegir_gsocket.c:284-299 | for every bridge the errno of a failed stream send tells exactly which sticky error the deciding poll brought, that nothing could be sent without waiting, or that the send broke |
| SocketSend.SendDatagram | userspace/gnat-rts/gnat_user/aegir_gsocket.c:633-667 | a datagram goes out once exactly when its length is reported, whole for every length that is not negative; a negative one is handed on as a huge size; each error exactly for the status that decides |
| DottedQuad.ParseSound | userspace/gnat-rts/gnat_user/aegir_gsocket.c:1270-1302 | what is parsed is fields of digits of at most 255, dots between, an end behind, with those values |
| DottedQuad.ParseComplete | userspace/gnat-rts/gnat_user/aegir_gsocket.c:1270-1302 | every such text is parsed |
| DottedQuad.AcceptsExactly | userspace/gnat-rts/gnat_user/aegir_gsocket.c:1270-1302 | four octets result if and only if the text reads as four such fields with these values |
| DottedQuad.ParseDotted | userspace/gnat-rts/gnat_user/aegir_gsocket.c:1270-1302 | the character loop agrees with the parse on every string and writes no byte past the fourth |
| DottedQuad.PrintRoundTrip | userspace/gnat-rts/gnat_user/aegir_gsocket.c:1315-1332 | printed octets parse back, whatever follows the end; exactly which sizes leave room |
| Hairpin.DrainDelivers | userspace/lwip/port/aknet_glue.c:127-142 | a drain with any callbacks hands every accepted packet to `ip4_input` exactly once, in order, and the packets accepted meanwhile are the ones counted from the callbacks alone |
| Hairpin.RunIsFifo | userspace/lwip/port/aknet_glue.c:65-142 | over every run the accepted packets are the ones sent while a buffer could be had and fewer than 16 waited, counted from the operations and callbacks alone; those handed to `ip4_input` and those waiting are the accepted ones in order |
| Hairpin.WrappedDistance | userspace/lwip/port/aknet_glue.c:94-118 | the 32-bit counter difference is the true distance |
| Hairpin.WrappedSlot | userspace/lwip/port/aknet_glue.c:94-142 | the slot of a wrapped counter is the slot of the true one |
| Hairpin.SlotsApart | userspace/lwip/port/aknet_glue.c:94-118 | the slot to be written is not live |
| Hairpin.Ring.constructor | userspace/lwip/port/aknet_glue.c:68-72 | an empty queue |
| Hairpin.Ring.Enqueue | userspace/lwip/port/aknet_glue.c:94-118 | a packet is accepted exactly when there is a slot and memory, and then it is the last in the queue; otherwise nothing changes |
| Hairpin.Ring.TakeHead | userspace/lwip/port/aknet_glue.c:127-142 | the oldest packet leaves the ring and is then in flight, not delivered |
| Hairpin.Ring.Ip4Input | userspace/lwip/port/aknet_glue.c:120-142 | the one place a delivery is recorded: it takes the packet in flight, and no callback, enqueueing or draining again, nests a delivery |
| Hairpin.Ring.HairpinDrain | userspace/lwip/port/aknet_glue.c:127-142 | the drain empties the ring as specified, and does nothing when one is running |
| Listeners.RemoveSplit | userspace/lwip/port/aknet_glue.c:624-640 | deletion removes exactly the first pair of the id and keeps the others in order |
| Listeners.RemoveOther | userspace/lwip/port/aknet_glue.c:624-640 | deletion does not change what is found for other ids |
| Listeners.AddThenDelete | userspace/lwip/port/aknet_glue.c:609-640 | deletion undoes an addition |
| Listeners.RemovePops | userspace/lwip/port/aknet_glue.c:624-640 | per id the list is a stack, and deletion pops it |
| Listeners.RunFindsLatest | userspace/lwip/port/aknet_glue.c:598-640 | over every run the pcb found is the latest one added and not deleted |
| Listeners.ListenerList.FindPcb | userspace/lwip/port/aknet_glue.c:598-607 | the walk finds what the association list holds |
| Listeners.ListenerList.AddListener | userspace/lwip/port/aknet_glue.c:609-622 | a node in front, the list still acyclic; without memory nothing changes |
| Listeners.ListenerList.DeleteListener | userspace/lwip/port/aknet_glue.c:624-640 | the pointer-to-pointer walk unlinks exactly the first node of the id, the list still acyclic |

## Left out

- Build.BuildStage: the number of blocks is at most 2^44, what a run's signed group number can address; for an image that over-long attributes have shifted, the verdict is given as the self-check of its bytes and not in terms of the host tree.
- Leb128.ReadUleb128: encodings of at most ten bytes whose value fits 64 bits, since a longer shift is undefined in C.
- Leb128.ReadSleb128: the same bound.
- Lsda.FindSite: tables are sorted, do not overlap and do not wrap around the address space, as compilers emit them.
- Lsda.WalkChain: action chains are acyclic; on a cyclic one the C loop does not end.
- Hairpin.Ring.HairpinDrain: the callbacks of one drain are a finite script, so a drain kept alive forever by its callbacks is not represented.
- SocketTable.HandlesOverRun: the bridge does not hand out a handle that is still open, and a close at the bridge takes effect; calls are not interleaved with those of other threads while `accept` sleeps.
- SocketTable.Sockets.AcceptConnection: a blocking call that never gets an answer is represented as waiting.
- `bind`, `connect`, `recv`, socket options and names: forwarding calls that change no handle and no pair.
- `select` and `poll`: `select` clears the sets during its first scan, so no waiting property holds; the set helpers are single-bit updates.
- The fixture's self-check (`verify`), manifest parsing, command lines, host file access and file output: the host tree and the image are values.
- The fixture's file contents and directory entries (`tools/mkbefs.py:324-416`): only its allocations and bitmap are modelled.
- `befs_dump` output and `befs_get` tree copying: printing and host file access.
- RoundTrip.GetInvertsStream: block sizes up to 64 KiB; above that a node may hold more than its 16-bit counters say, and NodeReadsIff is the exact condition per node.
- RoundTrip.DumpInvertsStream: the same block sizes.
- JournalPaths.QuietPathsKept: one direction only; a path of several names whose walk does touch the log may or may not change.
- The version check of the readers.
- The SJLJ, SEH, ARM, CHERI and C++ interoperation branches of `raise-gcc.c`; what a foreign exception accepts is an arbitrary predicate.
- Unwind.Raise: a type-table entry that lies outside the frame's bytes counts as an abort; the C code would read whatever is there.
- The notification routines and the current-exception buffer around the two phases, and debugging output.
- DNS, DHCP, UDP, ARP and timers of `aknet_glue.c`, and the freeing of packet buffers and list nodes.
