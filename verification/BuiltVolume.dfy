/**
 What `befs_dump` finds on a built image besides the tree: every superblock field, the block count that
 the bitmap holds, and the index directory with its four typed, empty indices.
 */
module BuiltVolume {
  import opened Bytes
  import opened Bits
  import opened BPlusTree
  import opened RoundTrip
  import opened TreeSearch
  import opened BlockRuns
  import opened Inodes
  import opened Volume
  import opened Bitmap
  import opened Images
  import opened ReadBack
  import opened EndToEnd
  import opened DumpVolume
  import opened Build
  import opened Journal

  /** The superblock lies at byte 512 of the image. */
  ghost predicate SuperIs(buf: bytes, numBlocks: nat, used: nat, indices: nat, blk: nat)
  {
    && |buf| >= 1024
    && buf[512..1024] == Superblock(numBlocks, used, Reserved(numBlocks) - 1 - LOG_LEN, Reserved(numBlocks), indices, blk)
  }

  /** Every field that `befs_dump` reads: the inode size is the block size, the log is empty, and the
      shift is that of the largest power of two up to the block size. */
  lemma BuiltSuper(buf: bytes, numBlocks: nat, used: nat, indices: nat, blk: nat)
    requires ValidBlk(blk) && Reserved(numBlocks) < numBlocks <= MAX_BLOCKS && used <= numBlocks && indices < numBlocks
    requires SuperIs(buf, numBlocks, used, indices, blk)
    ensures OpenBefs(buf).Ok?
    ensures var b := OpenBefs(buf).value;
            && b.name == [66, 101, 102, 115] && b.blk == b.inodeSize == blk && b.numBlocks == numBlocks && b.used == used
            && b.numAgs + 1 + 512 == b.root == Reserved(numBlocks) && b.group == 8192
            && b.log == Run(1 + b.numAgs, 512) && b.logStart == b.logEnd == 2 && b.indices == indices
            && Pow2(b.shift) <= blk < 2 * Pow2(b.shift)
  {
    hide Encode, Rblk, Superblock, ReadRun, Pow2, Utf8, UpToZero, U32, I64, Shift, Reserved;
    assert Reserved(numBlocks) >= 1 + LOG_LEN by { ReservedSplit(numBlocks); }
    var sb, ags := buf[512..1024], Reserved(numBlocks) - 1 - LOG_LEN;
    FreshLog(buf, numBlocks, used, indices, blk);
    SuperFields(numBlocks, used, ags, Reserved(numBlocks), indices, blk);
    SuperCounts(numBlocks, used, ags, Reserved(numBlocks), indices, blk);
    ReservedSplit(numBlocks);
    ShiftBounds(blk);
    ReadU32(sb, 44, Shift(blk));
    ReadI64(sb, 56, used);
    ReadU32(sb, 64, blk);
    ReadU32(sb, 80, ags);
    RunRoundTrip(sb, 124, indices, 1);
    NameDecodes(sb);
  }

  lemma ReservedSplit(numBlocks: nat)
    requires numBlocks <= MAX_BLOCKS
    ensures 1 + LOG_LEN <= Reserved(numBlocks) < 0x1_0000_0000
  {
  }

  /** The words that mark a volume, and one that no tool here reads. */
  lemma BuiltMagics(buf: bytes, numBlocks: nat, used: nat, indices: nat, blk: nat)
    requires numBlocks <= MAX_BLOCKS && SuperIs(buf, numBlocks, used, indices, blk)
    ensures var sb := buf[512..1024];
            && U32(sb, 32) == Ok(0x42465331) && U32(sb, 36) == Ok(0x42494745) && U32(sb, 68) == Ok(0xDD121031)
            && U32(sb, 72) == Ok(1) && U32(sb, 84) == Ok(0x434C454E) && U32(sb, 112) == Ok(0x15B6830E)
  {
    hide Encode, Rblk, Superblock, U32, Shift, Reserved;
    assert Reserved(numBlocks) >= 1 + LOG_LEN by { ReservedSplit(numBlocks); }
    var sb, ags := buf[512..1024], Reserved(numBlocks) - 1 - LOG_LEN;
    SuperFields(numBlocks, used, ags, Reserved(numBlocks), indices, blk);
    SuperCounts(numBlocks, used, ags, Reserved(numBlocks), indices, blk);
    ReadU32(sb, 32, 0x42465331);
    ReadU32(sb, 36, 0x42494745);
    ReadU32(sb, 68, 0xDD121031);
    ReadU32(sb, 72, 1);
    ReadU32(sb, 84, 0x434C454E);
    ReadU32(sb, 112, 0x15B6830E);
  }

  // ---------------------------------------------------------------------------
  // The indices
  // ---------------------------------------------------------------------------

  /** An inode in block `b` that belongs to directory `parent`, with this mode and type code, over a tree
      with keys of this type. */
  ghost predicate IndexTells(v: Vol, b: int, parent: int, mode: nat, typeCode: nat, keyType: nat)
  {
    && GetInode(v, b).Ok?
    && var node := GetInode(v, b).value;
    && ReadRun(node, 4, GROUPSIZE) == Ok(Run(b, 1)) && ReadRun(node, 44, GROUPSIZE) == Ok(Run(parent, 1))
    && U32(node, 20) == Ok(mode) && U32(node, 60) == Ok(typeCode)
    && StreamBytes(v, node).Ok? && U32(StreamBytes(v, node).value, 12) == Ok(keyType)
  }

  lemma TreeTells(v: Vol, dataType: nat, es: seq<Entry>, meta: Meta, stream: nat)
    requires ValidBlk(v.blk) && v.group == GROUPSIZE && TreeStored(v.data, dataType, es, meta, stream, v.blk)
    requires meta.attrs == [] && meta.runs == [Run(stream, 2)] && stream + 2 <= MAX_BLOCKS
    requires meta.mode < 0x1_0000_0000 && meta.size < MAX_I64 && Fits(es, v.blk)
    requires meta.block < MAX_BLOCKS && meta.parent < MAX_BLOCKS && meta.typeCode < 0x1_0000_0000 && dataType < 0x1_0000_0000
    ensures IndexTells(v, meta.block, meta.parent, meta.mode, meta.typeCode, dataType)
  {
    hide BlockOf, InodeBytes, Stream, PageCount, Fits, SmallData, ReadRun, U32, I64, RunsFrom, RunReader, StreamBytes, GetInode;
    EmptySmallData();
    assert Tiles(meta.runs, stream, 2) by {
      assert meta.runs[1..] == [];
    }
    StreamReads(v, meta.block, meta, stream, 2);
    InodeReadsBack(meta, v.blk);
    InodeIdentifies(meta, v.blk);
    SmallTree(dataType, es, v.blk);
    CopyJoins(v.data, Stream(dataType, es, v.blk).value, stream, 2, v.blk);
    StreamHeader(dataType, es, v.blk);
  }

  /** Names of the indices, in the order they are made. */
  function IndexName(i: nat): bytes
    requires i < 4
  {
    [NAME, SIZE, LAST_MODIFIED, APP_SIG][i]
  }

  /** The index run of the superblock leads to a directory of exactly four indices. Each is an empty
      tree; the two for names and signatures have string keys, the two for sizes and times 64-bit
      integer keys, and their inodes say so. The used count is the number of bits in the bitmap. */
  lemma BuiltIndices(buf: bytes, numBlocks: nat, used: nat, indices: nat, blk: nat, i: nat)
    requires ValidBlk(blk) && Reserved(numBlocks) < numBlocks <= MAX_BLOCKS && used <= numBlocks && indices + 15 <= numBlocks
    requires SuperIs(buf, numBlocks, used, indices, blk) && IndicesStored(buf, indices, blk) && i < 4
    requires Open(buf) == Ok(Vol(buf, blk, GROUPSIZE, Reserved(numBlocks)))
    requires Popcount(Flatten(BlocksOf(buf, 1, Reserved(numBlocks) - 1 - LOG_LEN, blk))) == used
    ensures OpenBefs(buf).Ok?
    ensures var v, b := Open(buf).value, OpenBefs(buf).value;
            && b.used == Popcount(Flatten(BlocksOf(buf, 1, b.numAgs, b.blk)))
            && DirEntries(v, b.indices).Ok?
            && var es := DirEntries(v, b.indices).value;
            && |es| == 4 && es[i].key == IndexName(i) && DirEntries(v, es[i].value) == Ok([])
            && IndexTells(v, b.indices, b.indices, 0x2000_0000 + 0x100_0000 + 0x4000 + 448, 0, 0)
            && (if i in {0, 3} then IndexTells(v, es[i].value, b.indices, 0x2000_0000 + 0x4000 + 0x100_0000, 0x43535452, 0)
                else IndexTells(v, es[i].value, b.indices, 0x2000_0000 + 0x4000 + 0x20_0000, 0x4C4C4E47, 3))
  {
    hide BlockOf, BlocksOf, Popcount, OpenBefs, Superblock, TreeStored, DirEntries, IndexTells, Fits, Reserved;
    BuiltSuper(buf, numBlocks, used, indices, blk);
    var v := Open(buf).value;
    IndicesRead(v, indices, numBlocks);
    IndexEntriesFit(indices + 3, blk);
    TreeTells(v, BTREE_STRING, IndexEntries(indices + 3), IndexRootMeta(indices, blk), indices + 1);
    IndexTypeTells(v, indices, i, numBlocks);
    assert IndexEntries(indices + 3)[i] == Entry(IndexName(i), indices + 3 + 3 * i);
    assert IndexEntries(indices + 3)[i] in IndexEntries(indices + 3);
  }

  lemma IndexTypeTells(v: Vol, base: nat, i: nat, limit: nat)
    requires ReadsImage(v, limit) && base + 15 <= limit && i < 4 && IndexStored(v.data, base, i, v.blk)
    ensures var ino := base + 3 + 3 * i;
            if i in {0, 3} then IndexTells(v, ino, base, 0x2000_0000 + 0x4000 + 0x100_0000, 0x43535452, 0)
            else IndexTells(v, ino, base, 0x2000_0000 + 0x4000 + 0x20_0000, 0x4C4C4E47, 3)
  {
    hide TreeStored, IndexTells, Fits;
    var ino := base + 3 + 3 * i;
    IndexEntriesFit(0, v.blk);
    TreeTells(v, IndexDataType(i), [], IndexMeta(i, ino, ino + 1, base, v.blk), ino + 1);
  }
}
