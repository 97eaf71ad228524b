/**
 `build_stage` as a whole: both passes, the index trees, the rewritten root inode, the bitmap and
 the superblock.
 */
module Build {
  import opened Bytes
  import opened Bits
  import opened BPlusTree
  import opened TreeSearch
  import opened RoundTrip
  import opened BlockRuns
  import opened Inodes
  import opened Volume
  import opened Bitmap
  import opened Images
  import opened Staging
  import opened StageWriter
  import opened ReadBack
  import opened EndToEnd
  import opened SelfCheck

  // ---------------------------------------------------------------------------
  // The superblock
  // ---------------------------------------------------------------------------

  /** "Befs" */
  const VOLUME_NAME: bytes := [66, 101, 102, 115]
  const SB_FS_LENDIAN: nat := 0x42494745
  const SB_CLEAN: nat := 0x434C454E
  const SB_MAGIC2: nat := 0xDD121031
  const SB_MAGIC3: nat := 0x15B6830E

  /** Bytes 32..96 of the superblock. */
  function SuperGeometry(numBlocks: nat, used: nat, numAgs: nat, blk: nat): (r: bytes)
    ensures |r| == 64
  {
    SuperSizes(numBlocks, used, blk) + SuperGroups(numAgs, blk)
  }

  function SuperSizes(numBlocks: nat, used: nat, blk: nat): (r: bytes)
    ensures |r| == 32
  {
    Encode(SB_MAGIC1, 4) + Encode(SB_FS_LENDIAN, 4) + Encode(blk, 4) + Encode(Shift(blk), 4)
      + Encode(numBlocks, 8) + Encode(used, 8)
  }

  function SuperGroups(numAgs: nat, blk: nat): (r: bytes)
    ensures |r| == 32
  {
    Encode(blk, 4) + Encode(SB_MAGIC2, 4) + Encode(1, 4) + Encode(AG_SHIFT, 4) + Encode(numAgs, 4)
      + Encode(SB_CLEAN, 4) + Rblk(1 + numAgs, LOG_LEN)
  }

  /** Bytes 96..132 of the superblock: the empty log, the root and the indices. */
  function SuperLinks(root: nat, indices: nat): (r: bytes)
    ensures |r| == 36
  {
    Encode(2, 8) + Encode(2, 8) + Encode(SB_MAGIC3, 4) + Rblk(root, 1) + Rblk(indices, 1)
  }

  /** `superblock` */
  function Superblock(numBlocks: nat, used: nat, numAgs: nat, root: nat, indices: nat, blk: nat): (r: bytes)
    ensures |r| == 512
  {
    VOLUME_NAME + Zeros(28) + SuperGeometry(numBlocks, used, numAgs, blk) + SuperLinks(root, indices) + Zeros(380)
  }

  lemma SuperFields(numBlocks: nat, used: nat, numAgs: nat, root: nat, indices: nat, blk: nat)
    ensures var sb := Superblock(numBlocks, used, numAgs, root, indices, blk);
            && FieldAt(sb, 32, Encode(SB_MAGIC1, 4)) && FieldAt(sb, 40, Encode(blk, 4))
            && FieldAt(sb, 48, Encode(numBlocks, 8)) && FieldAt(sb, 76, Encode(AG_SHIFT, 4))
            && FieldAt(sb, 88, Rblk(1 + numAgs, LOG_LEN)) && FieldAt(sb, 96, Encode(2, 8))
            && FieldAt(sb, 104, Encode(2, 8)) && FieldAt(sb, 116, Rblk(root, 1))
            && FieldAt(sb, 80, Encode(numAgs, 4)) && FieldAt(sb, 84, Encode(SB_CLEAN, 4)) && FieldAt(sb, 112, Encode(SB_MAGIC3, 4))
            && FieldAt(sb, 0, VOLUME_NAME + Zeros(28))
  {
    hide Encode, Rblk, SuperGeometry, SuperLinks;
    var sb := Superblock(numBlocks, used, numAgs, root, indices, blk);
    var g, l := SuperGeometry(numBlocks, used, numAgs, blk), SuperLinks(root, indices);
    GeometryFields(numBlocks, used, numAgs, blk);
    LinkFields(root, indices);
    SuperParts(g, l);
    hide Superblock, FieldAt;
    FieldInField(sb, 32, g, 0, Encode(SB_MAGIC1, 4));
    FieldInField(sb, 32, g, 8, Encode(blk, 4));
    FieldInField(sb, 32, g, 16, Encode(numBlocks, 8));
    FieldInField(sb, 32, g, 44, Encode(AG_SHIFT, 4));
    FieldInField(sb, 32, g, 56, Rblk(1 + numAgs, LOG_LEN));
    FieldInField(sb, 96, l, 0, Encode(2, 8));
    FieldInField(sb, 96, l, 8, Encode(2, 8));
    FieldInField(sb, 96, l, 20, Rblk(root, 1));
    FieldInField(sb, 32, g, 48, Encode(numAgs, 4));
    FieldInField(sb, 32, g, 52, Encode(SB_CLEAN, 4));
    FieldInField(sb, 96, l, 16, Encode(SB_MAGIC3, 4));
  }

  /** The fields that only `befs_dump` and the file system itself look at. */
  lemma SuperCounts(numBlocks: nat, used: nat, numAgs: nat, root: nat, indices: nat, blk: nat)
    ensures var sb := Superblock(numBlocks, used, numAgs, root, indices, blk);
            && FieldAt(sb, 36, Encode(SB_FS_LENDIAN, 4)) && FieldAt(sb, 44, Encode(Shift(blk), 4)) && FieldAt(sb, 56, Encode(used, 8))
            && FieldAt(sb, 64, Encode(blk, 4)) && FieldAt(sb, 68, Encode(SB_MAGIC2, 4)) && FieldAt(sb, 72, Encode(1, 4))
            && FieldAt(sb, 124, Rblk(indices, 1))
  {
    hide Encode, Rblk, SuperGeometry, SuperLinks, Shift;
    var sb := Superblock(numBlocks, used, numAgs, root, indices, blk);
    var g, l := SuperGeometry(numBlocks, used, numAgs, blk), SuperLinks(root, indices);
    GeometryCounts(numBlocks, used, numAgs, blk);
    IndexField(root, indices);
    SuperParts(g, l);
    hide Superblock, FieldAt;
    FieldInField(sb, 32, g, 4, Encode(SB_FS_LENDIAN, 4));
    FieldInField(sb, 32, g, 12, Encode(Shift(blk), 4));
    FieldInField(sb, 32, g, 24, Encode(used, 8));
    FieldInField(sb, 32, g, 32, Encode(blk, 4));
    FieldInField(sb, 32, g, 36, Encode(SB_MAGIC2, 4));
    FieldInField(sb, 32, g, 40, Encode(1, 4));
    FieldInField(sb, 96, l, 28, Rblk(indices, 1));
  }

  lemma IndexField(root: nat, indices: nat)
    ensures FieldAt(SuperLinks(root, indices), 28, Rblk(indices, 1))
  {
    hide Encode, Rblk;
  }

  lemma GeometryCounts(numBlocks: nat, used: nat, numAgs: nat, blk: nat)
    ensures var g := SuperGeometry(numBlocks, used, numAgs, blk);
            && FieldAt(g, 4, Encode(SB_FS_LENDIAN, 4)) && FieldAt(g, 12, Encode(Shift(blk), 4)) && FieldAt(g, 24, Encode(used, 8))
            && FieldAt(g, 32, Encode(blk, 4)) && FieldAt(g, 36, Encode(SB_MAGIC2, 4)) && FieldAt(g, 40, Encode(1, 4))
  {
    hide Encode, Rblk, Shift, SuperSizes, SuperGroups;
    var g, a, b := SuperGeometry(numBlocks, used, numAgs, blk), SuperSizes(numBlocks, used, blk), SuperGroups(numAgs, blk);
    SizeCounts(numBlocks, used, blk);
    GroupCounts(numAgs, blk);
    assert FieldAt(g, 0, a) && FieldAt(g, 32, b);
    hide FieldAt;
    FieldInField(g, 0, a, 4, Encode(SB_FS_LENDIAN, 4));
    FieldInField(g, 0, a, 12, Encode(Shift(blk), 4));
    FieldInField(g, 0, a, 24, Encode(used, 8));
    FieldInField(g, 32, b, 0, Encode(blk, 4));
    FieldInField(g, 32, b, 4, Encode(SB_MAGIC2, 4));
    FieldInField(g, 32, b, 8, Encode(1, 4));
  }

  lemma SizeCounts(numBlocks: nat, used: nat, blk: nat)
    ensures var a := SuperSizes(numBlocks, used, blk);
            FieldAt(a, 4, Encode(SB_FS_LENDIAN, 4)) && FieldAt(a, 12, Encode(Shift(blk), 4)) && FieldAt(a, 24, Encode(used, 8))
  {
    hide Encode, Shift;
  }

  lemma GroupCounts(numAgs: nat, blk: nat)
    ensures var b := SuperGroups(numAgs, blk);
            FieldAt(b, 0, Encode(blk, 4)) && FieldAt(b, 4, Encode(SB_MAGIC2, 4)) && FieldAt(b, 8, Encode(1, 4))
  {
    hide Encode, Rblk;
  }

  lemma SuperParts(g: bytes, l: bytes)
    requires |g| == 64 && |l| == 36
    ensures var sb := VOLUME_NAME + Zeros(28) + g + l + Zeros(380);
            FieldAt(sb, 0, VOLUME_NAME + Zeros(28)) && FieldAt(sb, 32, g) && FieldAt(sb, 96, l)
  {
    hide Zeros;
  }

  lemma LinkFields(root: nat, indices: nat)
    ensures FieldAt(SuperLinks(root, indices), 0, Encode(2, 8)) && FieldAt(SuperLinks(root, indices), 8, Encode(2, 8))
    ensures FieldAt(SuperLinks(root, indices), 16, Encode(SB_MAGIC3, 4)) && FieldAt(SuperLinks(root, indices), 20, Rblk(root, 1))
  {
    hide Encode, Rblk;
  }

  lemma GeometryFields(numBlocks: nat, used: nat, numAgs: nat, blk: nat)
    ensures var g := SuperGeometry(numBlocks, used, numAgs, blk);
            && FieldAt(g, 0, Encode(SB_MAGIC1, 4)) && FieldAt(g, 8, Encode(blk, 4))
            && FieldAt(g, 16, Encode(numBlocks, 8)) && FieldAt(g, 44, Encode(AG_SHIFT, 4))
            && FieldAt(g, 48, Encode(numAgs, 4)) && FieldAt(g, 52, Encode(SB_CLEAN, 4)) && FieldAt(g, 56, Rblk(1 + numAgs, LOG_LEN))
  {
    hide Encode, Rblk, Shift, SuperSizes, SuperGroups;
    var g, a, b := SuperGeometry(numBlocks, used, numAgs, blk), SuperSizes(numBlocks, used, blk), SuperGroups(numAgs, blk);
    SizeFields(numBlocks, used, blk);
    GroupFields(numAgs, blk);
    assert FieldAt(g, 0, a) && FieldAt(g, 32, b);
    hide FieldAt;
    FieldInField(g, 0, a, 0, Encode(SB_MAGIC1, 4));
    FieldInField(g, 0, a, 8, Encode(blk, 4));
    FieldInField(g, 0, a, 16, Encode(numBlocks, 8));
    FieldInField(g, 32, b, 12, Encode(AG_SHIFT, 4));
    FieldInField(g, 32, b, 16, Encode(numAgs, 4));
    FieldInField(g, 32, b, 20, Encode(SB_CLEAN, 4));
    FieldInField(g, 32, b, 24, Rblk(1 + numAgs, LOG_LEN));
  }

  lemma SizeFields(numBlocks: nat, used: nat, blk: nat)
    ensures var a := SuperSizes(numBlocks, used, blk);
            FieldAt(a, 0, Encode(SB_MAGIC1, 4)) && FieldAt(a, 8, Encode(blk, 4)) && FieldAt(a, 16, Encode(numBlocks, 8))
  {
    hide Encode, Shift;
  }

  lemma GroupFields(numAgs: nat, blk: nat)
    ensures var b := SuperGroups(numAgs, blk);
            && FieldAt(b, 12, Encode(AG_SHIFT, 4)) && FieldAt(b, 16, Encode(numAgs, 4)) && FieldAt(b, 20, Encode(SB_CLEAN, 4))
            && FieldAt(b, 24, Rblk(1 + numAgs, LOG_LEN))
  {
    hide Encode, Rblk;
  }

  lemma Pow2Group()
    ensures Pow2(AG_SHIFT) == GROUPSIZE
  {
  }

  /** An image whose bytes 512..1024 are its superblock opens with its own geometry. */
  lemma OpensAs(data: bytes, numBlocks: nat, used: nat, numAgs: nat, root: nat, indices: nat, blk: nat)
    requires |data| >= 1024 && data[512..1024] == Superblock(numBlocks, used, numAgs, root, indices, blk)
    requires blk < 0x1_0000_0000 && root < MAX_BLOCKS
    ensures Open(data) == Ok(Vol(data, blk, GROUPSIZE, root))
  {
    hide Encode, Rblk, Superblock, Pow2, ReadRun;
    var sb := data[512..1024];
    SuperFields(numBlocks, used, numAgs, root, indices, blk);
    ReadU32(sb, 32, SB_MAGIC1);
    ReadU32(sb, 40, blk);
    ReadU32(sb, 76, AG_SHIFT);
    Pow2Group();
    RunRoundTrip(sb, 116, root, 1);
  }

  /** Writing the superblock changes only block 0. */
  lemma PatchSuperblock(buf: bytes, numBlocks: nat, blk: nat, sb: bytes, n: nat)
    requires ValidBlk(blk) && |buf| >= numBlocks * blk && |sb| == 512 && 0 < n < numBlocks
    ensures |Splice(buf, 512, 1024, sb)| == |buf| && |buf| >= 1024
    ensures Splice(buf, 512, 1024, sb)[512..1024] == sb
    ensures BlockOf(Splice(buf, 512, 1024, sb), n, blk) == BlockOf(buf, n, blk)
  {
    BlockBounds(n, numBlocks, blk);
    BlocksApart(0, n, blk);
    assert 1 * blk == blk;
    var out := Splice(buf, 512, 1024, sb);
    assert out == buf[..512] + sb + buf[1024..];
    assert out[n * blk..(n + 1) * blk] == buf[n * blk..(n + 1) * blk];
  }

  // ---------------------------------------------------------------------------
  // The index trees
  // ---------------------------------------------------------------------------

  const B_STRING_TYPE: nat := 0x43535452
  const B_INT64_TYPE: nat := 0x4C4C4E47
  const INDEX_ROOT_MODE: nat := S_INDEX_DIR + S_STR_INDEX + S_IFDIR + 448

  /** A tree of one leaf and its inode are in the image. */
  ghost predicate TreeStored(buf: bytes, dataType: nat, es: seq<Entry>, meta: Meta, stream: nat, blk: nat)
    requires ValidBlk(blk)
  {
    && InodeBytes(meta, blk) == Ok(BlockOf(buf, meta.block, blk))
    && Stream(dataType, es, blk).Ok?
    && forall k: nat :: k < 2 ==> BlockOf(buf, stream + k, blk) == BlockOf(Stream(dataType, es, blk).value, k, blk)
  }

  /** One tree that fits a single leaf, with its inode: three blocks. */
  method WriteSmallTree(img: Image, dataType: nat, es: seq<Entry>, meta: Meta, stream: nat)
    requires img.Shape() && Fits(es, img.blk)
    requires meta.attrs == [] && meta.runs == [Run(stream, 2)] && meta.block < img.numBlocks
    requires stream + 2 <= img.numBlocks && !(stream <= meta.block < stream + 2)
    modifies img`buf
    ensures img.Shape() && |img.buf| == |old(img.buf)| && TreeStored(img.buf, dataType, es, meta, stream, img.blk)
    ensures forall n: nat :: n < img.numBlocks && n != meta.block && !(stream <= n < stream + 2) ==>
              BlockOf(img.buf, n, img.blk) == old(BlockOf(img.buf, n, img.blk))
  {
    hide BlockOf, Stream, InodeBytes, PageCount;
    var s := BtreeStream(dataType, es, img.blk);
    SmallTree(dataType, es, img.blk);
    PutStream(img, s.value, stream, 2);
    var node := InodeBytes(meta, img.blk);
    EmptySmallData();
    img.PutBlock(meta.block, node.value);
  }

  lemma SmallTree(dataType: nat, es: seq<Entry>, blk: nat)
    requires ValidBlk(blk) && Fits(es, blk)
    ensures Stream(dataType, es, blk).Ok? && |Stream(dataType, es, blk).value| == 2 * blk
  {
    OneChunk(es, blk);
    StreamLength(dataType, es, blk);
  }

  lemma EmptySmallData()
    ensures |SmallData([])| == 8
  {
  }

  /** Key type of the four indices, in the order they are made: name, size, last_modified and
      BEOS:APP_SIG. */
  function IndexDataType(i: nat): nat
  {
    if i == 0 || i == 3 then BTREE_STRING else BTREE_INT64
  }

  function IndexMeta(i: nat, ino: nat, stream: nat, parent: nat, blk: nat): Meta
  {
    var isString := i == 0 || i == 3;
    Meta(ino, S_INDEX_DIR + S_IFDIR + (if isString then S_STR_INDEX else S_LONG_LONG_INDEX),
         parent, [], [Run(stream, 2)], 2 * blk, if isString then B_STRING_TYPE else B_INT64_TYPE)
  }

  function IndexEntries(first: nat): seq<Entry>
  {
    [Entry(NAME, first), Entry(SIZE, first + 3), Entry(LAST_MODIFIED, first + 6), Entry(APP_SIG, first + 9)]
  }

  lemma IndexEntriesFit(first: nat, blk: nat)
    requires ValidBlk(blk)
    ensures Fits(IndexEntries(first), blk) && Fits([], blk)
  {
    var es := IndexEntries(first);
    var k1: seq<bytes>, k2: seq<bytes> := [SIZE, LAST_MODIFIED, APP_SIG], [LAST_MODIFIED, APP_SIG];
    var k3: seq<bytes> := [APP_SIG];
    assert Keys(es) == [NAME] + k1 && k1 == [SIZE] + k2 && k2 == [LAST_MODIFIED] + k3;
    assert |Flatten(k3)| == 12 && |Flatten(k2)| == 25 && |Flatten(k1)| == 29;
    assert |KeyData(es)| == 33;
    assert KeyData([]) == [];
  }

  function IndexRootMeta(base: nat, blk: nat): Meta
  {
    Meta(base, INDEX_ROOT_MODE, base, [], [Run(base + 1, 2)], 2 * blk, 0)
  }

  ghost predicate IndexStored(buf: bytes, base: nat, i: nat, blk: nat)
    requires ValidBlk(blk)
  {
    var ino := base + 3 + 3 * i;
    TreeStored(buf, IndexDataType(i), [], IndexMeta(i, ino, ino + 1, base, blk), ino + 1, blk)
  }

  /** The index directory names four empty indices. */
  ghost predicate IndicesStored(buf: bytes, base: nat, blk: nat)
    requires ValidBlk(blk)
  {
    && TreeStored(buf, BTREE_STRING, IndexEntries(base + 3), IndexRootMeta(base, blk), base + 1, blk)
    && forall i: nat :: i < 4 ==> IndexStored(buf, base, i, blk)
  }

  lemma TreeFrame(buf: bytes, buf': bytes, dataType: nat, es: seq<Entry>, meta: Meta, blk: nat)
    requires ValidBlk(blk) && TreeStored(buf, dataType, es, meta, meta.block + 1, blk)
    requires SameBlocks(buf, buf', meta.block, meta.block + 3, blk)
    ensures TreeStored(buf', dataType, es, meta, meta.block + 1, blk)
  {
    hide BlockOf, InodeBytes, Stream;
  }

  lemma IndexFrame(buf: bytes, buf': bytes, base: nat, i: nat, blk: nat)
    requires ValidBlk(blk) && IndexStored(buf, base, i, blk)
    requires SameBlocks(buf, buf', base + 3 + 3 * i, base + 6 + 3 * i, blk)
    ensures IndexStored(buf', base, i, blk)
  {
    hide BlockOf, TreeStored;
    var ino := base + 3 + 3 * i;
    TreeFrame(buf, buf', IndexDataType(i), [], IndexMeta(i, ino, ino + 1, base, blk), blk);
  }

  lemma IndicesFrame(buf: bytes, buf': bytes, base: nat, blk: nat)
    requires ValidBlk(blk) && IndicesStored(buf, base, blk)
    requires SameBlocks(buf, buf', base, base + 15, blk)
    ensures IndicesStored(buf', base, blk)
  {
    hide BlockOf, TreeStored, IndexStored, IndexEntries;
    TreeFrame(buf, buf', BTREE_STRING, IndexEntries(base + 3), IndexRootMeta(base, blk), blk);
    forall i: nat | i < 4
      ensures IndexStored(buf', base, i, blk)
    {
      IndexFrame(buf, buf', base, i, blk);
    }
  }

  /** Both readers' view of a stored single-leaf tree: its entries. */
  lemma TreeReads(v: Vol, dataType: nat, es: seq<Entry>, meta: Meta, stream: nat)
    requires ValidBlk(v.blk) && v.group == GROUPSIZE && TreeStored(v.data, dataType, es, meta, stream, v.blk)
    requires meta.attrs == [] && meta.runs == [Run(stream, 2)] && stream + 2 <= MAX_BLOCKS
    requires meta.mode < 0x1_0000_0000 && meta.size < MAX_I64 && Fits(es, v.blk) && ValuesInRange(es)
    ensures DirEntries(v, meta.block) == Ok(es)
  {
    hide BlockOf, InodeBytes, Stream, PageCount, DirEntries, ValuesInRange, Fits, SmallData;
    EmptySmallData();
    TwoPages(dataType, es, v.blk);
    assert Tiles(meta.runs, stream, 2) by {
      assert meta.runs[1..] == [];
    }
    DirectoryReads(dataType, v, meta.block, meta, es, stream);
  }

  lemma TwoPages(dataType: nat, es: seq<Entry>, blk: nat)
    requires ValidBlk(blk) && Fits(es, blk)
    ensures PageCount(es, blk) == 2
  {
    OneChunk(es, blk);
  }

  lemma IndexReads(v: Vol, base: nat, i: nat, limit: nat)
    requires ReadsImage(v, limit) && IndexStored(v.data, base, i, v.blk) && base + 6 + 3 * i <= limit
    ensures DirEntries(v, base + 3 + 3 * i) == Ok([])
  {
    hide DirEntries, TreeStored, Fits;
    IndexEntriesFit(0, v.blk);
    var ino := base + 3 + 3 * i;
    TreeReads(v, IndexDataType(i), [], IndexMeta(i, ino, ino + 1, base, v.blk), ino + 1);
  }

  /** On a built image the index directory lists the four indices, and each is empty. */
  lemma IndicesRead(v: Vol, base: nat, limit: nat)
    requires ReadsImage(v, limit) && IndicesStored(v.data, base, v.blk) && base + 15 <= limit
    ensures DirEntries(v, base) == Ok(IndexEntries(base + 3))
    ensures forall e :: e in IndexEntries(base + 3) ==> DirEntries(v, e.value) == Ok([])
  {
    hide DirEntries, TreeStored, Fits, IndexStored;
    IndexEntriesFit(base + 3, v.blk);
    TreeReads(v, BTREE_STRING, IndexEntries(base + 3), IndexRootMeta(base, v.blk), base + 1);
    IndexReads(v, base, 0, limit);
    IndexReads(v, base, 1, limit);
    IndexReads(v, base, 2, limit);
    IndexReads(v, base, 3, limit);
  }

  /** The index directory and the four empty indices: 15 blocks from `base` on. */
  method WriteIndices(img: Image, base: nat)
    requires img.Shape() && base + 15 <= img.numBlocks
    modifies img`buf
    ensures img.Shape() && |img.buf| == |old(img.buf)| && IndicesStored(img.buf, base, img.blk)
    ensures OnlyChanged(old(img.buf), img.buf, base, base + 15, img.numBlocks, img.blk)
  {
    hide BlockOf, Fits, IndexEntries, TreeStored, IndexStored;
    IndexEntriesFit(base + 3, img.blk);
    WriteSmallTree(img, BTREE_STRING, IndexEntries(base + 3), IndexRootMeta(base, img.blk), base + 1);
    var i := 0;
    while i < 4
      invariant 0 <= i <= 4
      invariant img.Shape() && |img.buf| == |old(img.buf)|
      invariant TreeStored(img.buf, BTREE_STRING, IndexEntries(base + 3), IndexRootMeta(base, img.blk), base + 1, img.blk)
      invariant forall j: nat :: j < i ==> IndexStored(img.buf, base, j, img.blk)
      invariant OnlyChanged(old(img.buf), img.buf, base, base + 15, img.numBlocks, img.blk)
    {
      var ino := base + 3 + 3 * i;
      ghost var before := img.buf;
      WriteSmallTree(img, IndexDataType(i), [], IndexMeta(i, ino, ino + 1, base, img.blk), ino + 1);
      EarlierIndices(before, img.buf, base, i, img.blk);
      i := i + 1;
    }
  }

  lemma EarlierIndices(buf: bytes, buf': bytes, base: nat, i: nat, blk: nat)
    requires ValidBlk(blk) && SameBlocks(buf, buf', base, base + 3 + 3 * i, blk)
    requires TreeStored(buf, BTREE_STRING, IndexEntries(base + 3), IndexRootMeta(base, blk), base + 1, blk)
    requires forall j: nat :: j < i ==> IndexStored(buf, base, j, blk)
    requires var ino := base + 3 + 3 * i; TreeStored(buf', IndexDataType(i), [], IndexMeta(i, ino, ino + 1, base, blk), ino + 1, blk)
    ensures TreeStored(buf', BTREE_STRING, IndexEntries(base + 3), IndexRootMeta(base, blk), base + 1, blk)
    ensures forall j: nat :: j < i + 1 ==> IndexStored(buf', base, j, blk)
  {
    hide BlockOf, TreeStored, IndexEntries;
    TreeFrame(buf, buf', BTREE_STRING, IndexEntries(base + 3), IndexRootMeta(base, blk), blk);
    forall j: nat | j < i
      ensures IndexStored(buf', base, j, blk)
    {
      IndexFrame(buf, buf', base, j, blk);
    }
  }

  /** `idx_i`, `idx_s` and the inode and stream of each index, one after the other. */
  method AllocIndices(img: Image) returns (r: Result<nat>)
    requires img.Valid() && img.nextFree <= img.numBlocks
    modifies img`nextFree, img`used, img`ledger
    ensures r == if old(img.nextFree) + 15 <= img.numBlocks then Ok(old(img.nextFree)) else Err(ImageTooSmall)
    ensures r.Ok? ==> img.Valid() && img.nextFree == old(img.nextFree) + 15 && img.used == old(img.used) + 15
  {
    hide Image.Valid;
    var base :- img.Alloc(1);
    var _ :- img.Alloc(2);
    var i := 0;
    while i < 4
      invariant 0 <= i <= 4
      invariant img.Valid() && img.nextFree == old(img.nextFree) + 3 + 3 * i <= img.numBlocks
      invariant img.used == old(img.used) + 3 + 3 * i
    {
      var _ :- img.Alloc(1);
      var _ :- img.Alloc(2);
      i := i + 1;
    }
    return Ok(base);
  }

  // ---------------------------------------------------------------------------
  // The build
  // ---------------------------------------------------------------------------

  function Reserved(numBlocks: nat): nat
  {
    1 + (numBlocks + GROUPSIZE - 1) / GROUPSIZE + LOG_LEN
  }

  /** The volume root as the first pass places it, its parent pointing at itself. */
  function RootRec(cs: seq<Child>, name: bytes, numBlocks: nat, blk: nat): (r: Rec)
    requires ValidBlk(blk)
    ensures r.DirRec? && r.block == r.parent == Reserved(numBlocks)
  {
    SelfParent(Place(HostDir(cs), name, [], 0, Reserved(numBlocks), blk))
  }

  lemma RootRecFacts(cs: seq<Child>, name: bytes, numBlocks: nat, blk: nat)
    requires ValidBlk(blk) && Buildable(HostDir(cs), blk)
    ensures var r := RootRec(cs, name, numBlocks, blk);
            && Placed(r, blk) && RecBlocks(r, blk) == BlocksFor(HostDir(cs), blk)
            && MirrorsAll(r.children, cs)
  {
    hide Placed, RecBlocks, BlocksFor, Buildable, MirrorsAll;
    var r := Place(HostDir(cs), name, [], 0, Reserved(numBlocks), blk);
    PlaceIsPlaced(HostDir(cs), name, [], 0, Reserved(numBlocks), blk);
    SelfParentPlaced(r, blk);
    PlaceMirrors(HostDir(cs), name, [], 0, Reserved(numBlocks), blk);
  }

  /** Every file takes at most 11 groups and one block. */
  ghost predicate SmallFiles(h: Host, blk: nat)
    requires blk > 0
    decreases h, 1
  {
    match h
    case HostFile(data) => Need(data, blk) <= 11 * GROUPSIZE + 1
    case HostDir(cs) => AllSmallFiles(cs, blk)
  }

  ghost predicate AllSmallFiles(cs: seq<Child>, blk: nat)
    requires blk > 0
    decreases cs, 0
  {
    cs == [] || (SmallFiles(cs[0].node, blk) && AllSmallFiles(cs[1..], blk))
  }

  /** Wherever such a tree is placed, twelve runs suffice for each of its nodes; directories never
      need more. */
  lemma {:induction false} SmallFilesFit(h: Host, name: bytes, vol: bytes, parent: nat, next: nat, blk: nat)
    requires ValidBlk(blk) && Buildable(h, blk) && SmallFiles(h, blk)
    ensures RunsFit(Place(h, name, vol, parent, next, blk), blk)
    decreases h, 1
  {
    hide SplitRuns, PageCount, Stream, Need;
    match h {
      case HostFile(data) =>
        TwelveRunsSuffice(Need(data, blk));
        assert |SplitRuns(next + 1, Need(data, blk))| <= DIRECT;
        assert Place(h, name, vol, parent, next, blk)
            == FileRec(name, vol, next, parent, data, SplitRuns(next + 1, Need(data, blk)));
      case HostDir(cs) =>
        var nblk := PageCount(SizingEntries(cs), blk);
        PagesFew(SizingEntries(cs), blk);
        TwelveRunsSuffice(nblk);
        AllSmallFilesFit(cs, vol, next, next + 1 + nblk, blk);
        assert |SplitRuns(next + 1, nblk)| <= DIRECT;
        assert Place(h, name, vol, parent, next, blk)
            == DirRec(name, vol, next, parent, nblk, next + 1, PlaceAll(cs, vol, next, next + 1 + nblk, blk));
    }
  }

  lemma {:induction false} AllSmallFilesFit(cs: seq<Child>, vol: bytes, parent: nat, next: nat, blk: nat)
    requires ValidBlk(blk) && AllBuildable(cs, blk) && AllSmallFiles(cs, blk)
    ensures RunsFitEach(PlaceAll(cs, vol, parent, next, blk), blk)
    decreases cs, 0
  {
    if cs != [] {
      SmallFilesFit(cs[0].node, cs[0].name, JoinPath(vol, cs[0].name), parent, next, blk);
      AllSmallFilesFit(cs[1..], vol, parent, next + BlocksFor(cs[0].node, blk), blk);
      assert PlaceAll(cs, vol, parent, next, blk)[1..] == PlaceAll(cs[1..], vol, parent, next + BlocksFor(cs[0].node, blk), blk);
    }
  }

  /** So the run condition of the build can be read off the host tree. */
  lemma SmallFilesBuild(cs: seq<Child>, name: bytes, numBlocks: nat, blk: nat)
    requires ValidBlk(blk) && Buildable(HostDir(cs), blk) && AllSmallFiles(cs, blk)
    ensures RunsFit(RootRec(cs, name, numBlocks, blk), blk)
  {
    hide SplitRuns, PageCount;
    SmallFilesFit(HostDir(cs), name, [], 0, Reserved(numBlocks), blk);
  }

  lemma ZeroBits(n: nat)
    ensures forall b: nat :: b < 8 * n ==> !Bit(Zeros(n), b)
  {
    forall b: nat | b < 8 * n
      ensures !Bit(Zeros(n), b)
    {
      ZeroHasNoBit(b % 8);
    }
  }

  /** The staged tree stays put while its blocks are left alone. */
  lemma RootStoredFrame(buf: bytes, buf': bytes, r: Rec, m: Manifest, blk: nat)
    requires ValidBlk(blk) && r.DirRec? && Placed(r, blk) && RootStored(buf, r, m, blk)
    requires SameBlocks(buf, buf', r.block, r.block + RecBlocks(r, blk), blk)
    ensures RootStored(buf', r, m, blk)
  {
    hide InodeBytes, BlockOf, StoredAll, BodyStored, Stream, PageCount, RootMeta;
    BodyFrame(buf, buf', r, blk);
    StoredAllFrame(buf, buf', r.children, r.block, r.stream + r.nblk, m, blk);
  }

  /** Rewriting the root inode keeps the rest of the tree. */
  method RewriteRoot(img: Image, r: Rec, m: Manifest)
    requires img.Shape() && r.DirRec? && Placed(r, img.blk) && r.block + RecBlocks(r, img.blk) <= img.numBlocks
    modifies img`buf
    ensures img.Shape() && |img.buf| >= |old(img.buf)| && (|img.buf| == |old(img.buf)| <==> AttrsFit(RootAttrs(m), img.blk))
    ensures AttrsFit(RootAttrs(m), img.blk) && old(BodyStored(img.buf, r, img.blk) && StoredAll(img.buf, r.children, m, img.blk)) ==>
      RootStored(img.buf, r, m, img.blk)
    ensures AttrsFit(RootAttrs(m), img.blk) ==>
      OnlyChanged(old(img.buf), img.buf, r.block, r.block + 1, img.numBlocks, img.blk)
  {
    hide InodeBytes, BlockOf, StoredAll, BodyStored, Stream, PageCount, SmallData;
    var node := InodeBytes(RootMeta(r, m, img.blk), img.blk);
    ghost var before := img.buf;
    img.PutBlock(r.block, node.value);
    if AttrsFit(RootAttrs(m), img.blk) && BodyStored(before, r, img.blk) && StoredAll(before, r.children, m, img.blk) {
      BodyFrame(before, img.buf, r, img.blk);
      StoredAllFrame(before, img.buf, r.children, r.block, r.stream + r.nblk, m, img.blk);
    }
  }

  /** The records of the first pass and the inode block of the index directory. */
  datatype Built = Built(root: Rec, indices: nat)

  /** All attributes of the volume fit behind byte 232 of their inodes. */
  ghost predicate AllAttrsFit(cs: seq<Child>, name: bytes, m: Manifest, numBlocks: nat, blk: nat)
    requires ValidBlk(blk)
  {
    AttrsFitAll(RootRec(cs, name, numBlocks, blk), m, blk) && AttrsFit(RootAttrs(m), blk)
  }

  /** The second pass, the index trees and the root inode. */
  method WriteVolume(img: Image, root: Rec, m: Manifest, indices: nat) returns (r: Result<()>)
    requires img.Shape() && root.DirRec? && Placed(root, img.blk)
    requires root.block + RecBlocks(root, img.blk) <= indices && indices + 15 <= img.numBlocks
    modifies img`buf
    ensures r.Ok? <==> RunsFit(root, img.blk)
    ensures r.Ok? ==> img.Shape() && |img.buf| >= |old(img.buf)|
    ensures r.Ok? ==> (|img.buf| == |old(img.buf)| <==> AttrsFitAll(root, m, img.blk) && AttrsFit(RootAttrs(m), img.blk))
    ensures r.Ok? && AttrsFitAll(root, m, img.blk) && AttrsFit(RootAttrs(m), img.blk) ==>
      && RootStored(img.buf, root, m, img.blk) && IndicesStored(img.buf, indices, img.blk)
      && OnlyChanged(old(img.buf), img.buf, root.block, indices + 15, img.numBlocks, img.blk)
  {
    hide BlockOf, Placed, Stored, AttrsFitAll, RunsFit, RootAttrs, AttrsFit, RootStored, BodyStored, StoredAll, IndicesStored;
    var blk := img.blk;
    var w := WriteNode(img, root, m);
    if w.Err? {
      return Err(w.error);
    }
    ghost var tree := img.buf;
    WriteIndices(img, indices);
    if AttrsFitAll(root, m, blk) {
      StoredFrame(tree, img.buf, root, m, blk);
      StoredParts(img.buf, root, m, blk);
    }
    ghost var indexed := img.buf;
    RewriteRoot(img, root, m);
    if AttrsFit(RootAttrs(m), blk) {
      IndicesFrame(indexed, img.buf, indices, blk);
    }
    return Ok(());
  }

  /** Both passes and the index trees. */
  method StageTree(img: Image, cs: seq<Child>, name: bytes, m: Manifest) returns (r: Result<Built>)
    requires img.Valid() && img.nextFree == img.used == img.reserved && img.reserved == Reserved(img.numBlocks)
    modifies img`nextFree, img`used, img`ledger, img`buf
    ensures r.Ok? <==>
              && Buildable(HostDir(cs), img.blk)
              && Reserved(img.numBlocks) + BlocksFor(HostDir(cs), img.blk) + 15 <= img.numBlocks
              && RunsFit(RootRec(cs, name, img.numBlocks, img.blk), img.blk)
    ensures r.Ok? ==> img.Valid() && img.nextFree <= img.numBlocks && r.value.root == RootRec(cs, name, img.numBlocks, img.blk)
    ensures r.Ok? ==> |img.buf| >= |old(img.buf)| && (|img.buf| == |old(img.buf)| <==> AllAttrsFit(cs, name, m, img.numBlocks, img.blk))
    ensures r.Ok? && AllAttrsFit(cs, name, m, img.numBlocks, img.blk) ==>
      RootStored(img.buf, RootRec(cs, name, img.numBlocks, img.blk), m, img.blk)
    ensures r.Ok? ==> r.value.indices == Reserved(img.numBlocks) + BlocksFor(HostDir(cs), img.blk)
    ensures r.Ok? ==> img.used == img.nextFree == r.value.indices + 15
    ensures r.Ok? && AllAttrsFit(cs, name, m, img.numBlocks, img.blk) ==> IndicesStored(img.buf, r.value.indices, img.blk)
    ensures r.Ok? && AllAttrsFit(cs, name, m, img.numBlocks, img.blk) ==> SameBlocks(old(img.buf), img.buf, 0, img.reserved, img.blk)
  {
    hide IndicesStored, Ledger, BlockOf, Placed, Stored, Buildable, BlocksFor, RecBlocks, AttrsFitAll, RunsFit, AttrsFit, Reserved, RootStored, BodyStored, StoredAll;
    var blk := img.blk;
    var a := AllocNode(img, HostDir(cs), name, [], 0);
    if a.Err? {
      return Err(a.error);
    }
    var root := SelfParent(a.value);
    RootRecFacts(cs, name, img.numBlocks, blk);
    var idx := AllocIndices(img);
    if idx.Err? {
      return Err(idx.error);
    }
    var w := WriteVolume(img, root, m, idx.value);
    if w.Err? {
      return Err(w.error);
    }
    return Ok(Built(root, idx.value));
  }

  lemma StoredParts(buf: bytes, r: Rec, m: Manifest, blk: nat)
    requires ValidBlk(blk) && r.DirRec? && Stored(buf, r, m, blk)
    ensures BodyStored(buf, r, blk) && StoredAll(buf, r.children, m, blk)
  {
  }

  /** The blocks of the log are all zeros. */
  ghost predicate LogClear(buf: bytes, numBlocks: nat, blk: nat)
  {
    forall n: nat :: Reserved(numBlocks) - LOG_LEN <= n < Reserved(numBlocks) ==> BlockOf(buf, n, blk) == Zeros(blk)
  }

  lemma ZeroBlock(numBlocks: nat, n: nat, blk: nat)
    requires n < numBlocks
    ensures BlockOf(Zeros(numBlocks * blk), n, blk) == Zeros(blk)
  {
    BlockBounds(n, numBlocks, blk);
  }

  lemma ClearLog(tree: bytes, buf: bytes, numBlocks: nat, blk: nat)
    requires Reserved(numBlocks) < numBlocks
    requires SameBlocks(Zeros(numBlocks * blk), tree, 0, Reserved(numBlocks), blk)
    requires SameBlocks(tree, buf, Reserved(numBlocks) - LOG_LEN, numBlocks, blk)
    ensures LogClear(buf, numBlocks, blk)
  {
    hide BlockOf, Zeros;
    forall n: nat | Reserved(numBlocks) - LOG_LEN <= n < Reserved(numBlocks)
      ensures BlockOf(buf, n, blk) == Zeros(blk)
    {
      ZeroBlock(numBlocks, n, blk);
    }
  }

  /** The finished image, as a reader finds it. */
  ghost predicate StagedImage(buf: bytes, cs: seq<Child>, name: bytes, m: Manifest, numBlocks: nat, blk: nat)
    requires ValidBlk(blk)
  {
    var v := Vol(buf, blk, GROUPSIZE, Reserved(numBlocks));
    && Open(buf) == Ok(v)
    && Staged(v, RootRec(cs, name, numBlocks, blk), m, numBlocks)
    && MirrorsAll(RootRec(cs, name, numBlocks, blk).children, cs)
  }

  /** `build_stage` up to the point where the image goes to its file: that point is reached exactly
      when every directory stream can be built, the tree and the indices fit, and no inode needs
      more than 12 runs. The image opens with its geometry, and its bitmap agrees with the
      allocator and with `used`. It has its proper length exactly when all attributes fit their
      inodes, which nothing checks, and then it holds the tree. */
  method BuildImage(cs: seq<Child>, name: bytes, m: Manifest, numBlocks: nat, blk: nat) returns (r: Result<Built>, img: Image)
    requires ValidBlk(blk) && numBlocks <= MAX_BLOCKS
    ensures fresh(img) && img.numBlocks == numBlocks && img.blk == blk
    ensures r.Ok? <==>
              && Buildable(HostDir(cs), blk)
              && Reserved(numBlocks) + BlocksFor(HostDir(cs), blk) + 15 <= numBlocks
              && RunsFit(RootRec(cs, name, numBlocks, blk), blk)
    ensures r.Ok? ==> img.Valid() && (|img.buf| == numBlocks * blk <==> AllAttrsFit(cs, name, m, numBlocks, blk))
    ensures r.Ok? && AllAttrsFit(cs, name, m, numBlocks, blk) ==> StagedImage(img.buf, cs, name, m, numBlocks, blk)
    ensures r.Ok? ==> r.value.root == RootRec(cs, name, numBlocks, blk) && r.value.indices + 15 <= numBlocks
    ensures r.Ok? ==> r.value.indices == Reserved(numBlocks) + BlocksFor(HostDir(cs), blk) && img.used == img.nextFree == r.value.indices + 15
    ensures r.Ok? && AllAttrsFit(cs, name, m, numBlocks, blk) ==> IndicesStored(img.buf, r.value.indices, blk)
    ensures r.Ok? && AllAttrsFit(cs, name, m, numBlocks, blk) ==> LogClear(img.buf, numBlocks, blk)
    ensures r.Ok? ==> |img.buf| >= 1024 && img.numAgs == Reserved(numBlocks) - 1 - LOG_LEN
    ensures r.Ok? ==> img.buf[512..1024] == Superblock(numBlocks, img.used, img.numAgs, Reserved(numBlocks), r.value.indices, blk)
    ensures r.Ok? ==> Popcount(Flatten(BlocksOf(img.buf, 1, img.numAgs, blk))) == img.used
    ensures r.Ok? ==> forall b: nat :: b < 8 * |img.bitmap| ==> (Bit(img.bitmap, b) <==> b < img.nextFree)
  {
    hide IndicesStored, Ledger, BlockOf, Placed, Buildable, BlocksFor, RecBlocks, AttrsFitAll, RunsFit, AttrsFit, RootStored, MirrorsAll, Open, Bit, AttrsFitEach, Popcount, Superblock, ReadsImage, SmallData, RootAttrs;
    img := new Image(numBlocks, blk);
    var staged := StageTree(img, cs, name, m);
    if staged.Err? {
      return Err(staged.error), img;
    }
    ghost var root := RootRec(cs, name, numBlocks, blk);
    RootRecFacts(cs, name, numBlocks, blk);
    ZeroBits(img.numAgs * blk);
    ghost var tree := img.buf;
    FinishImage(img, img.reserved, staged.value.indices);
    OpensAs(img.buf, numBlocks, img.used, img.numAgs, img.reserved, staged.value.indices, blk);
    if AllAttrsFit(cs, name, m, numBlocks, blk) {
      RootStoredFrame(tree, img.buf, root, m, blk);
      IndicesFrame(tree, img.buf, staged.value.indices, blk);
      RootAttrsFit(root, m, blk);
      FinishedIsStaged(img.buf, cs, name, m, numBlocks, blk);
      ClearLog(tree, img.buf, numBlocks, blk);
    }
    return Ok(staged.value), img;
  }

  /** The assertions on the superblock magics and on the bitmap's popcount. */
  function HeadChecked(buf: bytes, used: nat, blk: nat): Result<()>
  {
    var sb := Slice(buf, 512, 1024);
    if Slice(sb, 32, 36) != Encode(SB_MAGIC1, 4) || Slice(sb, 112, 116) != Encode(SB_MAGIC3, 4) then Err(CheckFailed)
    else
      var numAgs :- U32(sb, 80);
      if Popcount(Flatten(BlocksOf(buf, 1, numAgs, blk))) != used then Err(CheckFailed) else Ok(())
  }

  lemma HeadPasses(buf: bytes, numBlocks: nat, used: nat, numAgs: nat, root: nat, indices: nat, blk: nat)
    requires |buf| >= 1024 && buf[512..1024] == Superblock(numBlocks, used, numAgs, root, indices, blk)
    requires numAgs < 0x1_0000_0000 && Popcount(Flatten(BlocksOf(buf, 1, numAgs, blk))) == used
    ensures HeadChecked(buf, used, blk) == Ok(())
  {
    hide Encode, Superblock, Popcount, U32;
    var sb := buf[512..1024];
    SuperFields(numBlocks, used, numAgs, root, indices, blk);
    ReadU32(sb, 80, numAgs);
  }

  lemma {:induction false} EncodeDecode(w: bytes)
    ensures Encode(Decode(w), |w|) == w
    decreases |w|
  {
    if w != [] {
      EncodeDecode(w[1..]);
      assert Decode(w) == w[0] + 256 * Decode(w[1..]);
    }
  }

  lemma WordIs(s: bytes, o: nat, x: nat)
    requires o + 4 <= |s| && x < 0x1_0000_0000
    ensures Slice(s, o, o + 4) == Encode(x, 4) <==> U32(s, o) == Ok(x)
  {
    hide Encode, Decode;
    EncodeDecode(s[o..o + 4]);
    Unsigned32(x);
  }

  /** These assertions hold exactly when both magics are there and the bitmap blocks of the stated number
      of groups have as many bits as blocks are in use. */
  lemma HeadCheckIff(buf: bytes, used: nat, blk: nat)
    requires |buf| >= 1024
    ensures var sb := buf[512..1024];
            HeadChecked(buf, used, blk) == Ok(()) <==>
              && U32(sb, 32) == Ok(0x42465331) && U32(sb, 112) == Ok(0x15B6830E)
              && U32(sb, 80).Ok? && Popcount(Flatten(BlocksOf(buf, 1, U32(sb, 80).value, blk))) == used
  {
    hide Encode, U32, Popcount, BlocksOf;
    var sb := buf[512..1024];
    WordIs(sb, 32, SB_MAGIC1);
    WordIs(sb, 112, SB_MAGIC3);
  }

  /** `build_stage` with its read-back. With attributes that fit, the tool succeeds exactly when the
      image is complete and the root directory fits one leaf. For a larger root the image is on
      disk, and the read-back stops at the size in the rewritten root inode. */
  method BuildStage(cs: seq<Child>, name: bytes, m: Manifest, numBlocks: nat, blk: nat)
      returns (r: Result<()>, written: bool, img: Image)
    requires ValidBlk(blk) && numBlocks <= MAX_BLOCKS
    ensures written <==>
              && Buildable(HostDir(cs), blk)
              && Reserved(numBlocks) + BlocksFor(HostDir(cs), blk) + 15 <= numBlocks
              && RunsFit(RootRec(cs, name, numBlocks, blk), blk)
    ensures written ==> (|img.buf| == numBlocks * blk <==> AllAttrsFit(cs, name, m, numBlocks, blk))
    ensures written && AllAttrsFit(cs, name, m, numBlocks, blk) ==> StagedImage(img.buf, cs, name, m, numBlocks, blk)
    ensures written && AllAttrsFit(cs, name, m, numBlocks, blk) ==>
              r == if Fits(SizingEntries(cs), blk) then Ok(()) else Err(CheckFailed)
    ensures written ==> r == Checked(img.buf, RootRec(cs, name, numBlocks, blk), blk)
    ensures r.Ok? ==> written
  {
    hide StagedImage, IndicesStored, Ledger, Popcount, Bit, Superblock, BlocksFor, RunsFit, Buildable, AllAttrsFit, Fits, SizingEntries, Checked, BlocksOf;
    var built;
    built, img := BuildImage(cs, name, m, numBlocks, blk);
    if built.Err? {
      return Err(built.error), false, img;
    }
    var root := built.value.root;
    HeadPasses(img.buf, numBlocks, img.used, img.numAgs, Reserved(numBlocks), built.value.indices, blk);
    written := true;
    r := HeadChecked(img.buf, img.used, blk);
    if r.Ok? {
      if AllAttrsFit(cs, name, m, numBlocks, blk) {
        StagedChecks(img.buf, cs, name, m, numBlocks, blk);
      }
      r := CheckNode(img.buf, root, blk);
    }
  }

  /** The read-back of a complete image. */
  lemma StagedChecks(buf: bytes, cs: seq<Child>, name: bytes, m: Manifest, numBlocks: nat, blk: nat)
    requires ValidBlk(blk) && StagedImage(buf, cs, name, m, numBlocks, blk)
    ensures Checked(buf, RootRec(cs, name, numBlocks, blk), blk)
         == if Fits(SizingEntries(cs), blk) then Ok(()) else Err(CheckFailed)
  {
    hide Staged, Open, MirrorsAll, Fits, SizingEntries, RootRec, Checked;
    var v, root := Vol(buf, blk, GROUPSIZE, Reserved(numBlocks)), RootRec(cs, name, numBlocks, blk);
    RootFits(v, root, m, numBlocks, cs);
    SelfCheckIff(v, root, m, numBlocks);
  }

  lemma FinishedIsStaged(buf: bytes, cs: seq<Child>, name: bytes, m: Manifest, numBlocks: nat, blk: nat)
    requires ValidBlk(blk) && numBlocks <= MAX_BLOCKS && Buildable(HostDir(cs), blk)
    requires Reserved(numBlocks) + BlocksFor(HostDir(cs), blk) <= numBlocks
    requires Open(buf) == Ok(Vol(buf, blk, GROUPSIZE, Reserved(numBlocks)))
    requires var r := RootRec(cs, name, numBlocks, blk);
             RootStored(buf, r, m, blk) && AttrsFit(RootAttrs(m), blk) && AttrsFitEach(r.children, m, blk)
    ensures StagedImage(buf, cs, name, m, numBlocks, blk)
  {
    hide Placed, RecBlocks, BlocksFor, Buildable, MirrorsAll, RootStored, Open, AttrsFit, AttrsFitEach, SelfParent, Place;
    RootRecFacts(cs, name, numBlocks, blk);
  }

  /** The bitmap and the superblock: the data area is left alone. */
  method FinishImage(img: Image, root: nat, indices: nat)
    requires img.Valid() && img.nextFree <= img.numBlocks && img.holes == {}
    requires forall b: nat :: b < 8 * |img.bitmap| ==> !Bit(img.bitmap, b)
    modifies img`bitmap, img`buf
    ensures img.Valid()
    ensures Popcount(Flatten(BlocksOf(img.buf, 1, img.numAgs, img.blk))) == img.used
    ensures forall b: nat :: b < 8 * |img.bitmap| ==> (Bit(img.bitmap, b) <==> b < img.nextFree)
    ensures |img.buf| == |old(img.buf)| >= 1024
    ensures img.buf[512..1024] == Superblock(img.numBlocks, img.used, img.numAgs, root, indices, img.blk)
    ensures SameBlocks(old(img.buf), img.buf, 1 + img.numAgs, img.numBlocks, img.blk)
  {
    hide BlockOf, Bit, Popcount, Superblock;
    InOrderNonEmpty(img.ledger, img.reserved, img.nextFree);
    img.MarkAllocated(-1);
    img.FinishBitmap();
    ghost var done := img.buf;
    WriteSuperblock(img, Superblock(img.numBlocks, img.used, img.numAgs, root, indices, img.blk));
    assert BlocksOf(img.buf, 1, img.numAgs, img.blk) == BlocksOf(done, 1, img.numAgs, img.blk);
  }

  lemma RootAttrsFit(r: Rec, m: Manifest, blk: nat)
    requires r.DirRec? && AttrsFitAll(r, m, blk)
    ensures AttrsFitEach(r.children, m, blk)
  {
  }

  method WriteSuperblock(img: Image, sb: bytes)
    requires img.Shape() && |sb| == 512 && img.numBlocks > 1
    modifies img`buf
    ensures img.Shape() && |img.buf| == |old(img.buf)| >= 1024 && img.buf[512..1024] == sb
    ensures forall n: nat :: 0 < n < img.numBlocks ==> BlockOf(img.buf, n, img.blk) == old(BlockOf(img.buf, n, img.blk))
  {
    ghost var before := img.buf;
    PatchSuperblock(before, img.numBlocks, img.blk, sb, 1);
    img.buf := Splice(img.buf, 512, 1024, sb);
    forall n: nat | 0 < n < img.numBlocks
      ensures BlockOf(img.buf, n, img.blk) == BlockOf(before, n, img.blk)
    {
      PatchSuperblock(before, img.numBlocks, img.blk, sb, n);
    }
  }

  // ---------------------------------------------------------------------------
  // The theorem
  // ---------------------------------------------------------------------------

  /** Reading a staged volume: when the root directory fits one leaf, every path agrees with
      the host tree; when it does not, no nonempty path can be resolved at all. */
  lemma StagedVolumeReads(buf: bytes, cs: seq<Child>, name: bytes, m: Manifest, numBlocks: nat, blk: nat, comps: seq<bytes>)
    requires ValidBlk(blk) && StagedImage(buf, cs, name, m, numBlocks, blk)
    ensures Open(buf) == Ok(Vol(buf, blk, GROUPSIZE, Reserved(numBlocks)))
    ensures var v := Vol(buf, blk, GROUPSIZE, Reserved(numBlocks));
            var found := ResolveFrom(NamespaceOf(v), v.root, comps, 0);
            && (Fits(SizingEntries(cs), blk) ==> Agrees(NamespaceOf(v), FilesOf(v), found, HostAnswer(cs, comps)))
            && (!Fits(SizingEntries(cs), blk) && comps != [] ==> found == Err(StructError))
  {
    hide Staged, Open, MirrorsAll, Agrees, Find, Fits, NamespaceOf, FilesOf, SizingEntries, RootRec;
    var v, r := Vol(buf, blk, GROUPSIZE, Reserved(numBlocks)), RootRec(cs, name, numBlocks, blk);
    RootFits(v, r, m, numBlocks, cs);
    if Fits(SizingEntries(cs), blk) {
      EveryPathReads(v, r, HostDir(cs), m, numBlocks, comps);
    } else if comps != [] {
      RootReadsIff(v, r, m, numBlocks, comps);
    }
  }

  /** The root's size is decided by the names in it. */
  lemma RootFits(v: Vol, r: Rec, m: Manifest, limit: nat, cs: seq<Child>)
    requires Staged(v, r, m, limit) && MirrorsAll(r.children, cs)
    ensures Fits(RecEntries(r), v.blk) <==> Fits(SizingEntries(cs), v.blk)
    ensures Fits(SizingEntries(cs), v.blk) <==> r.nblk == 2
  {
    hide SizingEntries, StoredEntries, Stream, PageCount, InodeBytes, StoredAll, Mirrors;
    forall i | 0 <= i < |cs|
      ensures r.children[i].name == cs[i].name
    {
      MirrorsAt(r.children, cs, i);
    }
    EntriesSameKeys(cs, r.block, r.parent, r.children);
    FitsByKeys(RecEntries(r), SizingEntries(cs), v.blk);
    TwoPagesIff(RecEntries(r), v.blk);
  }

  // ---------------------------------------------------------------------------
  // The fixture
  // ---------------------------------------------------------------------------

  function Sum(counts: seq<nat>): nat
  {
    if counts == [] then 0 else counts[0] + Sum(counts[1..])
  }

  /** A series of allocations. */
  method AllocEach(img: Image, counts: seq<nat>) returns (r: Result<()>)
    requires img.Valid() && img.nextFree <= img.numBlocks
    modifies img`nextFree, img`used, img`ledger
    ensures r.Ok? <==> old(img.nextFree) + Sum(counts) <= img.numBlocks
    ensures r.Ok? ==> img.Valid() && img.nextFree == old(img.nextFree) + Sum(counts) && img.used == old(img.used) + Sum(counts)
  {
    hide Image.Valid;
    var i := 0;
    assert counts[0..] == counts;
    while i < |counts|
      invariant 0 <= i <= |counts|
      invariant img.Valid() && img.nextFree <= img.numBlocks
      invariant img.nextFree + Sum(counts[i..]) == old(img.nextFree) + Sum(counts)
      invariant img.nextFree - old(img.nextFree) == img.used - old(img.used)
    {
      assert counts[i..][1..] == counts[i + 1..];
      var a := img.Alloc(counts[i]);
      if a.Err? {
        return Err(a.error);
      }
      i := i + 1;
    }
    return Ok(());
  }

  lemma SmallSums()
    ensures Sum([1, 2]) == 3 && Sum([1, 1, 1, 1, 2]) == 6 && Sum([1, 1, 2, 1, 1]) == 6
  {
    var a: seq<nat>, b: seq<nat> := [1, 1, 2], [2, 1, 1];
    assert Sum(a) == 4 && Sum(b) == 4;
    var c: seq<nat>, d: seq<nat> := [1, 1] + a, [1, 1] + b;
    assert c[1..][1..] == a && d[1..][1..] == b;
    assert c == [1, 1, 1, 1, 2] && d == [1, 1, 2, 1, 1];
  }

  /** The allocations of the fixture build, with one block passed over. */
  method AllocFixture(img: Image) returns (r: Result<()>)
    requires img.Valid() && img.nextFree == img.reserved == img.used && img.holes == {}
    modifies img`nextFree, img`used, img`ledger, img`holes
    ensures r.Ok? <==> img.reserved + 31 <= img.numBlocks
    ensures r.Ok? ==> img.Valid() && img.nextFree == img.reserved + 31 && img.used == img.reserved + 30
    ensures r.Ok? ==> img.holes == {img.reserved + 24}
  {
    hide Image.Valid, Sum;
    SmallSums();
    if img.nextFree > img.numBlocks {
      return Err(ImageTooSmall);
    }
    var root := AllocEach(img, [1, 2]);
    if root.Err? {
      return Err(root.error);
    }
    var indices := AllocIndices(img);
    if indices.Err? {
      return Err(indices.error);
    }
    // README.TXT (inode, data), EMPTY.TXT, FRAGMENT.BIN (inode, first run)
    var before := AllocEach(img, [1, 1, 1, 1, 2]);
    if before.Err? {
      return Err(before.error);
    }
    img.SkipBlock();
    if img.nextFree > img.numBlocks {
      return Err(ImageTooSmall);
    }
    // FRAGMENT.BIN (second run), SUBDIR (inode, stream), HELLO.TXT (inode, data)
    var after := AllocEach(img, [1, 1, 2, 1, 1]);
    if after.Err? {
      return Err(after.error);
    }
    return Ok(());
  }

  /** The allocation and bitmap of `build`: 31 blocks behind the reserved area, one of them the
      deliberate hole that stays free; the bitmap says so and counts 30. */
  method FixtureBitmap(numBlocks: nat, blk: nat) returns (r: Result<()>, img: Image)
    requires ValidBlk(blk)
    ensures fresh(img)
    ensures r.Ok? <==> Reserved(numBlocks) + 31 <= numBlocks
    ensures r.Ok? ==> img.Valid() && Popcount(Flatten(BlocksOf(img.buf, 1, img.numAgs, img.blk))) == img.used == img.reserved + 30
    ensures r.Ok? ==> forall b: nat :: b < 8 * |img.bitmap| ==>
              (Bit(img.bitmap, b) <==> b < img.reserved + 31 && b != img.reserved + 24)
  {
    hide BlockOf, Bit, Popcount, BlocksOf;
    img := new Image(numBlocks, blk);
    r := AllocFixture(img);
    if r.Ok? {
      ZeroBits(img.numAgs * blk);
      InOrderNonEmpty(img.ledger, img.reserved, img.nextFree);
      img.MarkAllocated(img.reserved + 24);
      img.FinishBitmap();
    }
  }
}
