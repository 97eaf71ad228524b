/**
 Reading one stored node back through `befs_get`: its inode fields, its runs, the entries of a
 directory and the bytes of a file.
 */
module ReadBack {
  import opened Bytes
  import opened Bits
  import opened BPlusTree
  import opened TreeReaders
  import opened RoundTrip
  import opened BlockRuns
  import opened Inodes
  import opened Volume
  import opened Images
  import opened Staging
  import opened StageWriter

  // ---------------------------------------------------------------------------
  // Inode fields
  // ---------------------------------------------------------------------------

  lemma StreamFields(runs: seq<Run>, size: nat, blk: nat, j: nat)
    requires |runs| <= DIRECT && j < DIRECT
    ensures var s := DataStream(runs, size, blk).value;
            && FieldAt(s, 8 * j, if j < |runs| then Rblk(runs[j].start, runs[j].len) else Rblk(0, 0))
            && FieldAt(s, 136, Encode(size, 8)) && FieldAt(s, 96, Encode(MaxDirect(runs, blk), 8))
  {
    hide Rblk, StreamTail, MaxDirect;
    var fs, tail := DirectFields(runs), StreamTail(MaxDirect(runs, blk), size);
    UniformLength(fs, 8);
    var s := DataStream(runs, size, blk).value;
    assert s == [] + Flatten(fs) + tail;
    FieldInside([], fs, tail, 8, j);
    TailField(MaxDirect(runs, blk), size);
    assert s[96..144] == tail;
    FieldInField(s, 96, tail, 40, Encode(size, 8));
    FieldInField(s, 96, tail, 0, Encode(MaxDirect(runs, blk), 8));
  }

  /** No indirect runs. */
  lemma NoIndirect(maxDirect: nat, size: nat)
    ensures var t := StreamTail(maxDirect, size);
            FieldAt(t, 8, Rblk(0, 0)) && FieldAt(t, 16, Encode(0, 8)) && FieldAt(t, 24, Rblk(0, 0)) && FieldAt(t, 32, Encode(0, 8))
  {
    hide Rblk, Encode;
  }

  lemma TailField(maxDirect: nat, size: nat)
    ensures FieldAt(StreamTail(maxDirect, size), 40, Encode(size, 8)) && FieldAt(StreamTail(maxDirect, size), 0, Encode(maxDirect, 8))
  {
    hide Rblk, Encode;
  }

  lemma HeadFields(m: Meta, blk: nat)
    ensures FieldAt(InodeHead(m, blk), 0, Encode(INODE_MAGIC1, 4))
    ensures FieldAt(InodeHead(m, blk), 20, Encode(m.mode, 4))
  {
    hide Rblk, Encode;
  }

  lemma InodeLayout(m: Meta, blk: nat)
    requires ValidBlk(blk) && |m.runs| <= DIRECT && AttrsFit(m.attrs, blk)
    ensures var node := InodeBytes(m, blk).value;
            && |node| == blk
            && FieldAt(node, 0, InodeHead(m, blk))
            && FieldAt(node, 72, DataStream(m.runs, m.size, blk).value)
            && FieldAt(node, 216, Encode(INODE_TIME, 8))
  {
    hide InodeHead, DataStream, SmallData, Encode;
    var node := InodeBytes(m, blk).value;
    var fixed := InodeFixed(m, blk).value;
    assert FieldAt(fixed, 0, InodeHead(m, blk)) && FieldAt(fixed, 72, DataStream(m.runs, m.size, blk).value);
    assert FieldAt(fixed, 216, Encode(INODE_TIME, 8));
    assert node[..SMALL_DATA] == fixed;
    assert FieldAt(node, 0, fixed);
    FieldInField(node, 0, fixed, 0, InodeHead(m, blk));
    FieldInField(node, 0, fixed, 72, DataStream(m.runs, m.size, blk).value);
    FieldInField(node, 0, fixed, 216, Encode(INODE_TIME, 8));
  }

  /** The inode fields `befs_get` uses, all read back from the written bytes. */
  ghost predicate InodeReads(node: bytes, m: Meta)
  {
    && U32(node, 0) == Ok(INODE_MAGIC1)
    && U32(node, 20) == Ok(m.mode)
    && I64(node, 208) == Ok(m.size)
    && RunsFrom(RunReader(node, GROUPSIZE), 0, []) == Ok(m.runs)
  }

  ghost predicate MetaOk(m: Meta, blk: nat)
  {
    && |m.runs| <= DIRECT && RunsOk(m.runs) && AttrsFit(m.attrs, blk)
    && m.mode < 0x1_0000_0000 && m.size < MAX_I64
  }

  lemma InodeReadsBack(m: Meta, blk: nat)
    requires ValidBlk(blk) && MetaOk(m, blk)
    ensures InodeBytes(m, blk).Ok? && InodeReads(InodeBytes(m, blk).value, m)
  {
    hide InodeHead, DataStream, RunsFrom, RunReader, AttrsFit;
    var node := InodeBytes(m, blk).value;
    InodeScalars(m, blk);
    var read := RunReader(node, GROUPSIZE);
    forall j: nat | j < DIRECT
      ensures read(j) == Ok(if j < |m.runs| then m.runs[j] else Run(0, 0))
    {
      InodeRun(m, blk, j);
    }
    assert m.runs[..0] == [];
    RunsRead(read, m.runs, 0);
  }

  lemma InodeScalars(m: Meta, blk: nat)
    requires ValidBlk(blk) && MetaOk(m, blk)
    ensures var node := InodeBytes(m, blk).value;
            U32(node, 0) == Ok(INODE_MAGIC1) && U32(node, 20) == Ok(m.mode) && I64(node, 208) == Ok(m.size)
  {
    hide InodeHead, DataStream, InodeBytes, RunsOk, AttrsFit;
    var node, head, s := InodeBytes(m, blk).value, InodeHead(m, blk), DataStream(m.runs, m.size, blk).value;
    InodeLayout(m, blk);
    HeadFields(m, blk);
    StreamFields(m.runs, m.size, blk, 0);
    FieldInField(node, 0, head, 0, Encode(INODE_MAGIC1, 4));
    FieldInField(node, 0, head, 20, Encode(m.mode, 4));
    FieldInField(node, 72, s, 136, Encode(m.size, 8));
    ReadU32(node, 0, INODE_MAGIC1);
    ReadU32(node, 20, m.mode);
    ReadI64(node, 208, m.size);
  }

  lemma HeadIdentity(m: Meta, blk: nat)
    ensures var h := InodeHead(m, blk);
            && FieldAt(h, 4, Rblk(m.block, 1)) && FieldAt(h, 12, Encode(0, 4)) && FieldAt(h, 16, Encode(0, 4))
            && FieldAt(h, 24, Encode(1, 4)) && FieldAt(h, 28, Encode(INODE_TIME, 8)) && FieldAt(h, 36, Encode(INODE_TIME, 8))
            && FieldAt(h, 44, Rblk(m.parent, 1)) && FieldAt(h, 60, Encode(m.typeCode, 4)) && FieldAt(h, 64, Encode(blk, 4))
  {
    hide Rblk, Encode;
  }

  /** What else an inode says of itself: its own block and its parent's, the type code, the inode size,
      the state flags, the times, and the range of its direct runs. */
  ghost predicate Identifies(node: bytes, m: Meta, blk: nat)
  {
    && ReadRun(node, 4, GROUPSIZE) == Ok(Run(m.block, 1)) && ReadRun(node, 44, GROUPSIZE) == Ok(Run(m.parent, 1))
    && U32(node, 12) == Ok(0) && U32(node, 16) == Ok(0) && U32(node, 24) == Ok(1)
    && I64(node, 28) == Ok(INODE_TIME) && I64(node, 36) == Ok(INODE_TIME) && I64(node, 216) == Ok(INODE_TIME)
    && U32(node, 60) == Ok(m.typeCode) && U32(node, 64) == Ok(blk)
    && I64(node, 168) == Ok(MaxDirect(m.runs, blk))
  }

  lemma InodeIdentifies(m: Meta, blk: nat)
    requires ValidBlk(blk) && MetaOk(m, blk) && m.block < MAX_BLOCKS && m.parent < MAX_BLOCKS && m.typeCode < 0x1_0000_0000
    ensures InodeBytes(m, blk).Ok? && Identifies(InodeBytes(m, blk).value, m, blk)
  {
    hide InodeHead, DataStream, InodeBytes, RunsOk, AttrsFit, ReadRun, Rblk, U32, I64, MaxDirect, Encode;
    var node, head, s := InodeBytes(m, blk).value, InodeHead(m, blk), DataStream(m.runs, m.size, blk).value;
    InodeLayout(m, blk);
    HeadIdentity(m, blk);
    StreamFields(m.runs, m.size, blk, 0);
    hide FieldAt;
    HeadRuns(node, head, m);
    HeadWords(node, head, m, blk);
    FieldInField(node, 72, s, 96, Encode(MaxDirect(m.runs, blk), 8));
    MaxDirectSmall(m.runs, blk);
    ReadI64(node, 168, MaxDirect(m.runs, blk));
    ReadI64(node, 216, INODE_TIME);
  }

  /** The indirect runs and the attribute directory that a staged inode never has. */
  lemma InodeUnused(m: Meta, blk: nat)
    requires ValidBlk(blk) && MetaOk(m, blk)
    ensures InodeBytes(m, blk).Ok?
    ensures var node := InodeBytes(m, blk).value;
            && ReadRun(node, 52, GROUPSIZE) == ReadRun(node, 176, GROUPSIZE) == ReadRun(node, 192, GROUPSIZE) == Ok(Run(0, 0))
            && I64(node, 184) == I64(node, 200) == Ok(0) && U32(node, 68) == Ok(0)
  {
    hide InodeHead, DataStream, InodeBytes, RunsOk, AttrsFit, ReadRun, Rblk, U32, I64, Encode, MaxDirect;
    var node, s := InodeBytes(m, blk).value, DataStream(m.runs, m.size, blk).value;
    InodeLayout(m, blk);
    HeadUnused(m, blk);
    StreamUnused(m.runs, m.size, blk);
    hide FieldAt;
    FieldInField(node, 0, InodeHead(m, blk), 52, Rblk(0, 0));
    FieldInField(node, 0, InodeHead(m, blk), 68, Encode(0, 4));
    FieldInField(node, 72, s, 104, Rblk(0, 0));
    FieldInField(node, 72, s, 112, Encode(0, 8));
    FieldInField(node, 72, s, 120, Rblk(0, 0));
    FieldInField(node, 72, s, 128, Encode(0, 8));
    RunRoundTrip(node, 52, 0, 0);
    RunRoundTrip(node, 176, 0, 0);
    RunRoundTrip(node, 192, 0, 0);
    ReadI64(node, 184, 0);
    ReadI64(node, 200, 0);
    ReadU32(node, 68, 0);
  }

  lemma HeadUnused(m: Meta, blk: nat)
    ensures FieldAt(InodeHead(m, blk), 52, Rblk(0, 0)) && FieldAt(InodeHead(m, blk), 68, Encode(0, 4))
  {
    hide Rblk, Encode;
  }

  lemma StreamUnused(runs: seq<Run>, size: nat, blk: nat)
    requires |runs| <= DIRECT
    ensures var s := DataStream(runs, size, blk).value;
            FieldAt(s, 104, Rblk(0, 0)) && FieldAt(s, 112, Encode(0, 8)) && FieldAt(s, 120, Rblk(0, 0)) && FieldAt(s, 128, Encode(0, 8))
  {
    hide Rblk, StreamTail, MaxDirect, Encode;
    var fs, tail := DirectFields(runs), StreamTail(MaxDirect(runs, blk), size);
    UniformLength(fs, 8);
    var s := DataStream(runs, size, blk).value;
    NoIndirect(MaxDirect(runs, blk), size);
    assert s[96..144] == tail;
    FieldInField(s, 96, tail, 8, Rblk(0, 0));
    FieldInField(s, 96, tail, 16, Encode(0, 8));
    FieldInField(s, 96, tail, 24, Rblk(0, 0));
    FieldInField(s, 96, tail, 32, Encode(0, 8));
  }

  lemma HeadRuns(node: bytes, head: bytes, m: Meta)
    requires FieldAt(node, 0, head) && FieldAt(head, 4, Rblk(m.block, 1)) && FieldAt(head, 44, Rblk(m.parent, 1))
    requires m.block < MAX_BLOCKS && m.parent < MAX_BLOCKS
    ensures ReadRun(node, 4, GROUPSIZE) == Ok(Run(m.block, 1)) && ReadRun(node, 44, GROUPSIZE) == Ok(Run(m.parent, 1))
  {
    hide Rblk, FieldAt, ReadRun;
    FieldInField(node, 0, head, 4, Rblk(m.block, 1));
    FieldInField(node, 0, head, 44, Rblk(m.parent, 1));
    RunRoundTrip(node, 4, m.block, 1);
    RunRoundTrip(node, 44, m.parent, 1);
  }

  lemma HeadWords(node: bytes, head: bytes, m: Meta, blk: nat)
    requires FieldAt(node, 0, head) && FieldAt(head, 12, Encode(0, 4)) && FieldAt(head, 16, Encode(0, 4))
    requires FieldAt(head, 24, Encode(1, 4)) && FieldAt(head, 28, Encode(INODE_TIME, 8)) && FieldAt(head, 36, Encode(INODE_TIME, 8))
    requires FieldAt(head, 60, Encode(m.typeCode, 4)) && FieldAt(head, 64, Encode(blk, 4))
    requires m.typeCode < 0x1_0000_0000 && blk < 0x1_0000_0000
    ensures U32(node, 12) == Ok(0) && U32(node, 16) == Ok(0) && U32(node, 24) == Ok(1)
    ensures I64(node, 28) == Ok(INODE_TIME) && I64(node, 36) == Ok(INODE_TIME)
    ensures U32(node, 60) == Ok(m.typeCode) && U32(node, 64) == Ok(blk)
  {
    hide Encode, FieldAt, U32, I64;
    FieldInField(node, 0, head, 12, Encode(0, 4));
    FieldInField(node, 0, head, 16, Encode(0, 4));
    FieldInField(node, 0, head, 24, Encode(1, 4));
    FieldInField(node, 0, head, 28, Encode(INODE_TIME, 8));
    FieldInField(node, 0, head, 36, Encode(INODE_TIME, 8));
    FieldInField(node, 0, head, 60, Encode(m.typeCode, 4));
    FieldInField(node, 0, head, 64, Encode(blk, 4));
    ReadU32(node, 12, 0);
    ReadU32(node, 16, 0);
    ReadU32(node, 24, 1);
    ReadI64(node, 28, INODE_TIME);
    ReadI64(node, 36, INODE_TIME);
    ReadU32(node, 60, m.typeCode);
    ReadU32(node, 64, blk);
  }

  lemma {:induction false} TotalSmall(runs: seq<Run>)
    requires RunsOk(runs)
    ensures TotalLength(runs) <= |runs| * 0x1_0000
  {
    if runs != [] {
      assert runs[0] in runs;
      assert RunsOk(runs[1..]);
      TotalSmall(runs[1..]);
    }
  }

  lemma MaxDirectSmall(runs: seq<Run>, blk: nat)
    requires ValidBlk(blk) && RunsOk(runs) && |runs| <= DIRECT
    ensures MaxDirect(runs, blk) < MAX_I64
  {
    hide RunsOk;
    TotalSmall(runs);
    ShiftBounds(blk);
    MulLe(TotalLength(runs), DIRECT * 0x1_0000, Pow2(Shift(blk)));
  }

  lemma InodeRun(m: Meta, blk: nat, j: nat)
    requires ValidBlk(blk) && MetaOk(m, blk) && j < DIRECT
    ensures RunReader(InodeBytes(m, blk).value, GROUPSIZE)(j) == Ok(if j < |m.runs| then m.runs[j] else Run(0, 0))
  {
    hide DataStream, InodeBytes, AttrsFit, Rblk, ReadRun;
    var node, s := InodeBytes(m, blk).value, DataStream(m.runs, m.size, blk).value;
    InodeLayout(m, blk);
    StreamFields(m.runs, m.size, blk, j);
    if j < |m.runs| {
      var run := m.runs[j];
      assert run in m.runs;
      FieldInField(node, 72, s, 8 * j, Rblk(run.start, run.len));
      RunRoundTrip(node, 72 + 8 * j, run.start, run.len);
    } else {
      FieldInField(node, 72, s, 8 * j, Rblk(0, 0));
      RunRoundTrip(node, 72 + 8 * j, 0, 0);
    }
  }

  lemma {:induction false} RunsRead(read: nat -> Result<Run>, runs: seq<Run>, i: nat)
    requires i <= |runs| <= DIRECT && RunsOk(runs)
    requires forall j: nat :: j < DIRECT ==> read(j) == Ok(if j < |runs| then runs[j] else Run(0, 0))
    ensures RunsFrom(read, i, runs[..i]) == Ok(runs)
    decreases |runs| - i
  {
    if i == |runs| {
      assert runs[..i] == runs;
    } else {
      assert runs[i] in runs;
      assert runs[..i + 1] == runs[..i] + [runs[i]];
      RunsRead(read, runs, i + 1);
    }
  }

  // ---------------------------------------------------------------------------
  // Runs that tile an allocation
  // ---------------------------------------------------------------------------

  lemma {:induction false} TilesBounds(runs: seq<Run>, start: nat, need: nat, i: nat)
    requires Tiles(runs, start, need) && i < |runs|
    ensures start <= runs[i].start && runs[i].start + runs[i].len <= start + need && runs[i].len > 0
  {
    if i > 0 {
      TilesBounds(runs[1..], start + runs[0].len, need - runs[0].len, i - 1);
    }
  }

  lemma SplitRunsOk(start: nat, need: nat)
    requires start + need <= MAX_BLOCKS
    ensures RunsOk(SplitRuns(start, need)) && Tiles(SplitRuns(start, need), start, need)
  {
    var runs := SplitRuns(start, need);
    SplitRunsCorrect(start, need);
    forall r | r in runs
      ensures 0 <= r.start < MAX_BLOCKS && 0 < r.len < 0x1_0000
    {
      var i :| 0 <= i < |runs| && runs[i] == r;
      TilesBounds(runs, start, need, i);
    }
  }

  /** Reading tiling runs is reading the blocks they tile. */
  lemma {:induction false} TilesBytes(data: bytes, runs: seq<Run>, start: nat, need: nat, blk: nat)
    requires Tiles(runs, start, need)
    ensures RunBytes(data, runs, blk) == Flatten(BlocksOf(data, start, need, blk))
    decreases |runs|
  {
    hide BlockOf;
    if runs == [] {
      assert BlocksOf(data, start, need, blk) == [];
    } else {
      var len := runs[0].len;
      TilesBytes(data, runs[1..], start + len, need - len, blk);
      var a, b := BlocksOf(data, start, len, blk), BlocksOf(data, start + len, need - len, blk);
      assert BlocksOf(data, start, need, blk) == a + b;
      FlattenAppend(a, b);
    }
  }

  // ---------------------------------------------------------------------------
  // One stored node
  // ---------------------------------------------------------------------------

  /** The stream of an inode block whose runs tile `[start, start + need)`. */
  lemma StreamReads(v: Vol, b: int, m: Meta, start: nat, need: nat)
    requires ValidBlk(v.blk) && v.group == GROUPSIZE && MetaOk(m, v.blk)
    requires InodeBytes(m, v.blk) == Ok(BlockOf(v.data, b, v.blk))
    requires Tiles(m.runs, start, need)
    ensures GetInode(v, b) == Ok(BlockOf(v.data, b, v.blk))
    ensures StreamBytes(v, BlockOf(v.data, b, v.blk)) == Ok(Flatten(BlocksOf(v.data, start, need, v.blk)))
    ensures IsDir(v, b) == Ok(IsDirMode(m.mode))
    ensures I64(BlockOf(v.data, b, v.blk), 208) == Ok(m.size)
  {
    hide InodeBytes, BlockOf, RunsFrom, RunReader, RunBytes, BlocksOf, MetaOk, U32, I64, Tiles;
    InodeReadsBack(m, v.blk);
    TilesBytes(v.data, m.runs, start, need, v.blk);
  }

  /** A directory reads back as its entry list. */
  lemma DirectoryReads(dataType: nat, v: Vol, b: int, m: Meta, es: seq<Entry>, start: nat)
    requires ValidBlk(v.blk) && v.group == GROUPSIZE && MetaOk(m, v.blk)
    requires InodeBytes(m, v.blk) == Ok(BlockOf(v.data, b, v.blk))
    requires Stream(dataType, es, v.blk).Ok? && ValuesInRange(es)
    requires Tiles(m.runs, start, PageCount(es, v.blk))
    requires var s := Stream(dataType, es, v.blk).value;
             forall k: nat :: k < PageCount(es, v.blk) ==> BlockOf(v.data, start + k, v.blk) == BlockOf(s, k, v.blk)
    ensures DirEntries(v, b) == Ok(es)
  {
    hide InodeBytes, BlockOf, StreamBytes, GetEntries, MetaOk, Tiles, GetInode, Stream, PageCount;
    var s, n := Stream(dataType, es, v.blk).value, PageCount(es, v.blk);
    StreamReads(v, b, m, start, n);
    StreamLength(dataType, es, v.blk);
    assert v.blk * n == n * v.blk;
    CopyJoins(v.data, s, start, n, v.blk);
    GetInvertsStream(dataType, es, v.blk);
  }

  // Files --------------------------------------------------------------------------

  lemma NeedBounds(data: bytes, blk: nat)
    requires blk > 0
    ensures |data| <= Need(data, blk) * blk < |data| + blk
  {
    var x := |data| + blk - 1;
    assert x == x / blk * blk + x % blk;
  }

  function Padded(data: bytes, blk: nat): (r: bytes)
    requires blk > 0
    ensures |r| == Need(data, blk) * blk && data <= r
  {
    NeedBounds(data, blk);
    data + Zeros(Need(data, blk) * blk - |data|)
  }

  lemma FileBlockPadded(data: bytes, blk: nat, k: nat)
    requires blk > 0 && k < Need(data, blk)
    ensures BlockOf(Padded(data, blk), k, blk) == FileBlock(data, k, blk)
  {
    hide Need;
    var p := Padded(data, blk);
    NeedBounds(data, blk);
    BlockBounds(k, Need(data, blk), blk);
    MulLe(k + 1, Need(data, blk), blk);
    var lo, hi := k * blk, (k + 1) * blk;
    assert lo <= |data| by {
      if k + 1 < Need(data, blk) {
        MulLe(k + 2, Need(data, blk), blk);
        assert (k + 2) * blk == hi + blk;
      }
    }
    var chunk := Slice(data, lo, hi);
    if hi <= |data| {
      assert p[lo..hi] == data[lo..hi];
    } else {
      assert chunk == data[lo..];
      assert p[lo..hi] == data[lo..] + Zeros(hi - |data|);
    }
  }

  /** A file reads back as its bytes. */
  lemma FileReads(v: Vol, b: int, m: Meta, data: bytes, start: nat)
    requires ValidBlk(v.blk) && v.group == GROUPSIZE && MetaOk(m, v.blk) && m.size == |data|
    requires InodeBytes(m, v.blk) == Ok(BlockOf(v.data, b, v.blk))
    requires Tiles(m.runs, start, Need(data, v.blk))
    requires forall k: nat :: k < Need(data, v.blk) ==> BlockOf(v.data, start + k, v.blk) == FileBlock(data, k, v.blk)
    ensures FileBytes(v, b) == Ok(data)
  {
    hide InodeBytes, BlockOf, StreamBytes, MetaOk, Tiles, GetInode, FileBlock, Need, I64, Padded;
    StreamReads(v, b, m, start, Need(data, v.blk));
    FileStream(v, data, start);
    assert Slice(Padded(data, v.blk), 0, |data|) == data;
  }

  /** The blocks of a file, joined. */
  lemma FileStream(v: Vol, data: bytes, start: nat)
    requires v.blk > 0
    requires forall k: nat :: k < Need(data, v.blk) ==> BlockOf(v.data, start + k, v.blk) == FileBlock(data, k, v.blk)
    ensures Flatten(BlocksOf(v.data, start, Need(data, v.blk), v.blk)) == Padded(data, v.blk)
  {
    hide BlockOf, FileBlock, Need, Padded;
    var n, p := Need(data, v.blk), Padded(data, v.blk);
    forall k: nat | k < n
      ensures BlockOf(v.data, start + k, v.blk) == BlockOf(p, k, v.blk)
    {
      FileBlockPadded(data, v.blk, k);
    }
    CopyJoins(v.data, p, start, n, v.blk);
  }

  /** A file taken for a directory: its padded bytes, parsed as a tree. */
  lemma FileEntries(v: Vol, b: int, m: Meta, data: bytes, start: nat)
    requires ValidBlk(v.blk) && v.group == GROUPSIZE && MetaOk(m, v.blk)
    requires InodeBytes(m, v.blk) == Ok(BlockOf(v.data, b, v.blk))
    requires Tiles(m.runs, start, Need(data, v.blk))
    requires forall k: nat :: k < Need(data, v.blk) ==> BlockOf(v.data, start + k, v.blk) == FileBlock(data, k, v.blk)
    ensures DirEntries(v, b) == GetEntries(Padded(data, v.blk), v.blk)
  {
    hide InodeBytes, BlockOf, StreamBytes, MetaOk, Tiles, GetInode, FileBlock, Need, Padded, GetEntries;
    StreamReads(v, b, m, start, Need(data, v.blk));
    FileStream(v, data, start);
  }

  // ---------------------------------------------------------------------------
  // Stored records
  // ---------------------------------------------------------------------------

  lemma PagesFew(es: seq<Entry>, blk: nat)
    requires ValidBlk(blk) && Stream(BTREE_STRING, es, blk).Ok?
    ensures 2 <= PageCount(es, blk) <= 6553
  {
    var chunks := Chunks(es, blk).value;
    StreamLength(BTREE_STRING, es, blk);
    if |chunks| > 1 {
      StreamIsDeep(BTREE_STRING, es, blk);
      FewLeaves(chunks, blk);
    }
  }

  /** The inode of a stored record satisfies what the readers need. */
  lemma RecMetaOk(r: Rec, m: Manifest, blk: nat, limit: nat)
    requires ValidBlk(blk) && Placed(r, blk) && r.block + RecBlocks(r, blk) <= limit <= MAX_BLOCKS
    requires AttrsFit(NodeAttrs(r, m), blk)
    requires |NodeMeta(r, m, blk).runs| <= DIRECT
    ensures MetaOk(NodeMeta(r, m, blk), blk)
    ensures r.FileRec? ==> Tiles(NodeMeta(r, m, blk).runs, r.block + 1, Need(r.data, blk))
    ensures r.DirRec? ==> Tiles(NodeMeta(r, m, blk).runs, r.stream, r.nblk)
  {
    hide SplitRuns, Tiles, RunsOk, SmallData, Need, Stream, PageCount;
    if r.FileRec? {
      SplitRunsOk(r.block + 1, Need(r.data, blk));
      NeedBounds(r.data, blk);
      MulLe(Need(r.data, blk), MAX_BLOCKS, blk);
      MulLe(blk, 0x1_0000, MAX_BLOCKS);
    } else {
      SplitRunsOk(r.stream, r.nblk);
      PagesFew(RecEntries(r), blk);
      MulLe(r.nblk, 6553, blk);
    }
  }

  lemma ModesAreKinds()
    ensures IsDirMode(DIR_MODE) && !IsDirMode(FILE_MODE)
  {
  }
}
