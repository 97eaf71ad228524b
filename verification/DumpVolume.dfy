/**
 The second reader, `tools/befs_dump.py`: superblock fields, and data streams fetched as whole
 runs and cut to the inode's size. It returns the same directories as `befs_get`.
 */
module DumpVolume {
  import opened Bytes
  import opened BPlusTree
  import opened TreeReaders
  import opened RoundTrip
  import opened BlockRuns
  import opened Inodes
  import opened Volume
  import opened Images
  import opened ReadBack
  import Bits

  /** The superblock fields that `befs_dump` and `befs_mkdirty` use; `group` is the number of blocks
      per allocation group, `root` and `indices` are inode blocks. */
  datatype Befs = Befs(
    name: bytes, blk: nat, shift: nat, numBlocks: int, used: int, inodeSize: nat, numAgs: nat, group: nat,
    log: Run, logStart: int, logEnd: int, root: int, indices: int)

  /** The bytes before the first NUL. */
  function UpToZero(s: bytes): bytes
  {
    if s == [] || s[0] == 0 then [] else [s[0]] + UpToZero(s[1..])
  }

  predicate Tail(s: bytes, i: nat)
  {
    i < |s| && 0x80 <= s[i] <= 0xBF
  }

  /** The length of the UTF-8 sequence at the front, 0 when there is none (section 4 of RFC 3629). */
  function Utf8Step(s: bytes): (n: nat)
    requires s != []
    ensures n <= |s|
  {
    if s[0] <= 0x7F then 1
    else if 0xC2 <= s[0] <= 0xDF then (if Tail(s, 1) then 2 else 0)
    else if 0xE0 <= s[0] <= 0xEF then
      (if Tail(s, 1) && Tail(s, 2) && (s[0] == 0xE0 ==> s[1] >= 0xA0) && (s[0] == 0xED ==> s[1] <= 0x9F) then 3 else 0)
    else if 0xF0 <= s[0] <= 0xF4 then
      (if Tail(s, 1) && Tail(s, 2) && Tail(s, 3) && (s[0] == 0xF0 ==> s[1] >= 0x90) && (s[0] == 0xF4 ==> s[1] <= 0x8F)
       then 4 else 0)
    else 0
  }

  /** `decode()` succeeds. */
  predicate Utf8(s: bytes)
    decreases |s|
  {
    s == [] || (Utf8Step(s) > 0 && Utf8(s[Utf8Step(s)..]))
  }

  /** `Befs.__init__`; runs are decoded for groups of 8192 blocks. */
  function OpenBefs(buf: bytes): Result<Befs>
  {
    var sb := Slice(buf, 512, 1024);
    var magic :- U32(sb, 32);
    var name := UpToZero(Slice(sb, 0, 32));
    if magic != SB_MAGIC1 then Err(BadMagic)
    else if !Utf8(name) then Err(DecodeError)
    else
      var blk :- U32(sb, 40);
      var shift :- U32(sb, 44);
      var numBlocks :- I64(sb, 48);
      var used :- I64(sb, 56);
      var inodeSize :- U32(sb, 64);
      var numAgs :- U32(sb, 80);
      var agShift :- U32(sb, 76);
      var log :- ReadRun(sb, 88, GROUPSIZE);
      var logStart :- I64(sb, 96);
      var logEnd :- I64(sb, 104);
      var root :- ReadRun(sb, 116, GROUPSIZE);
      var indices :- ReadRun(sb, 124, GROUPSIZE);
      Ok(Befs(name, blk, shift, numBlocks, used, inodeSize, numAgs, Bits.Pow2(agShift),
              log, logStart, logEnd, root.start, indices.start))
  }

  function DumpInode(buf: bytes, b: int, blk: nat): Result<bytes>
  {
    var node := BlockOf(buf, b, blk);
    var magic :- U32(node, 0);
    if magic != INODE_MAGIC1 then Err(BadMagic) else Ok(node)
  }

  /** `out` followed by the nonempty runs from `i` on; unlike `befs_get`, an empty run does not
      end the array. */
  function NonEmptyRuns(read: nat -> Result<Run>, i: nat, out: seq<Run>): Result<seq<Run>>
    requires i <= DIRECT
    decreases DIRECT - i
  {
    if i == DIRECT then Ok(out)
    else
      var run :- read(i);
      NonEmptyRuns(read, i + 1, if run.len != 0 then out + [run] else out)
  }

  function RunSlice(buf: bytes, run: Run, blk: nat): bytes
  {
    Slice(buf, run.start * blk, run.start * blk + run.len * blk)
  }

  function RunSlices(buf: bytes, runs: seq<Run>, blk: nat): bytes
  {
    if runs == [] then []
    else RunSlice(buf, runs[0], blk) + RunSlices(buf, runs[1..], blk)
  }

  /** `read_stream` */
  function DumpStream(buf: bytes, node: bytes, blk: nat): Result<bytes>
  {
    var runs :- NonEmptyRuns(RunReader(node, GROUPSIZE), 0, []);
    var size :- I64(node, 208);
    Ok(Slice(RunSlices(buf, runs, blk), 0, size))
  }

  /** `stream_runs` and `read_stream` as loops. */
  method ReadRuns(read: nat -> Result<Run>) returns (r: Result<seq<Run>>)
    ensures r == NonEmptyRuns(read, 0, [])
  {
    hide NonEmptyRuns;
    var runs: seq<Run>, i: nat := [], 0;
    while i < DIRECT
      invariant i <= DIRECT
      invariant NonEmptyRuns(read, 0, []) == NonEmptyRuns(read, i, runs)
    {
      NextRun(read, i, runs);
      var run :- read(i);
      if run.len != 0 {
        runs := runs + [run];
      }
      i := i + 1;
    }
    NoMoreRuns(read, runs);
    return Ok(runs);
  }

  lemma NextRun(read: nat -> Result<Run>, i: nat, out: seq<Run>)
    requires i < DIRECT
    ensures NonEmptyRuns(read, i, out)
         == match read(i)
            case Err(e) => Err(e)
            case Ok(run) => NonEmptyRuns(read, i + 1, if run.len != 0 then out + [run] else out)
  {
  }

  lemma NoMoreRuns(read: nat -> Result<Run>, out: seq<Run>)
    ensures NonEmptyRuns(read, DIRECT, out) == Ok(out)
  {
  }

  method ReadSlices(buf: bytes, runs: seq<Run>, blk: nat) returns (out: bytes)
    ensures out == RunSlices(buf, runs, blk)
  {
    hide RunSlice;
    out := [];
    var i := 0;
    assert runs[0..] == runs;
    while i < |runs|
      invariant 0 <= i <= |runs|
      invariant RunSlices(buf, runs, blk) == out + RunSlices(buf, runs[i..], blk)
    {
      var piece := RunSlice(buf, runs[i], blk);
      assert runs[i..][0] == runs[i] && runs[i..][1..] == runs[i + 1..];
      assert out + (piece + RunSlices(buf, runs[i + 1..], blk)) == out + piece + RunSlices(buf, runs[i + 1..], blk);
      out := out + piece;
      i := i + 1;
    }
  }

  // ---------------------------------------------------------------------------
  // The same bytes as befs_get
  // ---------------------------------------------------------------------------

  lemma {:induction false} SliceIsBlocks(buf: bytes, n: nat, start: nat, len: nat, blk: nat)
    requires |buf| == n * blk && start + len <= n
    ensures Slice(buf, start * blk, start * blk + len * blk) == Flatten(BlocksOf(buf, start, len, blk))
    decreases len
  {
    Span(start, len, n, blk);
    if len > 0 {
      var k := len - 1;
      SliceIsBlocks(buf, n, start, k, blk);
      Span(start, k, n, blk);
      NextBlock(start + k, blk);
      assert BlocksOf(buf, start, len, blk) == BlocksOf(buf, start, k, blk) + [BlockOf(buf, start + k, blk)];
      FlattenSnoc(BlocksOf(buf, start, k, blk), BlockOf(buf, start + k, blk));
      SliceSplit(buf, start * blk, (start + k) * blk, (start + len) * blk);
    }
  }

  lemma Span(start: nat, len: nat, n: nat, blk: nat)
    requires start + len <= n
    ensures 0 <= start * blk <= (start + len) * blk == start * blk + len * blk <= n * blk
  {
    MulLe(start, start + len, blk);
    MulLe(start + len, n, blk);
  }

  lemma SliceSplit(s: bytes, a: nat, b: nat, c: nat)
    requires a <= b <= c <= |s|
    ensures s[a..c] == s[a..b] + s[b..c]
  {
  }

  lemma FlattenNone()
    ensures Flatten<byte>([]) == []
  {
  }

  lemma {:induction false} TilesSlices(buf: bytes, n: nat, runs: seq<Run>, start: nat, need: nat, blk: nat)
    requires |buf| == n * blk && start + need <= n && Tiles(runs, start, need)
    ensures RunSlices(buf, runs, blk) == Flatten(BlocksOf(buf, start, need, blk))
    decreases |runs|
  {
    hide BlockOf, Flatten, Slice;
    if runs == [] {
      assert BlocksOf(buf, start, need, blk) == [];
      FlattenNone();
    } else {
      var len := runs[0].len;
      SliceIsBlocks(buf, n, start, len, blk);
      TilesSlices(buf, n, runs[1..], start + len, need - len, blk);
      var a, b := BlocksOf(buf, start, len, blk), BlocksOf(buf, start + len, need - len, blk);
      assert BlocksOf(buf, start, need, blk) == a + b;
      FlattenAppend(a, b);
    }
  }

  lemma {:induction false} RunsReadAll(read: nat -> Result<Run>, runs: seq<Run>, i: nat, out: seq<Run>)
    requires i <= DIRECT && |runs| <= DIRECT && RunsOk(runs)
    requires out == runs[..if i < |runs| then i else |runs|]
    requires forall j: nat :: j < DIRECT ==> read(j) == Ok(if j < |runs| then runs[j] else Run(0, 0))
    ensures NonEmptyRuns(read, i, out) == Ok(runs)
    decreases DIRECT - i
  {
    if i < DIRECT {
      if i < |runs| {
        assert runs[i] in runs;
        assert runs[..i + 1] == runs[..i] + [runs[i]];
        RunsReadAll(read, runs, i + 1, out + [runs[i]]);
      } else {
        RunsReadAll(read, runs, i + 1, out);
      }
    } else {
      assert runs[..|runs|] == runs;
    }
  }

  /** An inode's stream, cut to its size. */
  lemma DumpStreamReads(buf: bytes, n: nat, b: int, m: Meta, start: nat, need: nat, blk: nat)
    requires ValidBlk(blk) && MetaOk(m, blk) && |buf| == n * blk && start + need <= n
    requires InodeBytes(m, blk) == Ok(BlockOf(buf, b, blk)) && Tiles(m.runs, start, need)
    ensures DumpInode(buf, b, blk) == Ok(BlockOf(buf, b, blk))
    ensures DumpStream(buf, BlockOf(buf, b, blk), blk) == Ok(Slice(Flatten(BlocksOf(buf, start, need, blk)), 0, m.size))
  {
    hide InodeBytes, BlockOf, RunReader, RunSlices, BlocksOf, U32, I64, Tiles, AttrsFit;
    var node := BlockOf(buf, b, blk);
    InodeReadsBack(m, blk);
    forall j: nat | j < DIRECT
      ensures RunReader(node, GROUPSIZE)(j) == Ok(if j < |m.runs| then m.runs[j] else Run(0, 0))
    {
      InodeRun(m, blk, j);
    }
    RunsReadAll(RunReader(node, GROUPSIZE), m.runs, 0, []);
    TilesSlices(buf, n, m.runs, start, need, blk);
  }

  function DumpDir(buf: bytes, b: int, blk: nat): Result<seq<Entry>>
  {
    var node :- DumpInode(buf, b, blk);
    var stream :- DumpStream(buf, node, blk);
    DumpEntries(stream)
  }

  /** `befs_dump` gives back the entry list of a stored directory, like `befs_get`, exactly up to
      4097 leaves. */
  lemma DumpDirectoryReads(buf: bytes, n: nat, b: int, m: Meta, es: seq<Entry>, start: nat, blk: nat)
    requires ValidBlk(blk) && MetaOk(m, blk) && |buf| == n * blk && start + PageCount(es, blk) <= n
    requires InodeBytes(m, blk) == Ok(BlockOf(buf, b, blk)) && Tiles(m.runs, start, PageCount(es, blk))
    requires Stream(BTREE_STRING, es, blk).Ok? && ValuesInRange(es) && m.size == PageCount(es, blk) * blk
    requires var s := Stream(BTREE_STRING, es, blk).value;
             forall k: nat :: k < PageCount(es, blk) ==> BlockOf(buf, start + k, blk) == BlockOf(s, k, blk)
    ensures DumpDir(buf, b, blk) == Ok(es) <==> |Chunks(es, blk).value| <= DUMP_SEEN_CAP + 1
    ensures blk <= 0x8000 || PageCount(es, blk) == 2 ==> DumpDir(buf, b, blk) == Ok(es)
  {
    hide InodeBytes, BlockOf, DumpStream, DumpEntries, MetaOk, Tiles, DumpInode, Stream, Slice, PageCount, ValidBlk;
    Dumpable(es, blk);
    var s, pages := Stream(BTREE_STRING, es, blk).value, PageCount(es, blk);
    DumpStreamReads(buf, n, b, m, start, pages, blk);
    StreamLength(BTREE_STRING, es, blk);
    assert blk * pages == pages * blk;
    CopyJoins(buf, s, start, pages, blk);
    WholeSlice(s);
  }

  lemma WholeSlice(s: bytes)
    ensures Slice(s, 0, |s|) == s
  {
  }

  lemma Dumpable(es: seq<Entry>, blk: nat)
    requires ValidBlk(blk) && Stream(BTREE_STRING, es, blk).Ok? && ValuesInRange(es)
    ensures Chunks(es, blk).Ok?
    ensures DumpEntries(Stream(BTREE_STRING, es, blk).value) == Ok(es) <==> |Chunks(es, blk).value| <= DUMP_SEEN_CAP + 1
    ensures blk <= 0x8000 || PageCount(es, blk) == 2 ==> DumpEntries(Stream(BTREE_STRING, es, blk).value) == Ok(es)
  {
    hide DumpEntries;
    DumpInvertsStream(BTREE_STRING, es, blk);
  }
}
