/**
 The volume reader of `tools/befs_get.py`: superblock, inodes, data streams, directory lookup,
 path resolution, file contents and listings. A volume is a flat byte string.
 */
module Volume {
  import opened Bytes
  import opened Bits
  import opened BPlusTree
  import opened TreeReaders
  import opened TreeSearch
  import opened BlockRuns
  import opened Inodes

  const SB_MAGIC1: nat := 0x42465331

  /** An opened volume: its bytes, block size, blocks per group, and root inode block. */
  datatype Vol = Vol(data: bytes, blk: nat, group: nat, root: int)

  /** `Vol.__init__`: the geometry comes from the superblock at byte 512. */
  function Open(data: bytes): Result<Vol>
  {
    var sb := Slice(data, 512, 1024);
    var magic :- U32(sb, 32);
    if magic != SB_MAGIC1 then Err(BadMagic)
    else
      var blk :- U32(sb, 40);
      var shift :- U32(sb, 76);
      var root :- ReadRun(sb, 116, Pow2(shift));
      Ok(Vol(data, blk, Pow2(shift), root.start))
  }

  function BlockOf(data: bytes, n: int, blk: nat): bytes
  {
    Slice(data, n * blk, (n + 1) * blk)
  }

  /** The blocks `start`, `start + 1`, ... of a run. */
  function BlocksOf(data: bytes, start: int, len: nat, blk: nat): (r: seq<bytes>)
    ensures |r| == len
  {
    seq(len, k requires 0 <= k < len => BlockOf(data, start + k, blk))
  }

  function GetInode(v: Vol, b: int): Result<bytes>
  {
    var node := BlockOf(v.data, b, v.blk);
    var magic :- U32(node, 0);
    if magic != INODE_MAGIC1 then Err(BadMagic) else Ok(node)
  }

  // ---------------------------------------------------------------------------
  // Data streams
  // ---------------------------------------------------------------------------

  function RunReader(node: bytes, group: nat): nat -> Result<Run>
  {
    (j: nat) => ReadRun(node, 72 + 8 * j, group)
  }

  /** `out` followed by the direct runs from `j` on; an empty run ends the array. */
  function RunsFrom(read: nat -> Result<Run>, j: nat, out: seq<Run>): Result<seq<Run>>
    requires j <= DIRECT
    decreases DIRECT - j
  {
    if j == DIRECT then Ok(out)
    else
      var run :- read(j);
      if run.len == 0 then Ok(out) else RunsFrom(read, j + 1, out + [run])
  }

  /** The bytes of a list of runs. */
  function RunBytes(data: bytes, runs: seq<Run>, blk: nat): bytes
  {
    if runs == [] then []
    else Flatten(BlocksOf(data, runs[0].start, runs[0].len, blk)) + RunBytes(data, runs[1..], blk)
  }

  /** The contents of an inode's data stream. */
  function StreamBytes(v: Vol, node: bytes): Result<bytes>
  {
    var runs :- RunsFrom(RunReader(node, v.group), 0, []);
    Ok(RunBytes(v.data, runs, v.blk))
  }

  lemma {:induction false} RunBytesSnoc(data: bytes, runs: seq<Run>, r: Run, blk: nat)
    ensures RunBytes(data, runs + [r], blk)
         == RunBytes(data, runs, blk) + Flatten(BlocksOf(data, r.start, r.len, blk))
  {
    hide BlocksOf, Flatten;
    var last := Flatten(BlocksOf(data, r.start, r.len, blk));
    if runs == [] {
      assert runs + [r] == [r];
      assert RunBytes(data, [r], blk) == last + RunBytes(data, [], blk);
      assert last + [] == last && [] + last == last;
    } else {
      RunBytesSnoc(data, runs[1..], r, blk);
      assert (runs + [r])[1..] == runs[1..] + [r];
      var first := Flatten(BlocksOf(data, runs[0].start, runs[0].len, blk));
      assert first + (RunBytes(data, runs[1..], blk) + last) == first + RunBytes(data, runs[1..], blk) + last;
    }
  }

  /** One run's blocks, appended one at a time. */
  method AppendBlocks(data: bytes, start: int, len: nat, blk: nat, out: bytes) returns (r: bytes)
    ensures r == out + Flatten(BlocksOf(data, start, len, blk))
  {
    r := out;
    ghost var all := BlocksOf(data, start, len, blk);
    var k := 0;
    assert all[..0] == [];
    assert out + Flatten<byte>([]) == out;
    while k < len
      invariant 0 <= k <= len
      invariant r == out + Flatten(all[..k])
    {
      assert all[..k + 1] == all[..k] + [all[k]];
      FlattenSnoc(all[..k], all[k]);
      assert out + Flatten(all[..k]) + all[k] == out + (Flatten(all[..k]) + all[k]);
      r := r + BlockOf(data, start + k, blk);
      k := k + 1;
    }
    assert all[..k] == all;
  }

  /** `stream_bytes`: the runs are read and their blocks appended in one loop. */
  method ReadStream(v: Vol, node: bytes) returns (r: Result<bytes>)
    ensures r == StreamBytes(v, node)
  {
    hide RunReader, BlocksOf, Flatten;
    var read := RunReader(node, v.group);
    var out: bytes := [];
    ghost var runs: seq<Run> := [];
    var j: nat := 0;
    while j < DIRECT
      invariant j <= DIRECT
      invariant RunsFrom(read, 0, []) == RunsFrom(read, j, runs)
      invariant out == RunBytes(v.data, runs, v.blk)
    {
      var run :- read(j);
      if run.len == 0 {
        return Ok(out);
      }
      RunBytesSnoc(v.data, runs, run, v.blk);
      out := AppendBlocks(v.data, run.start, run.len, v.blk, out);
      runs := runs + [run];
      j := j + 1;
    }
    return Ok(out);
  }

  // ---------------------------------------------------------------------------
  // Directories, paths and files
  // ---------------------------------------------------------------------------

  function DirEntries(v: Vol, b: int): Result<seq<Entry>>
  {
    var node :- GetInode(v, b);
    var stream :- StreamBytes(v, node);
    GetEntries(stream, v.blk)
  }

  /** The file type bits of a mode say "directory". */
  predicate IsDirMode(mode: nat)
  {
    mode % 0x1_0000 / 0x1000 == 4
  }

  /** Of a mode's bits only 12 to 15 count. */
  lemma DirModeIff(high: nat, kind: nat, low: nat)
    requires kind < 16 && low < 0x1000
    ensures IsDirMode(high * 0x1_0000 + kind * 0x1000 + low) <==> kind == 4
  {
  }

  function IsDir(v: Vol, b: int): Result<bool>
  {
    var node :- GetInode(v, b);
    var mode :- U32(node, 20);
    Ok(IsDirMode(mode))
  }

  function FileBytes(v: Vol, b: int): Result<bytes>
  {
    var node :- GetInode(v, b);
    var size :- I64(node, 208);
    var stream :- StreamBytes(v, node);
    Ok(Slice(stream, 0, size))
  }

  datatype Found = Missing | FoundFile(block: int) | FoundDir(block: int)

  /** The two questions path resolution asks of a volume. */
  datatype Namespace = Namespace(entries: int -> Result<seq<Entry>>, isDir: int -> Result<bool>)

  function NamespaceOf(v: Vol): Namespace
  {
    Namespace(b => DirEntries(v, b), b => IsDir(v, b))
  }

  /** Walk the components from `i` on, starting in directory `b`. */
  function ResolveFrom(ns: Namespace, b: int, comps: seq<bytes>, i: nat): Result<Found>
    requires i <= |comps|
    decreases |comps| - i
  {
    if i == |comps| then Ok(FoundDir(b))
    else
      var es :- ns.entries(b);
      match Scan(es, comps[i])
      case None => Ok(Missing)
      case Some(nb) =>
        var isDir :- ns.isDir(nb);
        if i + 1 < |comps| then ResolveFrom(ns, nb, comps, i + 1)
        else Ok(if isDir then FoundDir(nb) else FoundFile(nb))
  }

  /** `resolve`, for the nonempty components of a path. */
  method Resolve(v: Vol, comps: seq<bytes>) returns (r: Result<Found>)
    ensures r == ResolveFrom(NamespaceOf(v), v.root, comps, 0)
  {
    var ns := NamespaceOf(v);
    if comps == [] {
      return Ok(FoundDir(v.root));
    }
    r := WalkPath(ns, v.root, comps);
  }

  method WalkPath(ns: Namespace, root: int, comps: seq<bytes>) returns (r: Result<Found>)
    requires comps != []
    ensures r == ResolveFrom(ns, root, comps, 0)
  {
    var b, i: nat := root, 0;
    while true
      invariant i < |comps|
      invariant ResolveFrom(ns, root, comps, 0) == ResolveFrom(ns, b, comps, i)
      decreases |comps| - i
    {
      var es :- ns.entries(b);
      var hit := DirEntry(es, comps[i]);
      if hit.None? {
        return Ok(Missing);
      }
      var isDir :- ns.isDir(hit.value);
      if i == |comps| - 1 {
        return Ok(if isDir then FoundDir(hit.value) else FoundFile(hit.value));
      }
      b, i := hit.value, i + 1;
    }
  }

  datatype Listed = Listed(name: bytes, isDir: bool)

  /** `out` followed by the listing of the entries from `i` on; `.` and `..` are skipped. */
  function ListFrom(ns: Namespace, es: seq<Entry>, i: nat, out: seq<Listed>): Result<seq<Listed>>
    requires i <= |es|
    decreases |es| - i
  {
    if i == |es| then Ok(out)
    else if es[i].key == DOT || es[i].key == DOT_DOT then ListFrom(ns, es, i + 1, out)
    else
      var isDir :- ns.isDir(es[i].value);
      ListFrom(ns, es, i + 1, out + [Listed(es[i].key, isDir)])
  }

  function Listing(ns: Namespace, b: int): Result<seq<Listed>>
  {
    var es :- ns.entries(b);
    ListFrom(ns, es, 0, [])
  }

  /** `list_dir` */
  method ListDir(v: Vol, b: int) returns (r: Result<seq<Listed>>)
    ensures r == Listing(NamespaceOf(v), b)
  {
    var ns := NamespaceOf(v);
    var es :- ns.entries(b);
    r := ListEntries(ns, es);
  }

  method ListEntries(ns: Namespace, es: seq<Entry>) returns (r: Result<seq<Listed>>)
    ensures r == ListFrom(ns, es, 0, [])
  {
    var out: seq<Listed>, i: nat := [], 0;
    while i < |es|
      invariant i <= |es|
      invariant ListFrom(ns, es, 0, []) == ListFrom(ns, es, i, out)
    {
      if es[i].key != DOT && es[i].key != DOT_DOT {
        var isDir :- ns.isDir(es[i].value);
        out := out + [Listed(es[i].key, isDir)];
      }
      i := i + 1;
    }
    return Ok(out);
  }
}
