/**
 `tools/befs_mkdirty.py`: a pending journal transaction is injected into an image. The staged
 tree reads the same afterwards, and replaying the transaction changes nothing.
 */
module Journal {
  import opened Bytes
  import Bits
  import opened BPlusTree
  import opened TreeReaders
  import opened RoundTrip
  import opened TreeSearch
  import opened BlockRuns
  import opened Inodes
  import opened Volume
  import opened Images
  import opened Staging
  import opened StageWriter
  import opened ReadBack
  import opened EndToEnd
  import opened DumpVolume
  import opened SelfCheck
  import opened Build

  const DIRT: nat := 0x44495254
  /** "README.TXT" */
  const README_TXT: bytes := [82, 69, 65, 68, 77, 69, 46, 84, 88, 84]

  /** The data block that the transaction journals: the first block of README.TXT. */
  function FindTarget(buf: bytes, b: Befs): Result<int>
  {
    var es :- DumpDir(buf, b.root, b.blk);
    match Scan(es, README_TXT)
    case None => Err(NotFound)
    case Some(ino) =>
      var node :- DumpInode(buf, ino, b.blk);
      var run :- ReadRun(node, 72, GROUPSIZE);
      Ok(run.start)
  }

  /** The run_array block: one run of one block. */
  function RunArray(dataBlk: int, group: nat, blk: nat): (r: bytes)
    requires group > 0 && blk >= 16
    ensures |r| == blk
  {
    Encode(1, 4) + Encode(127, 4) + Encode(dataBlk / group, 4) + Encode(dataBlk % group, 2) + Encode(1, 2) + Zeros(blk - 16)
  }

  /** What `struct` can pack: the block has room for the run record, its group number fits 32 bits
      and its start 16, and the new log end fits 64. */
  predicate Packs(b: Befs, dataBlk: int)
  {
    && b.blk >= 16 && b.group > 0
    && -0x8000_0000 <= dataBlk / b.group < 0x8000_0000 && dataBlk % b.group < 0x1_0000
    && b.logEnd + 2 < MAX_I64
  }

  function Patch(buf: bytes, o: nat, field: bytes): bytes
  {
    Splice(buf, o, o + |field|, field)
  }

  /** The superblock fields of a crashed image: DIRT, and a log end past the transaction. */
  function MarkDirty(buf: bytes, logStart: int, logEnd: int): bytes
  {
    Patch(Patch(Patch(buf, 596, Encode(DIRT, 4)), 608, Encode(logStart, 8)), 616, Encode(logEnd + 2, 8))
  }

  /** The image after the injection; `at` is the log block of the run array. */
  function Inject(buf: bytes, at: nat, arr: bytes, content: bytes, logStart: int, logEnd: int, blk: nat): bytes
  {
    MarkDirty(Put(Put(buf, at, arr, blk), at + 1, content, blk), logStart, logEnd)
  }

  /** One block of the buffer assigned, at a log position that may be negative. */
  function AssignBlock(buf: bytes, at: int, data: bytes, blk: nat): bytes
  {
    Assign(buf, at * blk, at * blk + blk, data)
  }

  /** The log block at the log's end. */
  function LogPosition(b: Befs): int
    requires b.log.len > 0
  {
    b.log.start + b.logEnd % b.log.len
  }

  /** Run array and content, at log position `log_end % log_len`. */
  function WithLog(buf: bytes, b: Befs, dataBlk: int): bytes
    requires b.log.len > 0 && Packs(b, dataBlk)
  {
    var at := b.log.start + b.logEnd % b.log.len;
    var first := AssignBlock(buf, at, RunArray(dataBlk, b.group, b.blk), b.blk);
    Assign(first, at * b.blk + b.blk, at * b.blk + 2 * b.blk, BlockOf(buf, dataBlk, b.blk))
  }

  /** A clean log, a README.TXT to journal, fields that can be packed, and a superblock that is
      still there to be patched. */
  predicate CanInject(buf: bytes, b: Befs)
  {
    && b.numBlocks != 0 && b.logStart == b.logEnd && b.log.len > 0 && FindTarget(buf, b).Ok?
    && Packs(b, FindTarget(buf, b).value)
    && |WithLog(buf, b, FindTarget(buf, b).value)| >= 624
  }

  function Injected(buf: bytes, b: Befs): bytes
    requires CanInject(buf, b)
  {
    MarkDirty(WithLog(buf, b, FindTarget(buf, b).value), b.logStart, b.logEnd)
  }

  lemma OpenGroup(buf: bytes)
    requires OpenBefs(buf).Ok?
    ensures OpenBefs(buf).value.group > 0
  {
    hide ReadRun, U32, I64;
  }

  /** `main`, on any bytes. */
  method Mkdirty(buf: bytes) returns (r: Result<bytes>)
    ensures r.Ok? <==> OpenBefs(buf).Ok? && CanInject(buf, OpenBefs(buf).value)
    ensures r.Ok? ==> r.value == Injected(buf, OpenBefs(buf).value)
    ensures OpenBefs(buf).Ok? && OpenBefs(buf).value.logStart != OpenBefs(buf).value.logEnd ==> r == Err(LogDirty)
    ensures r.Ok? && TransactionFits(buf, OpenBefs(buf).value) ==>
              Pending(buf, r.value, OpenBefs(buf).value, FindTarget(buf, OpenBefs(buf).value).value)
  {
    hide OpenBefs, FindTarget, RunArray, BlockOf, Splice, Assign, Encode, TransactionFits, Pending;
    var sb := OpenBefs(buf);
    if sb.Err? {
      return Err(sb.error);
    }
    OpenGroup(buf);
    var b := sb.value;
    if b.numBlocks == 0 || b.logStart != b.logEnd {
      return Err(LogDirty);
    }
    var target := FindTarget(buf, b);
    if target.Err? {
      return Err(target.error);
    }
    var dataBlk := target.value;
    var content := BlockOf(buf, dataBlk, b.blk);
    if b.log.len == 0 {
      return Err(ZeroDivision);
    }
    var at := b.log.start + b.logEnd % b.log.len;
    if b.blk < 16 || dataBlk / b.group < -0x8000_0000 || dataBlk / b.group >= 0x8000_0000 || dataBlk % b.group >= 0x1_0000 {
      return Err(StructError);
    }
    var base := at * b.blk;
    var out := Assign(buf, base, base + b.blk, RunArray(dataBlk, b.group, b.blk));
    out := Assign(out, base + b.blk, base + 2 * b.blk, content);
    if |out| < 624 || b.logEnd + 2 >= MAX_I64 {
      return Err(StructError);
    }
    out := Patch(out, 596, Encode(DIRT, 4));
    out := Patch(out, 608, Encode(b.logStart, 8));
    out := Patch(out, 616, Encode(b.logEnd + 2, 8));
    if TransactionFits(buf, b) {
      InjectionPends(buf, b);
    }
    return Ok(out);
  }

  // ---------------------------------------------------------------------------
  // Which blocks the injection changes
  // ---------------------------------------------------------------------------

  lemma PatchBlocks(buf: bytes, n: nat, blk: nat, o: nat, field: bytes, k: nat)
    requires blk >= 1024 && |buf| == n * blk && o + |field| <= 1024 && 0 < k < n
    ensures |Patch(buf, o, field)| == |buf|
    ensures BlockOf(Patch(buf, o, field), k, blk) == BlockOf(buf, k, blk)
  {
    BlockBounds(k, n, blk);
    BlocksApart(0, k, blk);
    assert 1 * blk == blk;
    var out := Patch(buf, o, field);
    assert out == buf[..o] + field + buf[o + |field|..];
    assert out[k * blk..(k + 1) * blk] == buf[k * blk..(k + 1) * blk];
  }

  lemma MarkDirtyBlocks(buf: bytes, n: nat, blk: nat, logStart: int, logEnd: int, k: nat)
    requires blk >= 1024 && |buf| == n * blk && 0 < k < n
    ensures |MarkDirty(buf, logStart, logEnd)| == |buf|
    ensures BlockOf(MarkDirty(buf, logStart, logEnd), k, blk) == BlockOf(buf, k, blk)
  {
    hide Patch, BlockOf, Encode;
    var a := Patch(buf, 596, Encode(DIRT, 4));
    var b := Patch(a, 608, Encode(logStart, 8));
    PatchBlocks(buf, n, blk, 596, Encode(DIRT, 4), k);
    PatchBlocks(a, n, blk, 608, Encode(logStart, 8), k);
    PatchBlocks(b, n, blk, 616, Encode(logEnd + 2, 8), k);
  }

  lemma InjectBlocks(buf: bytes, n: nat, blk: nat, at: nat, arr: bytes, content: bytes, logStart: int, logEnd: int, k: nat)
    requires blk >= 1024 && |buf| == n * blk && at + 1 < n && |arr| == |content| == blk && 0 < k < n
    ensures |Inject(buf, at, arr, content, logStart, logEnd, blk)| == |buf|
    ensures BlockOf(Inject(buf, at, arr, content, logStart, logEnd, blk), k, blk)
         == if k == at then arr else if k == at + 1 then content else BlockOf(buf, k, blk)
  {
    hide Put, BlockOf, MarkDirty;
    var a := Put(buf, at, arr, blk);
    PutReads(buf, n, at, arr, blk, k);
    PutReads(a, n, at + 1, content, blk, k);
    MarkDirtyBlocks(Put(a, at + 1, content, blk), n, blk, logStart, logEnd, k);
  }

  /** The data area is untouched exactly when both log blocks lie inside the log, or the block
      behind the log already holds the journaled content. At the last log position the
      content lands on the first data block, which is the volume root's inode. */
  lemma DataAreaKeptIff(buf: bytes, n: nat, blk: nat, logFirst: nat, pos: nat, arr: bytes, content: bytes, logStart: int, logEnd: int)
    requires ValidBlk(blk) && |buf| == n * blk && |arr| == |content| == blk
    requires pos < LOG_LEN && 0 < logFirst && logFirst + LOG_LEN < n
    ensures SameBlocks(buf, Inject(buf, logFirst + pos, arr, content, logStart, logEnd, blk), logFirst + LOG_LEN, n, blk)
            <==> pos + 2 <= LOG_LEN || BlockOf(buf, logFirst + LOG_LEN, blk) == content
  {
    hide Inject, BlockOf;
    var out := Inject(buf, logFirst + pos, arr, content, logStart, logEnd, blk);
    forall k: nat | logFirst + LOG_LEN <= k < n
      ensures BlockOf(out, k, blk) == if k == logFirst + pos + 1 then content else BlockOf(buf, k, blk)
    {
      InjectBlocks(buf, n, blk, logFirst + pos, arr, content, logStart, logEnd, k);
    }
  }

  // ---------------------------------------------------------------------------
  // The geometry is kept
  // ---------------------------------------------------------------------------

  /** Reading a superblock field that a patch does not touch. */
  lemma PatchKeeps(buf: bytes, o: nat, field: bytes, lo: nat, hi: nat)
    requires o + |field| <= |buf| && lo <= hi <= |buf| && (hi <= o || o + |field| <= lo)
    ensures |Patch(buf, o, field)| == |buf|
    ensures Patch(buf, o, field)[lo..hi] == buf[lo..hi]
  {
  }

  lemma MarkDirtyKeeps(buf: bytes, logStart: int, logEnd: int, lo: nat, hi: nat)
    requires |buf| >= 1024 && lo <= hi <= |buf| && (hi <= 596 || (600 <= lo && hi <= 608) || 624 <= lo)
    ensures |MarkDirty(buf, logStart, logEnd)| == |buf|
    ensures MarkDirty(buf, logStart, logEnd)[lo..hi] == buf[lo..hi]
  {
    hide Patch, Encode;
    var a := Patch(buf, 596, Encode(DIRT, 4));
    var b := Patch(a, 608, Encode(logStart, 8));
    PatchKeeps(buf, 596, Encode(DIRT, 4), lo, hi);
    PatchKeeps(a, 608, Encode(logStart, 8), lo, hi);
    PatchKeeps(b, 616, Encode(logEnd + 2, 8), lo, hi);
  }

  /** Puts behind the first 1024 bytes leave them alone. */
  lemma PutKeepsFront(buf: bytes, n: nat, blk: nat, at: nat, data: bytes)
    requires blk >= 1024 && |buf| == n * blk && 0 < at < n && |data| == blk
    ensures |Put(buf, at, data, blk)| == |buf| >= 1024 && Put(buf, at, data, blk)[..1024] == buf[..1024]
  {
    BlockBounds(at, n, blk);
    BlocksApart(0, at, blk);
    assert 1 * blk == blk;
  }

  /** Fields of the superblock as slices of the image. */
  lemma SuperSlice(buf: bytes, o: nat, w: nat)
    requires |buf| >= 1024 && o + w <= 512
    ensures Raw(Slice(buf, 512, 1024), o, w) == Ok(buf[512 + o..512 + o + w])
  {
    SubSlice(buf, 512, 1024, o, o + w);
  }

  lemma SameOpen(a: bytes, b: bytes)
    requires |a| >= 1024 && |b| >= 1024
    requires a[512..596] == b[512..596] && a[624..1024] == b[624..1024]
    ensures Open(a).Ok? == Open(b).Ok?
    ensures Open(a).Ok? ==>
              Open(a).value.blk == Open(b).value.blk && Open(a).value.group == Open(b).value.group && Open(a).value.root == Open(b).value.root
  {
    hide Bits.Pow2, Decode, Slice, Raw;
    SameField(a, b, 32, 4);
    SameField(a, b, 40, 4);
    SameField(a, b, 76, 4);
    SameField(a, b, 116, 4);
    SameField(a, b, 120, 2);
    SameField(a, b, 122, 2);
  }

  lemma SameField(a: bytes, b: bytes, o: nat, w: nat)
    requires |a| >= 1024 && |b| >= 1024
    requires a[512..596] == b[512..596] && a[624..1024] == b[624..1024]
    requires o + w <= 84 || (112 <= o && o + w <= 512)
    ensures Raw(Slice(a, 512, 1024), o, w) == Raw(Slice(b, 512, 1024), o, w)
  {
    SuperSlice(a, o, w);
    SuperSlice(b, o, w);
    if o + w <= 84 {
      SamePart(a, b, 512, 596, 512 + o, 512 + o + w);
    } else {
      SamePart(a, b, 624, 1024, 512 + o, 512 + o + w);
    }
  }

  lemma InjectOpens(buf: bytes, n: nat, blk: nat, at: nat, arr: bytes, content: bytes, logStart: int, logEnd: int)
    requires blk >= 1024 && |buf| == n * blk && 0 < at && at + 1 < n && |arr| == |content| == blk && Open(buf).Ok?
    ensures var out := Inject(buf, at, arr, content, logStart, logEnd, blk);
            Open(out) == Ok(Open(buf).value.(data := out))
  {
    hide Put, MarkDirty, Open;
    var p := Put(buf, at, arr, blk);
    var q := Put(p, at + 1, content, blk);
    PutKeepsFront(buf, n, blk, at, arr);
    PutKeepsFront(p, n, blk, at + 1, content);
    var out := MarkDirty(q, logStart, logEnd);
    MarkDirtyKeeps(q, logStart, logEnd, 512, 596);
    MarkDirtyKeeps(q, logStart, logEnd, 624, 1024);
    SamePart(q, buf, 0, 1024, 512, 596);
    SamePart(q, buf, 0, 1024, 624, 1024);
    SameOpen(out, buf);
    OpenData(out);
    OpenData(buf);
  }

  lemma OpenData(buf: bytes)
    requires Open(buf).Ok?
    ensures Open(buf).value.data == buf
  {
  }

  // ---------------------------------------------------------------------------
  // The pending transaction
  // ---------------------------------------------------------------------------

  /** Both log blocks and the journaled block lie in the image, behind the superblock's block. */
  predicate TransactionFits(buf: bytes, b: Befs)
  {
    && b.blk >= 1024 && b.log.len > 0 && |buf| % b.blk == 0
    && 0 < LogPosition(b) < LogPosition(b) + 1 < |buf| / b.blk
    && FindTarget(buf, b).Ok? && 0 <= FindTarget(buf, b).value < |buf| / b.blk
  }

  /** What a mount finds: the volume is marked dirty, its log holds two blocks, the first of which asks for
      one block to be written to `t`, and the second is what `t` held. All else is as before. */
  ghost predicate Pending(buf: bytes, out: bytes, b: Befs, t: int)
  {
    && b.blk > 0 && b.log.len > 0
    && |out| == |buf| >= 1024
    && OpenBefs(out) == Ok(b.(logEnd := b.logEnd + 2))
    && U32(out, 596) == Ok(0x44495254)
    && var at := b.log.start + b.logStart % b.log.len;
    && U32(BlockOf(out, at, b.blk), 0) == Ok(1) && U32(BlockOf(out, at, b.blk), 4) == Ok(127)
    && ReadRun(BlockOf(out, at, b.blk), 8, b.group) == Ok(Run(t, 1))
    && BlockOf(out, at + 1, b.blk) == BlockOf(buf, t, b.blk)
    && (forall k: nat :: 0 < k < |buf| / b.blk && k != at && k != at + 1 ==> BlockOf(out, k, b.blk) == BlockOf(buf, k, b.blk))
    && out[..596] == buf[..596] && out[600..608] == buf[600..608] && out[624..1024] == buf[624..1024]
  }

  /** The injected image has exactly that transaction pending. */
  lemma InjectionPends(buf: bytes, b: Befs)
    requires OpenBefs(buf) == Ok(b) && CanInject(buf, b) && TransactionFits(buf, b)
    ensures Pending(buf, Injected(buf, b), b, FindTarget(buf, b).value)
  {
    hide OpenBefs, FindTarget, RunArray, BlockOf, WithLog, Inject, U32, ReadRun, Injected;
    var t, at, n, blk := FindTarget(buf, b).value, LogPosition(b), |buf| / b.blk, b.blk;
    var arr, content, out := RunArray(t, b.group, blk), BlockOf(buf, t, blk), Injected(buf, b);
    WholeImage(buf, blk);
    ContentLength(buf, n, blk, t);
    InjectedIs(buf, b);
    RunArrayDecodes(b, t);
    forall k: nat | 0 < k < n
      ensures BlockOf(out, k, blk) == if k == at then arr else if k == at + 1 then content else BlockOf(buf, k, blk)
    {
      InjectBlocks(buf, n, blk, at, arr, content, b.logStart, b.logEnd, k);
    }
    InjectFront(buf, n, b, at, arr, content);
  }

  lemma WholeImage(buf: bytes, blk: nat)
    requires blk > 0 && |buf| % blk == 0
    ensures |buf| == |buf| / blk * blk
  {
  }

  /** The first 1024 bytes of the injected image. */
  lemma InjectFront(buf: bytes, n: nat, b: Befs, at: nat, arr: bytes, content: bytes)
    requires OpenBefs(buf) == Ok(b) && b.blk >= 1024 && |buf| == n * b.blk && 0 < at && at + 1 < n
    requires |arr| == |content| == b.blk && b.logEnd + 2 < MAX_I64
    ensures var out := Inject(buf, at, arr, content, b.logStart, b.logEnd, b.blk);
            && |out| == |buf| >= 1024 && OpenBefs(out) == Ok(b.(logEnd := b.logEnd + 2)) && U32(out, 596) == Ok(0x44495254)
            && out[..596] == buf[..596] && out[600..608] == buf[600..608] && out[624..1024] == buf[624..1024]
  {
    hide OpenBefs, Put, MarkDirty, U32, Encode;
    var p := Put(buf, at, arr, b.blk);
    var q := Put(p, at + 1, content, b.blk);
    assert |q| == |buf| >= 1024 && q[..1024] == buf[..1024] by {
      PutKeepsFront(buf, n, b.blk, at, arr);
      PutKeepsFront(p, n, b.blk, at + 1, content);
    }
    DirtyFront(buf, q, b.logStart, b.logEnd);
    LogRange(buf);
    DirtyOpens(buf, MarkDirty(q, b.logStart, b.logEnd), b);
  }

  lemma DirtyFront(buf: bytes, q: bytes, logStart: int, logEnd: int)
    requires |buf| == |q| >= 1024 && q[..1024] == buf[..1024]
    ensures var out := MarkDirty(q, logStart, logEnd);
            && |out| == |q| && U32(out, 596) == Ok(0x44495254)
            && out[..596] == buf[..596] && out[600..608] == buf[600..608] && out[624..1024] == buf[624..1024]
            && out[608..616] == Encode(logStart, 8) && out[616..624] == Encode(logEnd + 2, 8)
  {
    hide MarkDirty, Encode, U32;
    var out := MarkDirty(q, logStart, logEnd);
    MarkDirtyKeeps(q, logStart, logEnd, 0, 596);
    MarkDirtyKeeps(q, logStart, logEnd, 600, 608);
    MarkDirtyKeeps(q, logStart, logEnd, 624, 1024);
    SamePart(q, buf, 0, 1024, 0, 596);
    SamePart(q, buf, 0, 1024, 600, 608);
    SamePart(q, buf, 0, 1024, 624, 1024);
    assert out[..596] == out[0..596] && buf[..596] == buf[0..596] && q[..596] == q[0..596];
    DirtyField(q, logStart, logEnd);
    ReadU32(out, 596, DIRT);
  }

  lemma LogRange(buf: bytes)
    requires OpenBefs(buf).Ok?
    ensures var b := OpenBefs(buf).value;
            -MAX_I64 <= b.logStart < MAX_I64 && -MAX_I64 <= b.logEnd < MAX_I64
  {
    hide ReadRun, U32, Utf8, UpToZero, Bits.Pow2;
    var sb := Slice(buf, 512, 1024);
    I64Range(sb, 96);
    I64Range(sb, 104);
  }

  lemma I64Range(s: bytes, o: nat)
    ensures I64(s, o).Ok? ==> -MAX_I64 <= I64(s, o).value < MAX_I64
  {
    if o + 8 <= |s| {
      EightBytes(s[o..o + 8]);
    }
  }

  lemma EightBytes(w: bytes)
    requires |w| == 8
    ensures Decode(w) < 0x1_0000_0000_0000_0000
  {
    DecodeBound(w);
    Pow256Values();
  }

  /** Only the two log words that `befs_dump` reads have changed. */
  lemma DirtyOpens(buf: bytes, out: bytes, b: Befs)
    requires OpenBefs(buf) == Ok(b) && |out| == |buf| >= 1024
    requires out[..596] == buf[..596] && out[600..608] == buf[600..608] && out[624..1024] == buf[624..1024]
    requires out[608..616] == Encode(b.logStart, 8) && out[616..624] == Encode(b.logEnd + 2, 8)
    requires -MAX_I64 <= b.logStart < MAX_I64 && -MAX_I64 <= b.logEnd + 2 < MAX_I64
    ensures OpenBefs(out) == Ok(b.(logEnd := b.logEnd + 2))
  {
    hide Bits.Pow2, Decode, Slice, Raw, Utf8, UpToZero, Encode;
    SamePart(out, buf, 0, 596, 512, 596);
    SameField(out, buf, 32, 4);
    SameField(out, buf, 40, 4);
    SameField(out, buf, 44, 4);
    SameField(out, buf, 48, 8);
    SameField(out, buf, 56, 8);
    SameField(out, buf, 64, 4);
    SameField(out, buf, 76, 4);
    SameField(out, buf, 80, 4);
    SameRun(out, buf, 116);
    SameRun(out, buf, 124);
    SameLogRun(out, buf);
    SameName(out, buf);
    LogWord(out, 96, b.logStart);
    LogWord(out, 104, b.logEnd + 2);
    hide ReadRun, I64;
  }

  lemma SameRun(a: bytes, b: bytes, o: nat)
    requires |a| >= 1024 && |b| >= 1024 && a[512..596] == b[512..596] && a[624..1024] == b[624..1024]
    requires 112 <= o <= 504
    ensures ReadRun(Slice(a, 512, 1024), o, GROUPSIZE) == ReadRun(Slice(b, 512, 1024), o, GROUPSIZE)
  {
    hide Decode, Slice, Raw;
    SameField(a, b, o, 4);
    SameField(a, b, o + 4, 2);
    SameField(a, b, o + 6, 2);
  }

  lemma SameLogRun(a: bytes, b: bytes)
    requires |a| >= 1024 && |b| >= 1024 && a[600..608] == b[600..608]
    ensures ReadRun(Slice(a, 512, 1024), 88, GROUPSIZE) == ReadRun(Slice(b, 512, 1024), 88, GROUPSIZE)
  {
    hide Decode, Slice, Raw;
    SameLogField(a, b, 88, 4);
    SameLogField(a, b, 92, 2);
    SameLogField(a, b, 94, 2);
  }

  lemma SameLogField(a: bytes, b: bytes, o: nat, w: nat)
    requires |a| >= 1024 && |b| >= 1024 && a[600..608] == b[600..608] && 88 <= o <= o + w <= 96
    ensures Raw(Slice(a, 512, 1024), o, w) == Raw(Slice(b, 512, 1024), o, w)
  {
    SuperSlice(a, o, w);
    SuperSlice(b, o, w);
    SamePart(a, b, 600, 608, 512 + o, 512 + o + w);
  }

  lemma SameName(a: bytes, b: bytes)
    requires |a| >= 1024 && |b| >= 1024 && a[512..596] == b[512..596]
    ensures Slice(Slice(a, 512, 1024), 0, 32) == Slice(Slice(b, 512, 1024), 0, 32)
  {
    SubSlice(a, 512, 1024, 0, 32);
    SubSlice(b, 512, 1024, 0, 32);
    SamePart(a, b, 512, 596, 512, 544);
  }

  lemma LogWord(out: bytes, o: nat, x: int)
    requires |out| >= 1024 && o + 8 <= 512 && out[512 + o..512 + o + 8] == Encode(x, 8) && -MAX_I64 <= x < MAX_I64
    ensures I64(Slice(out, 512, 1024), o) == Ok(x)
  {
    SubSlice(out, 512, 1024, o, o + 8);
    ReadI64(Slice(out, 512, 1024), o, x);
  }

  /** So the tool refuses the image it has made. */
  lemma SecondInjectionRefused(buf: bytes, out: bytes, b: Befs, t: int)
    requires Pending(buf, out, b, t) && b.logStart == b.logEnd
    ensures OpenBefs(out).Ok? && OpenBefs(out).value.logStart != OpenBefs(out).value.logEnd
    ensures !CanInject(out, OpenBefs(out).value)
  {
    hide OpenBefs, BlockOf, U32, ReadRun;
  }

  // ---------------------------------------------------------------------------
  // The journaled block
  // ---------------------------------------------------------------------------

  /** The transaction's run record decodes to the journaled block, for any group size. */
  lemma RunArrayDecodes(b: Befs, dataBlk: int)
    requires Packs(b, dataBlk)
    ensures var arr := RunArray(dataBlk, b.group, b.blk);
            U32(arr, 0) == Ok(1) && U32(arr, 4) == Ok(127) && ReadRun(arr, 8, b.group) == Ok(Run(dataBlk, 1))
  {
    hide Encode, U32, U16;
    var arr := RunArray(dataBlk, b.group, b.blk);
    assert FieldAt(arr, 0, Encode(1, 4)) && FieldAt(arr, 4, Encode(127, 4)) && FieldAt(arr, 8, Encode(dataBlk / b.group, 4));
    assert FieldAt(arr, 12, Encode(dataBlk % b.group, 2)) && FieldAt(arr, 14, Encode(1, 2));
    ReadU32(arr, 0, 1);
    ReadU32(arr, 4, 127);
    SignedGroup(arr, dataBlk / b.group);
    ReadU16(arr, 12, dataBlk % b.group);
    ReadU16(arr, 14, 1);
    assert dataBlk == dataBlk / b.group * b.group + dataBlk % b.group;
  }

  lemma SignedGroup(arr: bytes, g: int)
    requires FieldAt(arr, 8, Encode(g, 4)) && -0x8000_0000 <= g < 0x8000_0000
    ensures U32(arr, 8).Ok? && Signed32(U32(arr, 8).value) == g
  {
    hide Encode, Decode;
    var t := DecodeEncode(g, 4);
    Pow256Values();
  }

  /** One child of a stored directory. */
  lemma {:induction false} ChildAt(buf: bytes, rs: seq<Rec>, parent: nat, lo: nat, m: Manifest, blk: nat, k: nat)
    requires ValidBlk(blk) && PlacedAll(rs, parent, lo, blk) && StoredAll(buf, rs, m, blk) && AttrsFitEach(rs, m, blk)
    requires k < |rs|
    ensures Placed(rs[k], blk) && Stored(buf, rs[k], m, blk) && AttrsFitAll(rs[k], m, blk)
    ensures lo <= rs[k].block && rs[k].block + RecBlocks(rs[k], blk) <= lo + RecBlocksAll(rs, blk)
    decreases k
  {
    hide Placed, Stored, AttrsFitAll, RecBlocks;
    if k > 0 {
      ChildAt(buf, rs[1..], parent, lo + RecBlocks(rs[0], blk), m, blk, k - 1);
    }
  }

  /** Where the first run of a node starts: its first data or stream block, block 0 for an empty
      file. */
  function FirstBlock(r: Rec): nat
  {
    match r
    case FileRec(_, _, block, _, data, _) => if data == [] then 0 else block + 1
    case DirRec(_, _, _, _, _, stream, _) => stream
  }

  lemma FirstRun(buf: bytes, r: Rec, m: Manifest, blk: nat, limit: nat)
    requires ValidBlk(blk) && Placed(r, blk) && Stored(buf, r, m, blk) && AttrsFitAll(r, m, blk)
    requires r.block + RecBlocks(r, blk) <= limit <= MAX_BLOCKS
    ensures DumpInode(buf, r.block, blk) == Ok(BlockOf(buf, r.block, blk))
    ensures ReadRun(BlockOf(buf, r.block, blk), 72, GROUPSIZE).Ok?
    ensures ReadRun(BlockOf(buf, r.block, blk), 72, GROUPSIZE).value.start == FirstBlock(r) < limit
  {
    hide InodeBytes, BlockOf, SplitRuns, ReadRun, MetaOk, Need, SmallData, U32, I64, Stream, PageCount, RecEntries;
    var meta := NodeMeta(r, m, blk);
    RecMetaOk(r, m, blk, limit);
    InodeReadsBack(meta, blk);
    InodeRun(meta, blk, 0);
    if r.FileRec? {
      FirstOfSplit(r.block + 1, r.data, blk);
    } else {
      StreamLength(BTREE_STRING, RecEntries(r), blk);
      FirstOfRuns(r.stream, r.nblk);
    }
  }

  lemma FirstOfRuns(start: nat, need: nat)
    ensures var runs := SplitRuns(start, need);
            if need == 0 then runs == [] else runs != [] && runs[0].start == start
  {
  }

  lemma FirstOfSplit(start: nat, data: bytes, blk: nat)
    requires blk > 0
    ensures var runs := SplitRuns(start, Need(data, blk));
            if data == [] then runs == [] else runs != [] && runs[0].start == start && Need(data, blk) > 0
  {
    hide Need, SplitRuns;
    NeedBounds(data, blk);
    if data == [] && Need(data, blk) > 0 {
      MulLe(1, Need(data, blk), blk);
    }
    FirstOfRuns(start, Need(data, blk));
  }

  /** The root directory as `befs_dump` sees it. */
  lemma DumpRoot(buf: bytes, r: Rec, m: Manifest, numBlocks: nat, blk: nat)
    requires ValidBlk(blk) && |buf| == numBlocks * blk
    requires Staged(Vol(buf, blk, GROUPSIZE, r.block), r, m, numBlocks) && r.nblk == 2
    ensures DumpDir(buf, r.block, blk) == Ok(RecEntries(r))
  {
    hide InodeBytes, BlockOf, DumpDir, MetaOk, Tiles, Stream, RecEntries, RootAttrs, AttrsFit, StoredAll, PageCount;
    RootMetaOk(r, m, blk);
    DirValues(r, blk, numBlocks);
    DumpDirectoryReads(buf, numBlocks, r.block, RootMeta(r, m, blk), RecEntries(r), r.stream, blk);
  }

  /** A root directory of more than one leaf cannot be dumped either. */
  lemma LargeRootUndumpable(buf: bytes, r: Rec, m: Manifest, numBlocks: nat, blk: nat)
    requires ValidBlk(blk) && |buf| == numBlocks * blk
    requires Staged(Vol(buf, blk, GROUPSIZE, r.block), r, m, numBlocks) && r.nblk != 2
    ensures DumpDir(buf, r.block, blk).Err?
  {
    hide InodeBytes, BlockOf, BlocksOf, MetaOk, Tiles, RecEntries, RootMeta, RootAttrs, AttrsFit, StoredAll, DumpEntries, DumpStream, DumpInode, DeepPages, NodeBytes, RecBlocks, Slice, Flatten;
    var es, meta := RecEntries(r), RootMeta(r, m, blk);
    RootStream(Vol(buf, blk, GROUPSIZE, r.block), r, m, numBlocks);
    RootMetaOk(r, m, blk);
    var pages, chunks := Pages(BTREE_STRING, es, blk).value, Chunks(es, blk).value;
    StreamLength(BTREE_STRING, es, blk);
    StreamIsDeep(BTREE_STRING, es, blk);
    assert r.stream + 2 <= numBlocks && r.nblk >= 2 by { RootExtent(Vol(buf, blk, GROUPSIZE, r.block), r, m, numBlocks); }
    DumpStreamReads(buf, numBlocks, r.block, meta, r.stream, 2, blk);
    var two := [pages[0], pages[1]];
    RootFront(Vol(buf, blk, GROUPSIZE, r.block), r, m, numBlocks, pages);
    UniformLength(two, blk);
    RootSize(r, m, blk);
    WholeSlice(Flatten(two));
    TruncatedDump(pages, chunks, blk);
  }

  lemma RootSize(r: Rec, m: Manifest, blk: nat)
    requires r.DirRec?
    ensures RootMeta(r, m, blk).size == 2 * blk
  {
    hide RootAttrs;
  }

  lemma RootExtent(v: Vol, r: Rec, m: Manifest, limit: nat)
    requires Staged(v, r, m, limit)
    ensures r.stream + r.nblk <= limit && r.nblk >= 2
  {
    hide Stream, PageCount, StoredAll, PlacedAll, RootAttrs, InodeBytes, RecEntries;
    StreamLength(BTREE_STRING, RecEntries(r), v.blk);
  }

  ghost function ReadmeRec(cs: seq<Child>, name: bytes, numBlocks: nat, blk: nat): Rec
    requires ValidBlk(blk) && FindChild(cs, README_TXT).Some? && MirrorsAll(RootRec(cs, name, numBlocks, blk).children, cs)
  {
    RootRec(cs, name, numBlocks, blk).children[FindChild(cs, README_TXT).value]
  }

  /** There is something to journal exactly when the root directory fits one leaf and has a
      README.TXT: its first block, whether it is a file or a directory, and block 0 for an empty
      file. */
  lemma TargetIs(buf: bytes, cs: seq<Child>, name: bytes, m: Manifest, numBlocks: nat, blk: nat, b: Befs)
    requires ValidBlk(blk) && StagedImage(buf, cs, name, m, numBlocks, blk) && |buf| == numBlocks * blk
    requires b.blk == blk && b.root == Reserved(numBlocks)
    ensures FindTarget(buf, b).Ok? <==> Fits(SizingEntries(cs), blk) && FindChild(cs, README_TXT).Some?
    ensures FindTarget(buf, b).Ok? ==> FindTarget(buf, b).value == FirstBlock(ReadmeRec(cs, name, numBlocks, blk))
    ensures FindTarget(buf, b).Ok? ==> 0 <= FindTarget(buf, b).value < numBlocks
    ensures FindTarget(buf, b).Ok? ==>
              (FindTarget(buf, b).value < Reserved(numBlocks) <==> cs[FindChild(cs, README_TXT).value].node == HostFile([]))
    ensures FindTarget(buf, b).Ok? && FindTarget(buf, b).value < Reserved(numBlocks) ==> FindTarget(buf, b).value == 0
  {
    hide InodeBytes, BlockOf, DumpDir, DumpInode, ReadRun, RecEntries, RootAttrs, AttrsFit, Fits, SizingEntries, Stored, StoredAll, Open, Mirrors, RootRec, BodyStored, AttrsFitAll, AttrsFitEach, Stream, PageCount, RootMeta, Placed, RecBlocks;
    var r := RootRec(cs, name, numBlocks, blk);
    var v := Vol(buf, blk, GROUPSIZE, Reserved(numBlocks));
    RootFits(v, r, m, numBlocks, cs);
    if r.nblk != 2 {
      LargeRootUndumpable(buf, r, m, numBlocks, blk);
    } else {
      DumpRoot(buf, r, m, numBlocks, blk);
      ScanDirectory(r, cs, README_TXT);
      assert README_TXT != DOT && README_TXT != DOT_DOT;
      if FindChild(cs, README_TXT).Some? {
        var k := FindChild(cs, README_TXT).value;
        MirrorsAt(r.children, cs, k);
        RootParts(v, r, m, numBlocks);
        ChildAt(buf, r.children, r.block, r.stream + r.nblk, m, blk, k);
        FirstRun(buf, r.children[k], m, blk, numBlocks);
        FirstBlockKind(r.children[k], cs[k].node, blk);
      }
    }
  }

  lemma RootParts(v: Vol, r: Rec, m: Manifest, limit: nat)
    requires Staged(v, r, m, limit)
    ensures PlacedAll(r.children, r.block, r.stream + r.nblk, v.blk) && StoredAll(v.data, r.children, m, v.blk)
    ensures AttrsFitEach(r.children, m, v.blk) && r.block < r.stream && r.stream + r.nblk + RecBlocksAll(r.children, v.blk) <= limit
  {
    hide PlacedAll, StoredAll, AttrsFitEach, Stream, PageCount, RootAttrs, InodeBytes, RecBlocksAll, BlockOf;
  }

  lemma FirstBlockKind(c: Rec, h: Host, blk: nat)
    requires ValidBlk(blk) && Mirrors(c, h) && Placed(c, blk)
    ensures if h == HostFile([]) then FirstBlock(c) == 0 else FirstBlock(c) == c.block + 1
  {
    hide MirrorsAll, PlacedAll, SplitRuns, Need, Stream, PageCount;
  }

  // ---------------------------------------------------------------------------
  // Non-interference and replay
  // ---------------------------------------------------------------------------

  /** The superblock describes the log the writer reserved. */
  ghost predicate LogOf(b: Befs, numBlocks: nat, blk: nat)
  {
    && b.blk == blk && b.group == GROUPSIZE && b.root == Reserved(numBlocks)
    && b.log == Run(Reserved(numBlocks) - LOG_LEN, LOG_LEN)
  }

  /** The transaction lies inside the log. */
  predicate NoWrap(b: Befs)
    requires b.log.len > 0
  {
    b.logEnd % b.log.len + 2 <= b.log.len
  }

  /** A freshly built image has an empty log that `befs_mkdirty` accepts, at position 2. */
  lemma FreshLog(buf: bytes, numBlocks: nat, used: nat, indices: nat, blk: nat)
    requires ValidBlk(blk) && 0 < numBlocks <= MAX_BLOCKS && |buf| >= 1024 && Reserved(numBlocks) < MAX_BLOCKS
    requires buf[512..1024] == Superblock(numBlocks, used, Reserved(numBlocks) - 1 - LOG_LEN, Reserved(numBlocks), indices, blk)
    ensures OpenBefs(buf).Ok?
    ensures var b := OpenBefs(buf).value;
            LogOf(b, numBlocks, blk) && b.numBlocks == numBlocks && b.logStart == b.logEnd == 2 && NoWrap(b)
  {
    hide Encode, Rblk, Superblock, ReadRun, Bits.Pow2, Utf8, UpToZero;
    var sb, ags := buf[512..1024], Reserved(numBlocks) - 1 - LOG_LEN;
    SuperFields(numBlocks, used, ags, Reserved(numBlocks), indices, blk);
    ReadU32(sb, 32, SB_MAGIC1);
    ReadU32(sb, 40, blk);
    ReadI64(sb, 48, numBlocks);
    ReadU32(sb, 76, AG_SHIFT);
    ReadI64(sb, 96, 2);
    ReadI64(sb, 104, 2);
    Pow2Group();
    RunRoundTrip(sb, 88, 1 + ags, LOG_LEN);
    RunRoundTrip(sb, 116, Reserved(numBlocks), 1);
    RunReadable(sb, 124);
    NameDecodes(sb);
  }

  lemma RunReadable(b: bytes, o: nat)
    requires o + 8 <= |b|
    ensures ReadRun(b, o, GROUPSIZE).Ok?
  {
  }

  lemma NameDecodes(sb: bytes)
    requires FieldAt(sb, 0, VOLUME_NAME + Zeros(28))
    ensures UpToZero(Slice(sb, 0, 32)) == VOLUME_NAME && Utf8(VOLUME_NAME)
  {
    var n := Slice(sb, 0, 32);
    assert n == VOLUME_NAME + Zeros(28);
    assert n[4..][0] == 0 && UpToZero(n[4..]) == [];
    assert n[1..][1..] == n[2..] && n[2..][1..] == n[3..] && n[3..][1..] == n[4..];
    assert UpToZero(n[2..]) == [n[2]] + ([n[3]] + []);
    assert UpToZero(n) == VOLUME_NAME;
    var w: bytes := VOLUME_NAME;
    assert w[1..][1..] == w[2..] && w[2..][1..] == w[3..] && w[3..][1..] == [];
    assert Utf8(w[3..]) && Utf8(w[2..]) && Utf8(w[1..]);
  }

  /** The writer's superblock says that the volume is clean. */
  lemma BuiltClean(buf: bytes, numBlocks: nat, used: nat, numAgs: nat, indices: nat, root: nat, blk: nat)
    requires |buf| >= 1024 && buf[512..1024] == Superblock(numBlocks, used, numAgs, root, indices, blk)
    ensures FieldAt(buf, 596, Encode(SB_CLEAN, 4))
  {
    hide Encode, Superblock;
    var sb := buf[512..1024];
    SuperFields(numBlocks, used, numAgs, root, indices, blk);
    assert FieldAt(buf, 512, sb);
    FieldInField(buf, 512, sb, 84, Encode(SB_CLEAN, 4));
  }

  lemma ContentLength(buf: bytes, numBlocks: nat, blk: nat, t: nat)
    requires |buf| == numBlocks * blk && t < numBlocks
    ensures |BlockOf(buf, t, blk)| == blk
  {
    BlockBounds(t, numBlocks, blk);
  }

  /** Inside the image the assignments are puts of whole blocks. */
  lemma InjectedIs(buf: bytes, b: Befs)
    requires CanInject(buf, b) && LogPosition(b) >= 0
    ensures var t := FindTarget(buf, b).value;
            Injected(buf, b) == Inject(buf, LogPosition(b), RunArray(t, b.group, b.blk), BlockOf(buf, t, b.blk), b.logStart, b.logEnd, b.blk)
  {
    hide BlockOf, FindTarget, RunArray, MarkDirty, WithLog, Put;
    WithLogIs(buf, b, FindTarget(buf, b).value);
  }

  lemma WithLogIs(buf: bytes, b: Befs, t: int)
    requires b.log.len > 0 && Packs(b, t) && LogPosition(b) >= 0
    ensures var at := LogPosition(b);
            WithLog(buf, b, t) == Put(Put(buf, at, RunArray(t, b.group, b.blk), b.blk), at + 1, BlockOf(buf, t, b.blk), b.blk)
  {
    hide BlockOf, RunArray, Splice, Assign;
    var at := LogPosition(b);
    NextBlock(at, b.blk);
    NextBlock(at + 1, b.blk);
  }

  /** A fresh image can be injected exactly when its root fits one leaf and has a README.TXT. */
  lemma FreshImageInjectable(buf: bytes, cs: seq<Child>, name: bytes, m: Manifest, numBlocks: nat, used: nat, indices: nat, blk: nat)
    requires ValidBlk(blk) && StagedImage(buf, cs, name, m, numBlocks, blk) && |buf| == numBlocks * blk && |buf| >= 1024
    requires numBlocks <= MAX_BLOCKS
    requires buf[512..1024] == Superblock(numBlocks, used, Reserved(numBlocks) - 1 - LOG_LEN, Reserved(numBlocks), indices, blk)
    ensures OpenBefs(buf).Ok? && LogOf(OpenBefs(buf).value, numBlocks, blk) && NoWrap(OpenBefs(buf).value)
    ensures CanInject(buf, OpenBefs(buf).value) <==> Fits(SizingEntries(cs), blk) && FindChild(cs, README_TXT).Some?
  {
    hide BlockOf, FindTarget, RunArray, StagedImage, OpenBefs, Superblock, SizingEntries, Fits, WithLog, RootRec, MirrorsAll, Put;
    RootInside(buf, cs, name, m, numBlocks, blk);
    FreshLog(buf, numBlocks, used, indices, blk);
    var b := OpenBefs(buf).value;
    TargetIs(buf, cs, name, m, numBlocks, blk, b);
    if FindTarget(buf, b).Ok? {
      var t := FindTarget(buf, b).value;
      PacksSmall(b, numBlocks, blk, t);
      WithLogIs(buf, b, t);
      ContentLength(buf, numBlocks, blk, t);
      var at := b.log.start + b.logEnd % b.log.len;
      PutKeepsLength(buf, numBlocks, at, RunArray(t, b.group, blk), blk);
      PutKeepsLength(Put(buf, at, RunArray(t, b.group, blk), blk), numBlocks, at + 1, BlockOf(buf, t, blk), blk);
    }
  }

  lemma PacksSmall(b: Befs, numBlocks: nat, blk: nat, t: nat)
    requires ValidBlk(blk) && LogOf(b, numBlocks, blk) && b.logEnd == 2 && t < numBlocks <= MAX_BLOCKS
    ensures Packs(b, t)
  {
  }

  /** Everything the injection does to a built image: where it writes, what, and that the reader's
      geometry stays. */
  lemma InjectedBlocks(buf: bytes, cs: seq<Child>, name: bytes, m: Manifest, numBlocks: nat, blk: nat, b: Befs)
    requires ValidBlk(blk) && StagedImage(buf, cs, name, m, numBlocks, blk) && |buf| == numBlocks * blk
    requires LogOf(b, numBlocks, blk) && CanInject(buf, b)
    ensures var t, out := FindTarget(buf, b).value, Injected(buf, b);
            var content, at := BlockOf(buf, t, blk), b.log.start + b.logEnd % b.log.len;
            && 0 <= t < numBlocks && |content| == blk && |out| == |buf| && at + 1 < numBlocks
            && Open(out) == Ok(Open(buf).value.(data := out))
            && (forall k: nat :: 0 < k < numBlocks && k != at ==>
                  BlockOf(out, k, blk) == if k == at + 1 then content else BlockOf(buf, k, blk))
  {
    hide BlockOf, FindTarget, Inject, RunArray, Staged, Open, MirrorsAll, RootRec, SizingEntries, Fits, Injected, WithLog;
    TargetIs(buf, cs, name, m, numBlocks, blk, b);
    var t := FindTarget(buf, b).value;
    var arr, content, at := RunArray(t, b.group, blk), BlockOf(buf, t, blk), b.log.start + b.logEnd % b.log.len;
    ContentLength(buf, numBlocks, blk, t);
    InjectedIs(buf, b);
    RootInside(buf, cs, name, m, numBlocks, blk);
    InjectOpens(buf, numBlocks, blk, at, arr, content, b.logStart, b.logEnd);
    forall k: nat | 0 < k < numBlocks
      ensures |Injected(buf, b)| == |buf|
      ensures BlockOf(Injected(buf, b), k, blk)
           == if k == at then arr else if k == at + 1 then content else BlockOf(buf, k, blk)
    {
      InjectBlocks(buf, numBlocks, blk, at, arr, content, b.logStart, b.logEnd, k);
    }
    assert |Injected(buf, b)| == |buf| by {
      InjectBlocks(buf, numBlocks, blk, at, arr, content, b.logStart, b.logEnd, 1);
    }
  }

  lemma RootInside(buf: bytes, cs: seq<Child>, name: bytes, m: Manifest, numBlocks: nat, blk: nat)
    requires ValidBlk(blk) && StagedImage(buf, cs, name, m, numBlocks, blk)
    ensures Reserved(numBlocks) < numBlocks && Open(buf).Ok?
  {
    hide Open, MirrorsAll, RootStored, Placed, AttrsFitEach, RootAttrs, RecBlocks;
  }

  /** Journal injection leaves the data area alone: whatever README.TXT is, the image still holds the
      staged tree. What that means for paths is in JournalPaths. */
  lemma InjectionHarmless(buf: bytes, cs: seq<Child>, name: bytes, m: Manifest, numBlocks: nat, blk: nat, b: Befs)
    requires ValidBlk(blk) && StagedImage(buf, cs, name, m, numBlocks, blk) && |buf| == numBlocks * blk
    requires LogOf(b, numBlocks, blk) && CanInject(buf, b) && NoWrap(b)
    ensures StagedImage(Injected(buf, b), cs, name, m, numBlocks, blk)
    ensures SameBlocks(buf, Injected(buf, b), Reserved(numBlocks), numBlocks, blk)
  {
    hide BlockOf, FindTarget, Injected, Staged, Open, MirrorsAll, RootRec, SizingEntries, Fits, CanInject;
    InjectedBlocks(buf, cs, name, m, numBlocks, blk, b);
    StagedSurvives(buf, Injected(buf, b), RootRec(cs, name, numBlocks, blk), m, numBlocks, blk);
  }

  lemma StagedSurvives(buf: bytes, buf': bytes, r: Rec, m: Manifest, numBlocks: nat, blk: nat)
    requires ValidBlk(blk) && Staged(Vol(buf, blk, GROUPSIZE, r.block), r, m, numBlocks)
    requires SameBlocks(buf, buf', r.block, numBlocks, blk)
    ensures Staged(Vol(buf', blk, GROUPSIZE, r.block), r, m, numBlocks)
  {
    hide Placed, RootStored, BlockOf, AttrsFit, AttrsFitEach, RootAttrs, RecBlocks;
    RootStoredFrame(buf, buf', r, m, blk);
  }

  lemma PutSame(buf: bytes, n: nat, b: nat, blk: nat)
    requires |buf| == n * blk && b < n
    ensures Put(buf, b, BlockOf(buf, b, blk), blk) == buf
  {
    BlockBounds(b, n, blk);
    var lo, hi := b * blk, (b + 1) * blk;
    assert buf == buf[..lo] + buf[lo..hi] + buf[hi..];
  }

  /** Replaying the transaction, writing the journaled content to its block, changes nothing
      exactly when README.TXT is not an empty file. For an empty one the content is the old
      superblock, and replaying it takes the image back to clean. */
  lemma ReplayChangesNothingIff(buf: bytes, cs: seq<Child>, name: bytes, m: Manifest, numBlocks: nat, blk: nat, b: Befs)
    requires ValidBlk(blk) && StagedImage(buf, cs, name, m, numBlocks, blk) && |buf| == numBlocks * blk
    requires LogOf(b, numBlocks, blk) && CanInject(buf, b) && NoWrap(b)
    requires FieldAt(buf, 596, Encode(SB_CLEAN, 4))
    ensures var t := FindTarget(buf, b).value;
            && 0 <= t < numBlocks && FindChild(cs, README_TXT).Some?
            && (Put(Injected(buf, b), t, BlockOf(buf, t, blk), blk) == Injected(buf, b)
                <==> cs[FindChild(cs, README_TXT).value].node != HostFile([]))
  {
    hide BlockOf, FindTarget, StagedImage, MirrorsAll, RootRec, SizingEntries, Fits, Put, MarkDirty, Injected, WithLog, Inject, RunArray, FieldAt, Encode;
    TargetIs(buf, cs, name, m, numBlocks, blk, b);
    InjectionHarmless(buf, cs, name, m, numBlocks, blk, b);
    InjectedBlocks(buf, cs, name, m, numBlocks, blk, b);
    var t, out := FindTarget(buf, b).value, Injected(buf, b);
    if t != 0 {
      assert BlockOf(out, t, blk) == BlockOf(buf, t, blk);
      PutSame(out, numBlocks, t, blk);
    } else {
      RootInside(buf, cs, name, m, numBlocks, blk);
      EmptyReplayDiffers(buf, numBlocks, blk, b);
    }
  }

  /** On a built image the transaction fits wherever the log stands. */
  lemma BuiltTransactionFits(buf: bytes, cs: seq<Child>, name: bytes, m: Manifest, numBlocks: nat, blk: nat, b: Befs)
    requires ValidBlk(blk) && StagedImage(buf, cs, name, m, numBlocks, blk) && |buf| == numBlocks * blk
    requires LogOf(b, numBlocks, blk) && CanInject(buf, b)
    ensures TransactionFits(buf, b)
  {
    hide StagedImage, FindTarget, MirrorsAll, RootRec, SizingEntries, Fits, Packs, WithLog, Open;
    TargetIs(buf, cs, name, m, numBlocks, blk, b);
    RootInside(buf, cs, name, m, numBlocks, blk);
    assert numBlocks * blk == blk * numBlocks;
    QuotientOf(numBlocks, blk);
    WholeBytes(numBlocks, blk);
  }

  lemma WholeBytes(n: nat, blk: nat)
    requires blk > 0
    ensures n * blk % blk == 0
  {
    QuotientOf(n, blk);
    assert n * blk == blk * n && n * blk == n * blk / blk * blk + n * blk % blk;
  }

  /** What replaying a transaction of one run means, over the bytes alone: the block behind the run array
      at the log's start goes where the run says. */
  function Replay(buf: bytes): Result<bytes>
  {
    var b :- OpenBefs(buf);
    if b.logStart == b.logEnd then Ok(buf)
    else if b.log.len == 0 then Err(ZeroDivision)
    else
      var at := b.log.start + b.logStart % b.log.len;
      var run :- ReadRun(BlockOf(buf, at, b.blk), 8, b.group);
      if run.start < 0 then Err(IndexError) else Ok(Put(buf, run.start, BlockOf(buf, at + 1, b.blk), b.blk))
  }

  lemma ReplayOfPending(buf: bytes, out: bytes, b: Befs, t: nat)
    requires Pending(buf, out, b, t) && b.logStart == b.logEnd
    ensures Replay(out) == Ok(Put(out, t, BlockOf(buf, t, b.blk), b.blk))
  {
    hide OpenBefs, BlockOf, U32, ReadRun, Put;
  }

  /** Replaying the pending transaction of an injected image gives that image back exactly when README.TXT
      is not an empty file. */
  lemma ReplayIsNoOpIff(buf: bytes, cs: seq<Child>, name: bytes, m: Manifest, numBlocks: nat, blk: nat, b: Befs)
    requires ValidBlk(blk) && StagedImage(buf, cs, name, m, numBlocks, blk) && |buf| == numBlocks * blk
    requires OpenBefs(buf) == Ok(b) && LogOf(b, numBlocks, blk) && CanInject(buf, b) && NoWrap(b)
    requires FieldAt(buf, 596, Encode(SB_CLEAN, 4))
    ensures FindChild(cs, README_TXT).Some?
    ensures Replay(Injected(buf, b)) == Ok(Injected(buf, b)) <==> cs[FindChild(cs, README_TXT).value].node != HostFile([])
  {
    hide StagedImage, OpenBefs, FindTarget, Injected, Replay, Put, Pending, TransactionFits, Encode, FieldAt, Packs, WithLog, BlockOf, NoWrap, FindChild;
    BuiltTransactionFits(buf, cs, name, m, numBlocks, blk, b);
    InjectionPends(buf, b);
    ReplayChangesNothingIff(buf, cs, name, m, numBlocks, blk, b);
    ReplayOfPending(buf, Injected(buf, b), b, FindTarget(buf, b).value);
  }

  lemma EmptyReplayDiffers(buf: bytes, numBlocks: nat, blk: nat, b: Befs)
    requires ValidBlk(blk) && |buf| == numBlocks * blk && LogOf(b, numBlocks, blk) && CanInject(buf, b)
    requires Reserved(numBlocks) < numBlocks && FindTarget(buf, b).value == 0 && FieldAt(buf, 596, Encode(SB_CLEAN, 4))
    ensures Put(Injected(buf, b), 0, BlockOf(buf, 0, blk), blk) != Injected(buf, b)
  {
    hide BlockOf, FindTarget, Put, MarkDirty, Injected, WithLog, RunArray, FieldAt, Encode;
    var arr, content, at := RunArray(0, b.group, blk), BlockOf(buf, 0, blk), b.log.start + b.logEnd % b.log.len;
    InjectedIs(buf, b);
    ContentLength(buf, numBlocks, blk, 0);
    var q := Put(Put(buf, at, arr, blk), at + 1, content, blk);
    PutKeepsFront(buf, numBlocks, blk, at, arr);
    PutKeepsFront(Put(buf, at, arr, blk), numBlocks, blk, at + 1, content);
    SuperblockDiffers(buf, q, numBlocks, blk, b.logStart, b.logEnd);
  }

  /** Putting the old block 0 back undoes the dirty flag. */
  lemma SuperblockDiffers(buf: bytes, q: bytes, n: nat, blk: nat, logStart: int, logEnd: int)
    requires ValidBlk(blk) && |buf| == |q| == n * blk && n > 0 && FieldAt(buf, 596, Encode(SB_CLEAN, 4))
    ensures Put(MarkDirty(q, logStart, logEnd), 0, BlockOf(buf, 0, blk), blk) != MarkDirty(q, logStart, logEnd)
  {
    BlockBounds(0, n, blk);
    assert 1 * blk == blk && 0 * blk == 0;
    var out := MarkDirty(q, logStart, logEnd);
    DirtyField(q, logStart, logEnd);
    var back := Put(out, 0, BlockOf(buf, 0, blk), blk);
    assert back[..blk] == buf[..blk];
    SamePart(back, buf, 0, blk, 596, 600);
    Unsigned32(SB_CLEAN);
    Unsigned32(DIRT);
  }

  lemma DirtyField(q: bytes, logStart: int, logEnd: int)
    requires |q| >= 1024
    ensures |MarkDirty(q, logStart, logEnd)| == |q|
    ensures MarkDirty(q, logStart, logEnd)[596..600] == Encode(DIRT, 4)
    ensures MarkDirty(q, logStart, logEnd)[608..616] == Encode(logStart, 8)
    ensures MarkDirty(q, logStart, logEnd)[616..624] == Encode(logEnd + 2, 8)
  {
    hide Encode;
    var a := Patch(q, 596, Encode(DIRT, 4));
    assert a[596..600] == Encode(DIRT, 4);
    var b := Patch(a, 608, Encode(logStart, 8));
    assert b[608..616] == Encode(logStart, 8);
    PatchKeeps(a, 608, Encode(logStart, 8), 596, 600);
    var c := Patch(b, 616, Encode(logEnd + 2, 8));
    assert c[616..624] == Encode(logEnd + 2, 8);
    PatchKeeps(b, 616, Encode(logEnd + 2, 8), 596, 600);
    PatchKeeps(b, 616, Encode(logEnd + 2, 8), 608, 616);
  }

  /** At the last log position the content takes the place of the volume root's inode: whatever the
      content is, that is what the reader then finds there, and without the inode magic the root
      can no longer be read. */
  lemma WrappedInjectionBreaksRoot(buf: bytes, cs: seq<Child>, name: bytes, m: Manifest, numBlocks: nat, blk: nat, b: Befs)
    requires ValidBlk(blk) && StagedImage(buf, cs, name, m, numBlocks, blk) && |buf| == numBlocks * blk
    requires LogOf(b, numBlocks, blk) && CanInject(buf, b) && !NoWrap(b)
    ensures var v, content := Open(Injected(buf, b)), BlockOf(buf, FindTarget(buf, b).value, blk);
            && v.Ok? && BlockOf(v.value.data, v.value.root, v.value.blk) == content
            && (GetInode(v.value, v.value.root).Ok? <==> U32(content, 0) == Ok(INODE_MAGIC1))
            && (U32(content, 0) != Ok(INODE_MAGIC1) ==> DirEntries(v.value, v.value.root) == Err(BadMagic))
  {
    hide BlockOf, FindTarget, Injected, Staged, Open, MirrorsAll, RootRec, SizingEntries, Fits, Packs, WithLog, GetInode, DirEntries, U32, Reserved, NoWrap;
    InjectedBlocks(buf, cs, name, m, numBlocks, blk, b);
    LastPosition(numBlocks, blk, b);
    RootIsContent(Open(Injected(buf, b)).value, BlockOf(buf, FindTarget(buf, b).value, blk));
  }

  lemma LastPosition(numBlocks: nat, blk: nat, b: Befs)
    requires LogOf(b, numBlocks, blk) && !NoWrap(b)
    ensures b.log.start + b.logEnd % b.log.len + 1 == Reserved(numBlocks) > 0
  {
  }

  lemma RootIsContent(v: Vol, content: bytes)
    requires BlockOf(v.data, v.root, v.blk) == content && |content| >= 4
    ensures GetInode(v, v.root).Ok? <==> U32(content, 0) == Ok(INODE_MAGIC1)
    ensures U32(content, 0) != Ok(INODE_MAGIC1) ==> DirEntries(v, v.root) == Err(BadMagic)
  {
    hide BlockOf, StreamBytes, U32;
    ContentMagic(content);
  }

  lemma ContentMagic(content: bytes)
    requires |content| >= 4
    ensures U32(content, 0).Ok?
  {
  }
}
