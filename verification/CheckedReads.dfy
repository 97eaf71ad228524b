/**
 What passing the self-check of `build_stage` means, for any image: the files read back through
 `befs_get`, and so do the directories whose links are whole block offsets.
 */
module CheckedReads {
  import opened Bytes
  import opened BPlusTree
  import opened TreeReaders
  import opened RoundTrip
  import opened TreeSearch
  import opened BlockRuns
  import opened Inodes
  import opened Volume
  import opened Images
  import opened Staging
  import opened SelfCheck

  // ---------------------------------------------------------------------------
  // The blocks behind a list of runs
  // ---------------------------------------------------------------------------

  function BlockList(runs: seq<Run>): (r: seq<int>)
    ensures |r| == TotalLength(runs)
  {
    if runs == [] then [] else seq(runs[0].len, k => runs[0].start + k) + BlockList(runs[1..])
  }

  function PagesOf(buf: bytes, runs: seq<Run>, blk: nat): (r: seq<bytes>)
    ensures |r| == TotalLength(runs)
  {
    var bs := BlockList(runs);
    seq(|bs|, k requires 0 <= k < |bs| => BlockOf(buf, bs[k], blk))
  }

  /** Every block of the runs lies whole in the image. */
  ghost predicate RunsInside(buf: bytes, runs: seq<Run>, blk: nat)
  {
    Uniform(PagesOf(buf, runs, blk), blk)
  }

  lemma {:induction false} RunBytesPages(buf: bytes, runs: seq<Run>, blk: nat)
    ensures RunBytes(buf, runs, blk) == Flatten(PagesOf(buf, runs, blk))
  {
    hide BlockOf;
    if runs != [] {
      var first := BlocksOf(buf, runs[0].start, runs[0].len, blk);
      RunBytesPages(buf, runs[1..], blk);
      assert PagesOf(buf, runs, blk) == first + PagesOf(buf, runs[1..], blk);
      FlattenAppend(first, PagesOf(buf, runs[1..], blk));
    }
  }

  lemma {:induction false} BlockAtList(runs: seq<Run>, covered: nat, k: nat, blk: nat)
    requires blk > 0
    ensures BlockAt(runs, covered, (covered + k) * blk, blk)
         == if k < TotalLength(runs) then Ok(BlockList(runs)[k]) else Err(CheckFailed)
    decreases |runs|
  {
    if runs != [] {
      var len := runs[0].len;
      if k < len {
        OffsetInRun(covered, len, k, blk);
      } else {
        MulLe(covered + len, covered + k, blk);
        assert covered + k == covered + len + (k - len);
        BlockAtList(runs[1..], covered + len, k - len, blk);
      }
    }
  }

  lemma PageServedAt(buf: bytes, runs: seq<Run>, k: nat, blk: nat)
    requires blk > 0 && RunsInside(buf, runs, blk) && k < TotalLength(runs)
    ensures BlockAt(runs, 0, k * blk, blk).Ok?
    ensures BlockOf(buf, BlockAt(runs, 0, k * blk, blk).value, blk) == Page(RunBytes(buf, runs, blk), k * blk, blk)
  {
    hide BlockOf, BlockAt, TotalLength, BlockList, RunBytes, Page;
    BlockAtList(runs, 0, k, blk);
    assert (0 + k) * blk == k * blk;
    RunBytesPages(buf, runs, blk);
    PageAt(PagesOf(buf, runs, blk), blk, k);
  }

  lemma NothingPast(runs: seq<Run>, k: nat, blk: nat)
    requires blk > 0 && k >= TotalLength(runs)
    ensures BlockAt(runs, 0, k * blk, blk).Err?
  {
    hide BlockAt, TotalLength, BlockList;
    BlockAtList(runs, 0, k, blk);
    assert (0 + k) * blk == k * blk;
  }

  /** At whole block offsets the self-check and `befs_get` see the same page. */
  lemma PageServed(buf: bytes, runs: seq<Run>, off: nat, blk: nat)
    requires blk > 0 && off % blk == 0 && RunsInside(buf, runs, blk)
    ensures PageThrough(buf, runs, off, blk).Ok? ==>
              && off < TotalLength(runs) * blk
              && PageThrough(buf, runs, off, blk).value == Page(RunBytes(buf, runs, blk), off, blk)
  {
    hide BlockOf, BlockAt, TotalLength, RunBytes, Page, RunsInside;
    var k, n := off / blk, TotalLength(runs);
    assert off == k * blk;
    if k < n {
      BlocksApart(k, n, blk);
      PageServedAt(buf, runs, k, blk);
    } else {
      NothingPast(runs, k, blk);
    }
  }

  // ---------------------------------------------------------------------------
  // The same walk
  // ---------------------------------------------------------------------------

  lemma SignedLink(nd: bytes, o: nat)
    requires U64(nd, o).Ok?
    ensures I64(nd, o).Ok?
    ensures U64(nd, o).value < MAX_I64 ==> I64(nd, o) == U64(nd, o)
    ensures U64(nd, o).value == BTREE_NULL <==> I64(nd, o).value == NULL_LINK
  {
    hide Decode;
    DecodeBound(nd[o..o + 8]);
    Pow256Values();
  }

  lemma StepAgrees(nd: bytes)
    requires CheckStep(nd).Ok? && (CheckStep(nd).value.ToChild? ==> CheckStep(nd).value.off < MAX_I64)
    ensures GetStep(nd) == CheckStep(nd)
  {
    hide I64, U64;
    SignedLink(nd, 16);
    if CheckStep(nd).value.ToChild? {
      SignedLink(nd, KeyAlign(28 + U16(nd, 26).value) + 2 * U16(nd, 24).value);
    }
  }

  lemma LeafAgrees(nd: bytes)
    requires CheckLeaf(nd).Ok? && CheckLeaf(nd).value.right < MAX_I64
    ensures GetLeaf(nd) == CheckLeaf(nd)
  {
    hide I64, U64, NodeEntries;
    SignedLink(nd, 8);
  }

  /** The descent follows whole block offsets. */
  ghost predicate DescentAligned(read: int -> Result<Step>, off: int, cap: nat, blk: nat)
    requires blk > 0
    decreases cap
  {
    && off % blk == 0
    && (cap > 0 && read(off).Ok? && read(off).value.ToChild? ==> DescentAligned(read, read(off).value.off, cap - 1, blk))
  }

  /** So does the walk along the leaves. */
  ghost predicate ChainAligned(read: int -> Result<ParsedLeaf>, off: int, cap: nat, blk: nat)
    requires blk > 0
    decreases cap
  {
    && off % blk == 0
    && (cap > 0 && read(off).Ok? && read(off).value.right != NULL_LINK ==> ChainAligned(read, read(off).value.right, cap - 1, blk))
  }

  /** At whole offsets one reader of steps or leaves agrees with another, as far as links fit 63 bits;
      the first finds nothing at larger offsets. */
  ghost predicate StepsAgree(check: int -> Result<Step>, get: int -> Result<Step>, blk: nat)
    requires blk > 0
  {
    forall off :: off % blk == 0 && check(off).Ok? ==>
      && off < MAX_I64
      && (check(off).value.AtLeaf? || check(off).value.off < MAX_I64 ==> get(off) == check(off))
  }

  ghost predicate LeavesAgree(check: int -> Result<ParsedLeaf>, get: int -> Result<ParsedLeaf>, blk: nat)
    requires blk > 0
  {
    forall off :: off % blk == 0 && check(off).Ok? ==>
      off < MAX_I64 && (check(off).value.right < MAX_I64 ==> get(off) == check(off))
  }

  lemma {:induction false} DescentAgrees(check: int -> Result<Step>, get: int -> Result<Step>, off: int, cap: nat, blk: nat)
    requires blk > 0 && StepsAgree(check, get, blk) && DescentAligned(check, off, cap, blk) && GetDescend(check, off, cap).Ok?
    ensures off < MAX_I64 && GetDescend(get, off, cap) == GetDescend(check, off, cap)
    decreases cap
  {
    if check(off).value.ToChild? {
      DescentAgrees(check, get, check(off).value.off, cap - 1, blk);
    }
  }

  lemma {:induction false} ChainAgrees(check: int -> Result<ParsedLeaf>, get: int -> Result<ParsedLeaf>, off: int, cap: nat, cap': nat,
                                       out: seq<Entry>, blk: nat)
    requires blk > 0 && LeavesAgree(check, get, blk) && ChainAligned(check, off, cap, blk) && GetChain(check, off, cap, out).Ok?
    requires cap <= cap'
    ensures off < MAX_I64 && GetChain(get, off, cap', out) == GetChain(check, off, cap, out)
    decreases cap
  {
    if check(off).value.right != NULL_LINK {
      ChainAgrees(check, get, check(off).value.right, cap - 1, cap' - 1, out + check(off).value.entries, blk);
    }
  }

  /** All links that the walk of the self-check follows are whole block offsets. */
  ghost predicate Aligned(buf: bytes, runs: seq<Run>, blk: nat)
    requires blk > 0
  {
    var hdr := PageThrough(buf, runs, 0, blk);
    hdr.Ok? && U64(hdr.value, 16).Ok? ==>
      && DescentAligned(CheckSteps(buf, runs, blk), U64(hdr.value, 16).value, GET_DEPTH_CAP, blk)
      && var leaf := GetDescend(CheckSteps(buf, runs, blk), U64(hdr.value, 16).value, GET_DEPTH_CAP);
         leaf.Ok? ==> ChainAligned(CheckLeaves(buf, runs, blk), leaf.value, CHECK_CHAIN_CAP, blk)
  }

  lemma StreamPagesAgree(buf: bytes, runs: seq<Run>, blk: nat)
    requires blk > 0 && RunsInside(buf, runs, blk) && TotalLength(runs) * blk <= MAX_I64
    ensures StepsAgree(CheckSteps(buf, runs, blk), StepReader(RunBytes(buf, runs, blk), blk), blk)
    ensures LeavesAgree(CheckLeaves(buf, runs, blk), LeafReader(RunBytes(buf, runs, blk), blk), blk)
  {
    hide RunsInside, TotalLength, RunBytes, CheckStep, CheckLeaf, GetStep, GetLeaf, Page;
    forall off: int | off >= 0 && off % blk == 0 && PageThrough(buf, runs, off, blk).Ok?
      ensures off < MAX_I64 && PageThrough(buf, runs, off, blk).value == Page(RunBytes(buf, runs, blk), off, blk)
    {
      PageServed(buf, runs, off, blk);
    }
    hide PageThrough;
    assert forall off: int :: PageThrough(buf, runs, off, blk).Ok? ==> off >= 0 by { NoNegativePage(buf, runs, blk); }
    forall nd | CheckStep(nd).Ok? && (CheckStep(nd).value.ToChild? ==> CheckStep(nd).value.off < MAX_I64)
      ensures GetStep(nd) == CheckStep(nd)
    {
      StepAgrees(nd);
    }
    forall nd | CheckLeaf(nd).Ok? && CheckLeaf(nd).value.right < MAX_I64
      ensures GetLeaf(nd) == CheckLeaf(nd)
    {
      LeafAgrees(nd);
    }
  }

  lemma NoNegativePage(buf: bytes, runs: seq<Run>, blk: nat)
    requires blk > 0
    ensures forall off: int :: PageThrough(buf, runs, off, blk).Ok? ==> off >= 0
  {
  }

  /** The entries that the self-check walks over are the ones `befs_get` returns. */
  lemma EntriesAgree(buf: bytes, runs: seq<Run>, blk: nat)
    requires blk >= 24 && RunsInside(buf, runs, blk) && TotalLength(runs) * blk <= MAX_I64
    requires CheckEntries(buf, runs, blk).Ok? && Aligned(buf, runs, blk)
    ensures GetEntries(RunBytes(buf, runs, blk), blk) == CheckEntries(buf, runs, blk)
  {
    hide RunsInside, TotalLength, RunBytes, CheckSteps, CheckLeaves, StepReader, LeafReader, StepsAgree, LeavesAgree, GetDescend, GetChain, DescentAligned, ChainAligned;
    var stream, hdr := RunBytes(buf, runs, blk), PageThrough(buf, runs, 0, blk).value;
    var check, get, root := CheckSteps(buf, runs, blk), StepReader(stream, blk), U64(hdr, 16).value;
    StreamPagesAgree(buf, runs, blk);
    HeaderAgrees(buf, runs, blk);
    DescentAgrees(check, get, root, GET_DEPTH_CAP, blk);
    ChainAgrees(CheckLeaves(buf, runs, blk), LeafReader(stream, blk), GetDescend(check, root, GET_DEPTH_CAP).value,
                CHECK_CHAIN_CAP, GET_CHAIN_CAP, [], blk);
  }

  lemma HeaderAgrees(buf: bytes, runs: seq<Run>, blk: nat)
    requires blk >= 24 && RunsInside(buf, runs, blk) && PageThrough(buf, runs, 0, blk).Ok?
    ensures var stream, hdr := RunBytes(buf, runs, blk), PageThrough(buf, runs, 0, blk).value;
            && U32(stream, 0) == U32(hdr, 0)
            && (U64(hdr, 16).Ok? && U64(hdr, 16).value < MAX_I64 ==> I64(stream, 16) == U64(hdr, 16))
  {
    hide TotalLength, BlockOf, BlockAt, BlockList, RunBytes, Decode;
    var stream, hdr := RunBytes(buf, runs, blk), PageThrough(buf, runs, 0, blk).value;
    PageServed(buf, runs, 0, blk);
    RunBytesPages(buf, runs, blk);
    UniformLength(PagesOf(buf, runs, blk), blk);
    MulLe(1, TotalLength(runs), blk);
    assert hdr == stream[0..blk];
    assert hdr[0..4] == stream[0..4] && hdr[16..24] == stream[16..24];
    if U64(hdr, 16).Ok? {
      SignedLink(hdr, 16);
    }
  }

  // ---------------------------------------------------------------------------
  // The runs of an inode are short
  // ---------------------------------------------------------------------------

  ghost predicate ShortRuns(runs: seq<Run>)
  {
    forall i :: 0 <= i < |runs| ==> runs[i].len < 0x1_0000
  }

  lemma ShortRun(node: bytes, o: nat, group: nat)
    ensures ReadRun(node, o, group).Ok? ==> ReadRun(node, o, group).value.len < 0x1_0000
  {
    hide Decode;
    if o + 8 <= |node| {
      DecodeBound(node[o + 6..o + 8]);
      Pow256Values();
    }
  }

  lemma {:induction false} RunsFromShort(node: bytes, group: nat, j: nat, out: seq<Run>)
    requires j <= DIRECT && |out| == j && ShortRuns(out)
    ensures var r := RunsFrom(RunReader(node, group), j, out);
            r.Ok? ==> |r.value| <= DIRECT && ShortRuns(r.value)
    decreases DIRECT - j
  {
    hide ReadRun;
    if j < DIRECT {
      ShortRun(node, 72 + 8 * j, group);
      var run := RunReader(node, group)(j);
      if run.Ok? && run.value.len != 0 {
        RunsFromShort(node, group, j + 1, out + [run.value]);
      }
    }
  }

  lemma {:induction false} ShortTotal(runs: seq<Run>)
    requires ShortRuns(runs)
    ensures TotalLength(runs) <= 0x1_0000 * |runs|
  {
    if runs != [] {
      ShortTotal(runs[1..]);
    }
  }

  lemma InodeStreamShort(node: bytes, blk: nat)
    requires blk <= 0x1_0000
    ensures var r := RunsFrom(RunReader(node, GROUPSIZE), 0, []);
            r.Ok? ==> TotalLength(r.value) * blk <= MAX_I64
  {
    hide RunsFrom, RunReader, TotalLength;
    RunsFromShort(node, GROUPSIZE, 0, []);
    var r := RunsFrom(RunReader(node, GROUPSIZE), 0, []);
    if r.Ok? {
      ShortTotal(r.value);
      MulLe(TotalLength(r.value), 0x1_0000 * DIRECT, blk);
    }
  }

  // ---------------------------------------------------------------------------
  // Passing the check
  // ---------------------------------------------------------------------------

  /** A file passes exactly when its inode has the record's size and runs and `befs_get` reads its very
      bytes there; so any difference is rejected. */
  lemma FileCheckIff(v: Vol, r: Rec)
    requires v.blk > 0 && v.group == GROUPSIZE && r.FileRec?
    ensures Checked(v.data, r, v.blk) == Ok(()) <==>
              && GetInode(v, r.block).Ok?
              && I64(GetInode(v, r.block).value, 208) == Ok(|r.data|)
              && RunsFrom(RunReader(GetInode(v, r.block).value, GROUPSIZE), 0, []) == Ok(r.runs)
              && FileBytes(v, r.block) == Ok(r.data)
  {
    hide RunsFrom, RunReader, BlockOf, RunBytes, U32, I64;
  }

  /** The runs of every directory lie in the image and its links are whole block offsets. */
  ghost predicate SoundTrees(buf: bytes, r: Rec, blk: nat)
    requires blk > 0
    decreases r, 1
  {
    r.DirRec? ==>
      && (var runs := RunsFrom(RunReader(BlockOf(buf, r.block, blk), GROUPSIZE), 0, []);
          runs.Ok? ==> RunsInside(buf, runs.value, blk) && Aligned(buf, runs.value, blk))
      && AllSoundTrees(buf, r.children, blk)
  }

  ghost predicate AllSoundTrees(buf: bytes, rs: seq<Rec>, blk: nat)
    requires blk > 0
    decreases rs, 0
  {
    rs == [] || (SoundTrees(buf, rs[0], blk) && AllSoundTrees(buf, rs[1..], blk))
  }

  /** `befs_get` reads the record back: a file its bytes, a directory `.`, `..` and the names of its
      children with their blocks, and the children likewise. */
  ghost predicate ReadsAs(v: Vol, r: Rec)
    decreases r, 1
  {
    match r
    case FileRec(_, _, block, _, data, _) => FileBytes(v, block) == Ok(data)
    case DirRec(_, _, block, _, _, _, children) =>
      && DirEntries(v, block).Ok? && |DirEntries(v, block).value| == 2 + |children|
      && Keys(DirEntries(v, block).value) == Expected(children)
      && AllReadAs(v, children, DirEntries(v, block).value[2..])
  }

  ghost predicate AllReadAs(v: Vol, rs: seq<Rec>, es: seq<Entry>)
    decreases rs, 0
  {
    |rs| == |es| && (rs != [] ==> es[0].value == rs[0].block && ReadsAs(v, rs[0]) && AllReadAs(v, rs[1..], es[1..]))
  }

  /** Whatever the image: when the self-check passes, `befs_get` reads every file and every directory of
      the records back. */
  lemma {:induction false} CheckedReadsBack(v: Vol, r: Rec)
    requires ValidBlk(v.blk) && v.group == GROUPSIZE && Checked(v.data, r, v.blk) == Ok(()) && SoundTrees(v.data, r, v.blk)
    ensures ReadsAs(v, r)
    decreases r, 1
  {
    hide RunsFrom, RunReader, BlockOf, RunBytes, U32, I64, CheckEntries, GetEntries, Expected, Keys, AllChecked, AllReadAs, AllSoundTrees, RunsInside, Aligned, ValidBlk;
    BlockSizes(v.blk);
    if r.FileRec? {
      FileCheckIff(v, r);
    } else {
      var node := BlockOf(v.data, r.block, v.blk);
      var runs := RunsFrom(RunReader(node, GROUPSIZE), 0, []).value;
      InodeStreamShort(node, v.blk);
      EntriesAgree(v.data, runs, v.blk);
      var es := CheckEntries(v.data, runs, v.blk).value;
      assert DirEntries(v, r.block) == Ok(es);
      KeysLength(es, r.children);
      AllCheckedReadBack(v, r.children, es[2..]);
    }
  }

  lemma BlockSizes(blk: nat)
    requires ValidBlk(blk)
    ensures 24 <= blk <= 0x1_0000
  {
  }

  lemma KeysLength(es: seq<Entry>, rs: seq<Rec>)
    requires Keys(es) == Expected(rs)
    ensures |es| == 2 + |rs|
  {
    assert |Keys(es)| == |es|;
  }

  lemma {:induction false} AllCheckedReadBack(v: Vol, rs: seq<Rec>, es: seq<Entry>)
    requires ValidBlk(v.blk) && v.group == GROUPSIZE && |rs| == |es|
    requires AllChecked(v.data, rs, es, v.blk) == Ok(()) && AllSoundTrees(v.data, rs, v.blk)
    ensures AllReadAs(v, rs, es)
    decreases rs, 0
  {
    hide Checked, SoundTrees, ReadsAs;
    if rs != [] {
      var first := Checked(v.data, rs[0], v.blk);
      assert first.Ok? && first.value == ();
      CheckedReadsBack(v, rs[0]);
      AllCheckedReadBack(v, rs[1..], es[1..]);
    }
  }
}
