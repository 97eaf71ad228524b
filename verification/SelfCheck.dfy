/**
 The read-back at the end of `build_stage` in `tools/mkbefs.py`: a third reader, which maps stream
 offsets to image blocks run by run and compares what it finds with the records.
 */
module SelfCheck {
  import opened Bytes
  import opened BPlusTree
  import opened TreeReaders
  import opened RoundTrip
  import opened TreeSearch
  import opened BlockRuns
  import opened Inodes
  import opened Volume
  import opened Images
  import opened Staging
  import opened StageWriter
  import opened ReadBack
  import opened EndToEnd

  const BTREE_NULL: nat := 0xFFFF_FFFF_FFFF_FFFF
  const CHECK_CHAIN_CAP: nat := 10000

  // ---------------------------------------------------------------------------
  // Reading a tree through the runs of its inode
  // ---------------------------------------------------------------------------

  function U64(b: bytes, o: nat): Result<nat>
  {
    var s :- Raw(b, o, 8);
    Ok(Decode(s))
  }

  function CheckStep(nd: bytes): Result<Step>
  {
    var overflow :- U64(nd, 16);
    if overflow == BTREE_NULL then Ok(AtLeaf)
    else
      var count :- U16(nd, 24);
      var klen :- U16(nd, 26);
      var child :- U64(nd, KeyAlign(28 + klen) + 2 * count);
      Ok(ToChild(child))
  }

  function CheckLeaf(nd: bytes): Result<ParsedLeaf>
  {
    var es :- NodeEntries(nd);
    var right :- U64(nd, 8);
    Ok(ParsedLeaf(es, if right == BTREE_NULL then NULL_LINK else right))
  }

  /** `stream_block`, from `covered` blocks on. */
  function BlockAt(runs: seq<Run>, covered: nat, off: nat, blk: nat): Result<int>
    requires blk > 0
    decreases |runs|
  {
    if runs == [] then Err(CheckFailed)
    else if off < (covered + runs[0].len) * blk then Ok(runs[0].start + (off - covered * blk) / blk)
    else BlockAt(runs[1..], covered + runs[0].len, off, blk)
  }

  /** The image block behind a stream offset. */
  function PageThrough(buf: bytes, runs: seq<Run>, off: int, blk: nat): Result<bytes>
    requires blk > 0
  {
    if off < 0 then Err(CheckFailed)
    else
      var b :- BlockAt(runs, 0, off, blk);
      Ok(BlockOf(buf, b, blk))
  }

  function CheckSteps(buf: bytes, runs: seq<Run>, blk: nat): int -> Result<Step>
    requires blk > 0
  {
    off => var nd :- PageThrough(buf, runs, off, blk); CheckStep(nd)
  }

  function CheckLeaves(buf: bytes, runs: seq<Run>, blk: nat): int -> Result<ParsedLeaf>
    requires blk > 0
  {
    off => var nd :- PageThrough(buf, runs, off, blk); CheckLeaf(nd)
  }

  function CheckEntries(buf: bytes, runs: seq<Run>, blk: nat): Result<seq<Entry>>
    requires blk > 0
  {
    var hdr :- PageThrough(buf, runs, 0, blk);
    if U32(hdr, 0) != Ok(BTREE_MAGIC) then Err(CheckFailed)
    else
      var root :- U64(hdr, 16);
      var leaf :- GetDescend(CheckSteps(buf, runs, blk), root, GET_DEPTH_CAP);
      GetChain(CheckLeaves(buf, runs, blk), leaf, CHECK_CHAIN_CAP, [])
  }

  // ---------------------------------------------------------------------------
  // check_node
  // ---------------------------------------------------------------------------

  function RecSize(r: Rec, blk: nat): nat
  {
    match r
    case FileRec(_, _, _, _, data, _) => |data|
    case DirRec(_, _, _, _, nblk, _, _) => nblk * blk
  }

  /** The names a directory should list. */
  function Expected(rs: seq<Rec>): seq<bytes>
  {
    [DOT, DOT_DOT] + seq(|rs|, i requires 0 <= i < |rs| => rs[i].name)
  }

  /** What `check_node` decides: nothing raised, or the first thing that is. */
  function Checked(buf: bytes, r: Rec, blk: nat): Result<()>
    requires blk > 0
    decreases r, 1
  {
    var node := BlockOf(buf, r.block, blk);
    if U32(node, 0) != Ok(INODE_MAGIC1) then Err(CheckFailed)
    else
      var size :- I64(node, 208);
      if size != RecSize(r, blk) then Err(CheckFailed)
      else
        var runs :- RunsFrom(RunReader(node, GROUPSIZE), 0, []);
        match r
        case FileRec(_, _, _, _, data, recRuns) =>
          if runs != recRuns || Slice(RunBytes(buf, runs, blk), 0, size) != data then Err(CheckFailed) else Ok(())
        case DirRec(_, _, _, _, _, _, children) =>
          var es :- CheckEntries(buf, runs, blk);
          if Keys(es) != Expected(children) then Err(CheckFailed)
          else AllChecked(buf, children, es[2..], blk)
  }

  /** The children in turn, each at the block its entry names. */
  function AllChecked(buf: bytes, rs: seq<Rec>, es: seq<Entry>, blk: nat): Result<()>
    requires blk > 0
    decreases rs, 0
  {
    if rs == [] || es == [] then Ok(())
    else if es[0].value != rs[0].block then Err(CheckFailed)
    else
      var _ :- Checked(buf, rs[0], blk);
      AllChecked(buf, rs[1..], es[1..], blk)
  }

  /** `stream_block` */
  method StreamBlockOf(runs: seq<Run>, off: nat, blk: nat) returns (r: Result<int>)
    requires blk > 0
    ensures r == BlockAt(runs, 0, off, blk)
  {
    var covered, i := 0, 0;
    assert runs[0..] == runs;
    while i < |runs|
      invariant 0 <= i <= |runs| && 0 <= covered
      invariant BlockAt(runs, 0, off, blk) == BlockAt(runs[i..], covered, off, blk)
    {
      if off < (covered + runs[i].len) * blk {
        return Ok(runs[i].start + (off - covered * blk) / blk);
      }
      assert runs[i..][1..] == runs[i + 1..];
      covered := covered + runs[i].len;
      i := i + 1;
    }
    return Err(CheckFailed);
  }

  /** The tree walk of `check_node`. */
  method WalkTree(buf: bytes, runs: seq<Run>, blk: nat) returns (r: Result<seq<Entry>>)
    requires blk > 0
    ensures r == CheckEntries(buf, runs, blk)
  {
    var first := StreamBlockOf(runs, 0, blk);
    var b :- first;
    var hdr := BlockOf(buf, b, blk);
    if U32(hdr, 0) != Ok(BTREE_MAGIC) {
      return Err(CheckFailed);
    }
    var root :- U64(hdr, 16);
    var descent := DescendToLeaf(CheckSteps(buf, runs, blk), root);
    var leaf :- descent;
    r := WalkLeaves(CheckLeaves(buf, runs, blk), leaf, CHECK_CHAIN_CAP);
  }

  /** `inode_runs` */
  method InodeRuns(node: bytes) returns (r: Result<seq<Run>>)
    ensures r == RunsFrom(RunReader(node, GROUPSIZE), 0, [])
  {
    hide ReadRun;
    var read := RunReader(node, GROUPSIZE);
    var runs: seq<Run>, j: nat := [], 0;
    while j < DIRECT
      invariant j <= DIRECT
      invariant RunsFrom(read, 0, []) == RunsFrom(read, j, runs)
    {
      var run :- read(j);
      if run.len == 0 {
        return Ok(runs);
      }
      runs := runs + [run];
      j := j + 1;
    }
    return Ok(runs);
  }

  /** The blocks of a file's runs, joined. */
  method JoinRuns(buf: bytes, runs: seq<Run>, blk: nat) returns (total: bytes)
    ensures total == RunBytes(buf, runs, blk)
  {
    hide BlocksOf;
    total := [];
    var i := 0;
    while i < |runs|
      invariant 0 <= i <= |runs|
      invariant total == RunBytes(buf, runs[..i], blk)
    {
      assert runs[..i + 1] == runs[..i] + [runs[i]];
      RunBytesSnoc(buf, runs[..i], runs[i], blk);
      total := AppendBlocks(buf, runs[i].start, runs[i].len, blk, total);
      i := i + 1;
    }
    assert runs[..i] == runs;
  }

  /** `check_node` */
  method CheckNode(buf: bytes, r: Rec, blk: nat) returns (res: Result<()>)
    requires blk > 0
    ensures res == Checked(buf, r, blk)
    decreases r
  {
    hide RunsFrom, RunReader, BlockOf, CheckEntries, RunBytes;
    var node := BlockOf(buf, r.block, blk);
    if U32(node, 0) != Ok(INODE_MAGIC1) {
      return Err(CheckFailed);
    }
    var size :- I64(node, 208);
    if size != RecSize(r, blk) {
      return Err(CheckFailed);
    }
    var read := InodeRuns(node);
    var runs :- read;
    match r {
      case FileRec(_, _, _, _, data, recRuns) =>
        var total := JoinRuns(buf, runs, blk);
        if runs != recRuns || Slice(total, 0, size) != data {
          return Err(CheckFailed);
        }
        return Ok(());
      case DirRec(_, _, _, _, _, _, children) =>
        var walked := WalkTree(buf, runs, blk);
        var es :- walked;
        if Keys(es) != Expected(children) {
          return Err(CheckFailed);
        }
        var i := 0;
        assert children[0..] == children && es[2..][0..] == es[2..];
        while i < |children|
          invariant 0 <= i <= |children| && |es| == 2 + |children|
          invariant AllChecked(buf, children, es[2..], blk) == AllChecked(buf, children[i..], es[2..][i..], blk)
        {
          if es[i + 2].value != children[i].block {
            return Err(CheckFailed);
          }
          var child := CheckNode(buf, children[i], blk);
          if child.Err? {
            return child;
          }
          assert children[i..][1..] == children[i + 1..] && es[2..][i..][1..] == es[2..][i + 1..];
          i := i + 1;
        }
        return Ok(());
    }
  }

  // ---------------------------------------------------------------------------
  // The third reader sees what the second one saw
  // ---------------------------------------------------------------------------

  lemma UnsignedLink(nd: bytes, o: nat)
    requires I64(nd, o).Ok? && I64(nd, o).value >= -1
    ensures U64(nd, o) == Ok(if I64(nd, o).value == -1 then BTREE_NULL else I64(nd, o).value)
    ensures I64(nd, o).value != BTREE_NULL
  {
    hide Decode;
    DecodeBound(nd[o..o + 8]);
    Pow256Values();
  }

  lemma {:induction false} DecodeBound(s: bytes)
    ensures Decode(s) < Pow256(|s|)
    decreases |s|
  {
    if s != [] {
      DecodeBound(s[1..]);
    }
  }

  lemma SameStep(nd: bytes)
    requires GetStep(nd).Ok? && (GetStep(nd).value.ToChild? ==> GetStep(nd).value.off >= 0)
    requires I64(nd, 16).value >= -1
    ensures CheckStep(nd) == GetStep(nd)
  {
    hide I64, U64;
    UnsignedLink(nd, 16);
    if GetStep(nd).value.ToChild? {
      UnsignedLink(nd, KeyAlign(28 + U16(nd, 26).value) + 2 * U16(nd, 24).value);
    }
  }

  lemma SameLeaf(nd: bytes)
    requires GetLeaf(nd).Ok? && GetLeaf(nd).value.right >= -1
    ensures CheckLeaf(nd) == GetLeaf(nd)
  {
    hide I64, U64, NodeEntries;
    UnsignedLink(nd, 8);
  }

  lemma OffsetInRun(covered: nat, len: nat, k: nat, blk: nat)
    requires blk > 0 && k < len
    ensures (covered + k) * blk < (covered + len) * blk && ((covered + k) * blk - covered * blk) / blk == k
  {
    BlocksApart(covered + k, covered + len, blk);
    QuotientOf(k, blk);
    assert (covered + k) * blk - covered * blk == blk * k;
  }

  /** The block behind a whole offset of a tiled stream. */
  lemma {:induction false} TilesBlock(runs: seq<Run>, start: nat, need: nat, covered: nat, k: nat, blk: nat)
    requires blk > 0 && Tiles(runs, start, need) && k < need
    ensures BlockAt(runs, covered, (covered + k) * blk, blk) == Ok(start + k)
    decreases |runs|
  {
    var len := runs[0].len;
    if k < len {
      OffsetInRun(covered, len, k, blk);
    } else {
      MulLe(covered + len, covered + k, blk);
      assert covered + k == covered + len + (k - len);
      TilesBlock(runs[1..], start + len, need - len, covered + len, k - len, blk);
    }
  }

  /** The pages of a stream, as served at whole offsets. */
  ghost predicate Serves(step: int -> Result<Step>, leaf: int -> Result<ParsedLeaf>, pages: seq<bytes>, blk: nat)
  {
    forall k :: 0 <= k < |pages| ==> step(k * blk) == CheckStep(pages[k]) && leaf(k * blk) == CheckLeaf(pages[k])
  }

  lemma PageChecks(nd: bytes, es: seq<Entry>, left: int, right: int, overflow: int)
    requires PageReads(nd, es, left, right, overflow) && right >= -1 && overflow >= -1
    ensures CheckLeaf(nd) == Ok(ParsedLeaf(es, right))
    ensures overflow == NULL_LINK ==> CheckStep(nd) == Ok(AtLeaf)
    ensures overflow != NULL_LINK && es != [] && es[0].value >= 0 ==> CheckStep(nd) == Ok(ToChild(es[0].value))
  {
    hide NodeEntries, U64, CheckStep, CheckLeaf;
    SameLeaf(nd);
    if overflow == NULL_LINK || (es != [] && es[0].value >= 0) {
      OverflowRead(nd, es, left, right, overflow);
      SameStep(nd);
    }
  }

  lemma OverflowRead(nd: bytes, es: seq<Entry>, left: int, right: int, overflow: int)
    requires DumpNode(nd) == Ok(ParsedNode(left, right, overflow, es))
    ensures I64(nd, 16) == Ok(overflow)
  {
  }

  lemma ShallowChecks(step: int -> Result<Step>, leaf: int -> Result<ParsedLeaf>, pages: seq<bytes>, es: seq<Entry>, blk: nat)
    requires ValidBlk(blk) && Serves(step, leaf, pages, blk) && |pages| == 2 && ValuesInRange(es)
    requires Node(es, NULL_LINK, NULL_LINK, NULL_LINK, blk) == Ok(pages[1])
    ensures GetDescend(step, blk, GET_DEPTH_CAP) == Ok(blk)
    ensures GetChain(leaf, blk, CHECK_CHAIN_CAP, []) == Ok(es)
  {
    hide PageReads, CheckStep, CheckLeaf, Node;
    NodeReads(pages[1], es, NULL_LINK, NULL_LINK, NULL_LINK, blk);
    PageChecks(pages[1], es, NULL_LINK, NULL_LINK, NULL_LINK);
    assert 1 * blk == blk;
    assert step(blk) == Ok(AtLeaf) && leaf(blk) == Ok(ParsedLeaf(es, NULL_LINK));
    assert [] + es == es;
  }

  lemma DeepChecks(step: int -> Result<Step>, leaf: int -> Result<ParsedLeaf>, pages: seq<bytes>, dataType: nat,
                   chunks: seq<seq<Entry>>, blk: nat)
    requires ValidBlk(blk) && Serves(step, leaf, pages, blk) && DeepPages(pages, dataType, chunks, blk)
    requires ValuesInRange(Flatten(chunks))
    ensures GetDescend(step, blk, GET_DEPTH_CAP) == Ok(LeafOffset(0, blk))
    ensures GetChain(leaf, LeafOffset(0, blk), CHECK_CHAIN_CAP, []) == Ok(Flatten(chunks))
  {
    hide PageReads, CheckStep, CheckLeaf, Node, Separators, TreeHeader, LeafPage, GetDescend, GetChain;
    var offs := Offsets(|chunks|, blk);
    FewLeaves(chunks, blk);
    OffsetsInOrder(|chunks|, blk);
    DeepServed(step, leaf, pages, dataType, chunks, blk);
    DescendOnce(step, blk, offs[0]);
    GetChainReads(leaf, chunks, offs, 0, CHECK_CHAIN_CAP, []);
    assert chunks[0..] == chunks && [] + Flatten(chunks) == Flatten(chunks);
  }

  lemma DescendOnce(step: int -> Result<Step>, root: int, off: int)
    requires step(root) == Ok(ToChild(off)) && step(off) == Ok(AtLeaf)
    ensures GetDescend(step, root, GET_DEPTH_CAP) == Ok(off)
  {
    assert GetDescend(step, off, GET_DEPTH_CAP - 1) == Ok(off);
  }

  lemma DeepServed(step: int -> Result<Step>, leaf: int -> Result<ParsedLeaf>, pages: seq<bytes>, dataType: nat,
                   chunks: seq<seq<Entry>>, blk: nat)
    requires ValidBlk(blk) && Serves(step, leaf, pages, blk) && DeepPages(pages, dataType, chunks, blk)
    requires ValuesInRange(Flatten(chunks)) && |chunks| <= 6551
    ensures GetReads(step, leaf, blk, chunks, Offsets(|chunks|, blk))
  {
    hide PageReads, CheckStep, CheckLeaf, Node, Separators, TreeHeader, LeafPage;
    var offs := Offsets(|chunks|, blk);
    OffsetsInOrder(|chunks|, blk);
    RootPageReads(pages, dataType, chunks, blk);
    FirstSeparator(chunks, blk);
    OffsetBounds(|chunks| - 1, |chunks|, blk);
    PageChecks(pages[1], Separators(chunks, blk), NULL_LINK, NULL_LINK, LeafOffset(|chunks| - 1, blk));
    assert 1 * blk == blk;
    forall k | 0 <= k < |chunks|
      ensures leaf(offs[k]) == Ok(ParsedLeaf(chunks[k], NextOffset(offs, k))) && step(offs[k]) == Ok(AtLeaf)
    {
      LeafServed(pages, dataType, chunks, k, blk);
      assert offs[k] == (2 + k) * blk && pages[2 + k] == pages[2..][k];
      assert step((2 + k) * blk) == CheckStep(pages[2 + k]);
    }
  }

  lemma LeafServed(pages: seq<bytes>, dataType: nat, chunks: seq<seq<Entry>>, k: nat, blk: nat)
    requires ValidBlk(blk) && DeepPages(pages, dataType, chunks, blk) && ValuesInRange(Flatten(chunks))
    requires k < |chunks| <= 6551
    ensures 2 + k < |pages| && CheckStep(pages[2 + k]) == Ok(AtLeaf)
    ensures CheckLeaf(pages[2 + k]) == Ok(ParsedLeaf(chunks[k], RightLink(|chunks|, k, blk)))
  {
    hide PageReads, CheckStep, CheckLeaf, Node, Separators, TreeHeader;
    FlattenInRange(chunks, k);
    LeafPageReads(pages[2 + k], chunks, k, blk);
    OffsetBounds(k, k + 1, blk);
    PageChecks(pages[2 + k], chunks[k], LeftLink(k, blk), RightLink(|chunks|, k, blk), NULL_LINK);
  }

  /** A stream stored behind tiling runs gives back its entries to the self-check. */
  lemma StreamChecks(buf: bytes, runs: seq<Run>, es: seq<Entry>, start: nat, blk: nat)
    requires ValidBlk(blk) && Stream(BTREE_STRING, es, blk).Ok? && ValuesInRange(es)
    requires Tiles(runs, start, PageCount(es, blk))
    requires var s := Stream(BTREE_STRING, es, blk).value;
             forall k: nat :: k < PageCount(es, blk) ==> BlockOf(buf, start + k, blk) == BlockOf(s, k, blk)
    ensures CheckEntries(buf, runs, blk) == Ok(es)
  {
    hide BlockOf, CheckStep, CheckLeaf, GetDescend, GetChain, Node, Tiles, TreeHeader, Separators, BlockAt, Chunks;
    var pages, step, leaf := Pages(BTREE_STRING, es, blk).value, CheckSteps(buf, runs, blk), CheckLeaves(buf, runs, blk);
    StreamLength(BTREE_STRING, es, blk);
    forall k | 0 <= k < |pages|
      ensures PageThrough(buf, runs, k * blk, blk) == Ok(pages[k])
    {
      TilesBlock(runs, start, PageCount(es, blk), 0, k, blk);
      StreamBlock(pages, blk, k);
      MulLe(0, k, blk);
    }
    assert Serves(step, leaf, pages, blk);
    HeaderChecks(pages, es, blk);
    assert PageThrough(buf, runs, 0 * blk, blk) == Ok(pages[0]);
    PagesCheck(step, leaf, pages, es, blk);
  }

  lemma HeaderChecks(pages: seq<bytes>, es: seq<Entry>, blk: nat)
    requires ValidBlk(blk) && Pages(BTREE_STRING, es, blk) == Ok(pages) && |pages| >= 2
    ensures U32(pages[0], 0) == Ok(BTREE_MAGIC) && U64(pages[0], 16) == Ok(blk)
  {
    hide Node, TreeHeader, LeafPages, U32, U64;
    var chunks := Chunks(es, blk).value;
    if |chunks| == 1 {
      HeaderReads(pages[0], 1, BTREE_STRING, 2 * blk, blk);
    } else {
      HeaderReads(pages[0], 2, BTREE_STRING, LeafOffset(|chunks|, blk), blk);
    }
    UnsignedLink(pages[0], 16);
  }

  lemma PagesCheck(step: int -> Result<Step>, leaf: int -> Result<ParsedLeaf>, pages: seq<bytes>, es: seq<Entry>, blk: nat)
    requires ValidBlk(blk) && Stream(BTREE_STRING, es, blk).Ok? && Pages(BTREE_STRING, es, blk) == Ok(pages)
    requires ValuesInRange(es) && Serves(step, leaf, pages, blk)
    ensures GetDescend(step, blk, GET_DEPTH_CAP).Ok?
    ensures GetChain(leaf, GetDescend(step, blk, GET_DEPTH_CAP).value, CHECK_CHAIN_CAP, []) == Ok(es)
  {
    hide Node, TreeHeader, Separators, GetDescend, GetChain, Serves, Greedy;
    var chunks := Chunks(es, blk).value;
    if |chunks| == 1 {
      ShallowPages(BTREE_STRING, es, blk);
      ShallowChecks(step, leaf, pages, es, blk);
    } else {
      StreamIsDeep(BTREE_STRING, es, blk);
      GreedyFlatten([], es, blk);
      assert Flatten(chunks) == es;
      DeepChecks(step, leaf, pages, BTREE_STRING, chunks, blk);
    }
  }

  // ---------------------------------------------------------------------------
  // The self-check of a stored tree
  // ---------------------------------------------------------------------------

  lemma EntriesExpected(r: Rec)
    requires r.DirRec?
    ensures Keys(RecEntries(r)) == Expected(r.children)
    ensures RecEntries(r)[2..] == ChildEntries(r.children)
  {
  }

  /** A directory passes if its size is right and its children pass. */
  lemma DirChecks(buf: bytes, r: Rec, meta: Meta, blk: nat, limit: nat)
    requires ValidBlk(blk) && r.DirRec? && Placed(r, blk) && r.block + RecBlocks(r, blk) <= limit <= MAX_BLOCKS
    requires r.parent < limit && BodyStored(buf, r, blk)
    requires InodeBytes(meta, blk) == Ok(BlockOf(buf, r.block, blk)) && MetaOk(meta, blk)
    requires Tiles(meta.runs, r.stream, r.nblk) && meta.size == r.nblk * blk
    ensures Checked(buf, r, blk) == AllChecked(buf, r.children, ChildEntries(r.children), blk)
  {
    hide InodeBytes, BlockOf, Stream, MetaOk, Tiles, RecEntries, PageCount, CheckEntries, AllChecked, RunsFrom, RunReader, RecBlocks, ChildEntries, Expected, U32, I64;
    InodeReadsBack(meta, blk);
    DirValues(r, blk, limit);
    StreamChecks(buf, meta.runs, RecEntries(r), r.stream, blk);
    EntriesExpected(r);
  }

  lemma FileChecks(buf: bytes, r: Rec, meta: Meta, blk: nat)
    requires ValidBlk(blk) && r.FileRec? && BodyStored(buf, r, blk)
    requires InodeBytes(meta, blk) == Ok(BlockOf(buf, r.block, blk)) && MetaOk(meta, blk)
    requires meta.runs == r.runs && Tiles(r.runs, r.block + 1, Need(r.data, blk)) && meta.size == |r.data|
    ensures Checked(buf, r, blk) == Ok(())
  {
    hide InodeBytes, BlockOf, MetaOk, Tiles, RunsFrom, RunReader, RunBytes, Need, FileBlock, Padded, U32, I64;
    InodeReadsBack(meta, blk);
    TilesBytes(buf, r.runs, r.block + 1, Need(r.data, blk), blk);
    FileStream(Vol(buf, blk, GROUPSIZE, 0), r.data, r.block + 1);
    assert Slice(Padded(r.data, blk), 0, |r.data|) == r.data;
  }

  /** What the second pass stored passes the check, over the whole subtree. */
  lemma {:induction false} StoredChecks(buf: bytes, r: Rec, m: Manifest, blk: nat, limit: nat)
    requires ValidBlk(blk) && Placed(r, blk) && r.block + RecBlocks(r, blk) <= limit <= MAX_BLOCKS && r.parent < limit
    requires Stored(buf, r, m, blk) && AttrsFitAll(r, m, blk)
    ensures Checked(buf, r, blk) == Ok(())
    decreases r, 1
  {
    hide InodeBytes, BlockOf, Stream, MetaOk, Tiles, RecEntries, PageCount, NodeAttrs, Need, FileBlock, SplitRuns, Checked, ChildEntries;
    var meta := NodeMeta(r, m, blk);
    NodeModes(r, m, blk);
    RecMetaOk(r, m, blk, limit);
    if r.DirRec? {
      DirChecks(buf, r, meta, blk, limit);
      StoredAllChecks(buf, r.children, r.block, r.stream + r.nblk, m, blk, limit);
    } else {
      FileChecks(buf, r, meta, blk);
    }
  }

  lemma {:induction false} StoredAllChecks(buf: bytes, rs: seq<Rec>, parent: nat, lo: nat, m: Manifest, blk: nat, limit: nat)
    requires ValidBlk(blk) && PlacedAll(rs, parent, lo, blk) && lo + RecBlocksAll(rs, blk) <= limit <= MAX_BLOCKS
    requires parent < limit && StoredAll(buf, rs, m, blk) && AttrsFitEach(rs, m, blk)
    ensures AllChecked(buf, rs, ChildEntries(rs), blk) == Ok(())
    decreases rs, 0
  {
    hide Placed, Stored, AttrsFitAll, Checked;
    if rs != [] {
      StoredChecks(buf, rs[0], m, blk, limit);
      StoredAllChecks(buf, rs[1..], parent, lo + RecBlocks(rs[0], blk), m, blk, limit);
      assert ChildEntries(rs)[1..] == ChildEntries(rs[1..]);
    }
  }

  /** The self-check passes on a staged image exactly when the root directory has two blocks: the
      rewritten root inode always says so. */
  lemma SelfCheckIff(v: Vol, r: Rec, m: Manifest, limit: nat)
    requires Staged(v, r, m, limit)
    ensures Checked(v.data, r, v.blk) == if r.nblk == 2 then Ok(()) else Err(CheckFailed)
  {
    hide InodeBytes, BlockOf, Stream, MetaOk, Tiles, RecEntries, PageCount, RootAttrs, AttrsFit, AttrsFitEach, StoredAll, AllChecked, ChildEntries, CheckEntries, RunsFrom, RunReader, RecBlocks, Placed, U32, I64;
    var meta := RootMeta(r, m, v.blk);
    assert r.stream < MAX_BLOCKS by { RootStream(v, r, m, limit); }
    RootMetaOk(r, m, v.blk);
    if r.nblk == 2 {
      RootChecks(v, r, m, limit);
    } else {
      InodeReadsBack(meta, v.blk);
      if r.nblk < 2 {
        MulLe(r.nblk + 1, 2, v.blk);
      } else {
        MulLe(3, r.nblk, v.blk);
      }
    }
  }

  lemma RootStream(v: Vol, r: Rec, m: Manifest, limit: nat)
    requires Staged(v, r, m, limit)
    ensures r.stream < MAX_BLOCKS
  {
    hide Stream, PageCount, StoredAll, PlacedAll, RootAttrs, InodeBytes, RecEntries;
    StreamLength(BTREE_STRING, RecEntries(r), v.blk);
  }

  lemma RootChecks(v: Vol, r: Rec, m: Manifest, limit: nat)
    requires Staged(v, r, m, limit) && r.nblk == 2
    ensures Checked(v.data, r, v.blk) == Ok(())
  {
    hide InodeBytes, BlockOf, Stream, MetaOk, Tiles, RecEntries, PageCount, RootAttrs, AttrsFit, StoredAll, AllChecked, ChildEntries, Checked, PlacedAll, AttrsFitEach;
    RootStream(v, r, m, limit);
    RootMetaOk(r, m, v.blk);
    DirChecks(v.data, r, RootMeta(r, m, v.blk), v.blk, limit);
    StoredAllChecks(v.data, r.children, r.block, r.stream + r.nblk, m, v.blk, limit);
  }
}
