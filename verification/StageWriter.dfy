/**
 The second pass of `build_stage`: records are written to the image. What the pass leaves behind
 is stated block by block.
 */
module StageWriter {
  import opened Bytes
  import opened BPlusTree
  import opened BlockRuns
  import opened Inodes
  import opened Volume
  import opened Images
  import opened Staging

  /** Extra attributes by volume path. */
  type Manifest = map<bytes, seq<Attr>>

  const FILE_NAME_TYPE: nat := 0x43535452
  const FILE_NAME_NAME: bytes := [0x13]
  const DIR_MODE: nat := S_IFDIR + S_STR_INDEX + 493
  const FILE_MODE: nat := S_IFREG + 420

  function ManifestAttrs(m: Manifest, vol: bytes): seq<Attr>
  {
    if vol in m then m[vol] else []
  }

  /** Every node but the volume root carries its name first. */
  function NodeAttrs(r: Rec, m: Manifest): seq<Attr>
  {
    (if r.vol == [] then [] else [Attr(FILE_NAME_TYPE, FILE_NAME_NAME, r.name)]) + ManifestAttrs(m, r.vol)
  }

  function NodeMeta(r: Rec, m: Manifest, blk: nat): Meta
  {
    match r
    case FileRec(_, _, block, parent, data, runs) =>
      Meta(block, FILE_MODE, parent, NodeAttrs(r, m), runs, |data|, 0)
    case DirRec(_, _, block, parent, nblk, stream, _) =>
      Meta(block, DIR_MODE, parent, NodeAttrs(r, m), SplitRuns(stream, nblk), nblk * blk, 0)
  }

  function RecEntries(r: Rec): seq<Entry>
    requires r.DirRec?
  {
    StoredEntries(r.block, r.parent, r.children)
  }

  /** Block `k` of a file, padded with zeros. */
  function FileBlock(data: bytes, k: nat, blk: nat): (r: bytes)
    ensures |r| == blk
  {
    NextBlock(k, blk);
    var chunk := Slice(data, k * blk, (k + 1) * blk);
    chunk + Zeros(blk - |chunk|)
  }

  // ---------------------------------------------------------------------------
  // Where records lie
  // ---------------------------------------------------------------------------

  /** Blocks a record and its descendants occupy. */
  function RecBlocks(r: Rec, blk: nat): (n: nat)
    requires blk > 0
    ensures n >= 1
    decreases r, 1
  {
    match r
    case FileRec(_, _, _, _, data, _) => 1 + Need(data, blk)
    case DirRec(_, _, _, _, nblk, _, children) => 1 + nblk + RecBlocksAll(children, blk)
  }

  function RecBlocksAll(rs: seq<Rec>, blk: nat): nat
    requires blk > 0
    decreases rs, 0
  {
    if rs == [] then 0 else RecBlocks(rs[0], blk) + RecBlocksAll(rs[1..], blk)
  }

  /** A record occupies consecutive blocks: inode, then data or stream, then its children one
      after the other; a directory's stream has the size its entries need. */
  ghost predicate Placed(r: Rec, blk: nat)
    requires ValidBlk(blk)
    decreases r, 1
  {
    match r
    case FileRec(_, _, block, _, data, runs) => runs == SplitRuns(block + 1, Need(data, blk))
    case DirRec(_, _, block, _, nblk, stream, children) =>
      && stream == block + 1
      && Stream(BTREE_STRING, RecEntries(r), blk).Ok?
      && nblk == PageCount(RecEntries(r), blk)
      && PlacedAll(children, block, stream + nblk, blk)
  }

  ghost predicate PlacedAll(rs: seq<Rec>, parent: nat, lo: nat, blk: nat)
    requires ValidBlk(blk)
    decreases rs, 0
  {
    rs == [] ||
    (rs[0].block == lo && rs[0].parent == parent && Placed(rs[0], blk)
     && PlacedAll(rs[1..], parent, lo + RecBlocks(rs[0], blk), blk))
  }

  lemma {:induction false} PlaceIsPlaced(h: Host, name: bytes, vol: bytes, parent: nat, next: nat, blk: nat)
    requires ValidBlk(blk) && Buildable(h, blk)
    ensures var r := Place(h, name, vol, parent, next, blk);
            Placed(r, blk) && r.block == next && r.parent == parent && RecBlocks(r, blk) == BlocksFor(h, blk)
    decreases h, 1
  {
    hide Stream, PageCount, StoredEntries, SizingEntries, Need, SplitRuns, PlaceAll, PlacedAll, RecBlocksAll, BlocksAll, AllBuildable;
    match h
    case HostFile(_) =>
    case HostDir(cs) =>
      var nblk := PageCount(SizingEntries(cs), blk);
      var rs := PlaceAll(cs, vol, next, next + 1 + nblk, blk);
      PlaceAllIsPlaced(cs, vol, next, next + 1 + nblk, blk);
      PlaceAllNames(cs, vol, next, next + 1 + nblk, blk);
      EntriesSameKeys(cs, next, parent, rs);
      StreamSizeFromKeys(BTREE_STRING, SizingEntries(cs), StoredEntries(next, parent, rs), blk);
  }

  lemma {:induction false} PlaceAllIsPlaced(cs: seq<Child>, vol: bytes, parent: nat, next: nat, blk: nat)
    requires ValidBlk(blk) && AllBuildable(cs, blk)
    ensures var rs := PlaceAll(cs, vol, parent, next, blk);
            PlacedAll(rs, parent, next, blk) && RecBlocksAll(rs, blk) == BlocksAll(cs, blk)
    decreases cs, 0
  {
    hide Place, Placed, Buildable, RecBlocks, BlocksFor;
    if cs != [] {
      PlaceIsPlaced(cs[0].node, cs[0].name, JoinPath(vol, cs[0].name), parent, next, blk);
      PlaceAllIsPlaced(cs[1..], vol, parent, next + BlocksFor(cs[0].node, blk), blk);
      var rs := PlaceAll(cs, vol, parent, next, blk);
      assert rs[1..] == PlaceAll(cs[1..], vol, parent, next + BlocksFor(cs[0].node, blk), blk);
    }
  }

  lemma {:induction false} PlaceAllNames(cs: seq<Child>, vol: bytes, parent: nat, next: nat, blk: nat)
    requires ValidBlk(blk)
    ensures forall i :: 0 <= i < |cs| ==> PlaceAll(cs, vol, parent, next, blk)[i].name == cs[i].name
    decreases |cs|
  {
    if cs != [] {
      PlaceAllNames(cs[1..], vol, parent, next + BlocksFor(cs[0].node, blk), blk);
    }
  }

  lemma EntriesSameKeys(cs: seq<Child>, self: nat, parent: nat, rs: seq<Rec>)
    requires |rs| == |cs| && forall i :: 0 <= i < |cs| ==> rs[i].name == cs[i].name
    ensures Keys(SizingEntries(cs)) == Keys(StoredEntries(self, parent, rs))
  {
    KeysPointwise(SizingEntries(cs), StoredEntries(self, parent, rs));
  }

  /** The volume root's record once its parent is itself. */
  function SelfParent(r: Rec): (r': Rec)
    requires r.DirRec?
  {
    DirRec(r.name, r.vol, r.block, r.block, r.nblk, r.stream, r.children)
  }

  /** Changing who the parent is moves nothing: the stream keeps its size. */
  lemma SelfParentPlaced(r: Rec, blk: nat)
    requires ValidBlk(blk) && r.DirRec? && Placed(r, blk)
    ensures Placed(SelfParent(r), blk)
    ensures RecBlocks(SelfParent(r), blk) == RecBlocks(r, blk)
  {
    hide Stream, PageCount, PlacedAll, RecBlocksAll, Keys;
    var r' := SelfParent(r);
    KeysPointwise(RecEntries(r), RecEntries(r'));
    StreamSizeFromKeys(BTREE_STRING, RecEntries(r), RecEntries(r'), blk);
  }

  // ---------------------------------------------------------------------------
  // What the image holds
  // ---------------------------------------------------------------------------

  /** The data or stream blocks of one node. */
  ghost predicate BodyStored(buf: bytes, r: Rec, blk: nat)
    requires ValidBlk(blk)
  {
    match r
    case FileRec(_, _, block, _, data, _) =>
      forall k: nat :: k < Need(data, blk) ==> BlockOf(buf, block + 1 + k, blk) == FileBlock(data, k, blk)
    case DirRec(_, _, _, _, nblk, stream, _) =>
      && Stream(BTREE_STRING, RecEntries(r), blk).Ok?
      && var s := Stream(BTREE_STRING, RecEntries(r), blk).value;
         forall k: nat :: k < nblk ==> BlockOf(buf, stream + k, blk) == BlockOf(s, k, blk)
  }

  ghost predicate InodeStored(buf: bytes, r: Rec, m: Manifest, blk: nat)
    requires ValidBlk(blk)
  {
    InodeBytes(NodeMeta(r, m, blk), blk) == Ok(BlockOf(buf, r.block, blk))
  }

  /** The whole subtree is in the image. */
  ghost predicate Stored(buf: bytes, r: Rec, m: Manifest, blk: nat)
    requires ValidBlk(blk)
    decreases r, 1
  {
    InodeStored(buf, r, m, blk) && BodyStored(buf, r, blk) && (r.DirRec? ==> StoredAll(buf, r.children, m, blk))
  }

  ghost predicate StoredAll(buf: bytes, rs: seq<Rec>, m: Manifest, blk: nat)
    requires ValidBlk(blk)
    decreases rs, 0
  {
    rs == [] || (Stored(buf, rs[0], m, blk) && StoredAll(buf, rs[1..], m, blk))
  }

  ghost predicate SameBlocks(buf: bytes, buf': bytes, lo: nat, hi: nat, blk: nat)
  {
    forall n: nat :: lo <= n < hi ==> BlockOf(buf', n, blk) == BlockOf(buf, n, blk)
  }

  /** A stored subtree stays stored while its own blocks are left alone. */
  lemma {:induction false} StoredFrame(buf: bytes, buf': bytes, r: Rec, m: Manifest, blk: nat)
    requires ValidBlk(blk) && Placed(r, blk) && Stored(buf, r, m, blk)
    requires SameBlocks(buf, buf', r.block, r.block + RecBlocks(r, blk), blk)
    ensures Stored(buf', r, m, blk)
    decreases r, 1
  {
    hide Stream, PageCount, StoredEntries, InodeBytes, FileBlock, NodeMeta, BlockOf, Need, SplitRuns;
    if r.DirRec? {
      StoredAllFrame(buf, buf', r.children, r.block, r.stream + r.nblk, m, blk);
    }
  }

  lemma {:induction false} StoredAllFrame(buf: bytes, buf': bytes, rs: seq<Rec>, parent: nat, lo: nat, m: Manifest, blk: nat)
    requires ValidBlk(blk) && PlacedAll(rs, parent, lo, blk) && StoredAll(buf, rs, m, blk)
    requires SameBlocks(buf, buf', lo, lo + RecBlocksAll(rs, blk), blk)
    ensures StoredAll(buf', rs, m, blk)
    decreases rs, 0
  {
    hide Stored, Placed, RecBlocks;
    if rs != [] {
      StoredFrame(buf, buf', rs[0], m, blk);
      StoredAllFrame(buf, buf', rs[1..], parent, lo + RecBlocks(rs[0], blk), m, blk);
    }
  }

  // ---------------------------------------------------------------------------
  // Hypotheses on the tree
  // ---------------------------------------------------------------------------

  /** Every inode's attributes fit behind byte 232; the writer does not check this. */
  ghost predicate AttrsFitAll(r: Rec, m: Manifest, blk: nat)
    decreases r, 1
  {
    AttrsFit(NodeAttrs(r, m), blk) && (r.DirRec? ==> AttrsFitEach(r.children, m, blk))
  }

  ghost predicate AttrsFitEach(rs: seq<Rec>, m: Manifest, blk: nat)
    decreases rs, 0
  {
    rs == [] || (AttrsFitAll(rs[0], m, blk) && AttrsFitEach(rs[1..], m, blk))
  }

  /** Every inode has at most 12 runs. */
  ghost predicate RunsFit(r: Rec, blk: nat)
    decreases r, 1
  {
    match r
    case FileRec(_, _, _, _, _, runs) => |runs| <= DIRECT
    case DirRec(_, _, _, _, nblk, stream, children) => |SplitRuns(stream, nblk)| <= DIRECT && RunsFitEach(children, blk)
  }

  ghost predicate RunsFitEach(rs: seq<Rec>, blk: nat)
    decreases rs, 0
  {
    rs == [] || (RunsFit(rs[0], blk) && RunsFitEach(rs[1..], blk))
  }

  // ---------------------------------------------------------------------------
  // The writing pass
  // ---------------------------------------------------------------------------

  /** Everything outside `[lo, hi)` is as before. */
  ghost predicate OnlyChanged(buf: bytes, buf': bytes, lo: nat, hi: nat, numBlocks: nat, blk: nat)
  {
    forall n: nat :: n < numBlocks && !(lo <= n < hi) ==> BlockOf(buf', n, blk) == BlockOf(buf, n, blk)
  }

  /** The stream loop of `write_node`. The size check against the first pass stands where the
      source has it; it never fails. */
  method WriteStream(img: Image, r: Rec) returns (res: Result<()>)
    requires img.Shape() && r.DirRec? && Placed(r, img.blk) && r.stream + r.nblk <= img.numBlocks
    modifies img`buf
    ensures res.Ok?
    ensures img.Shape() && |img.buf| == |old(img.buf)| && BodyStored(img.buf, r, img.blk)
    ensures OnlyChanged(old(img.buf), img.buf, r.stream, r.stream + r.nblk, img.numBlocks, img.blk)
  {
    hide Stream, RecEntries, BlockOf, PageCount;
    var blk := img.blk;
    var built := BtreeStream(BTREE_STRING, RecEntries(r), blk);
    StreamLength(BTREE_STRING, RecEntries(r), blk);
    var s := built.value;
    assert r.nblk * blk == blk * r.nblk;
    if |s| != r.nblk * blk {
      return Err(StreamResized);
    }
    PutStream(img, s, r.stream, r.nblk);
    return Ok(());
  }

  method PutStream(img: Image, s: bytes, start: nat, n: nat)
    requires img.Shape() && |s| == n * img.blk && start + n <= img.numBlocks
    modifies img`buf
    ensures img.Shape() && |img.buf| == |old(img.buf)|
    ensures forall k: nat :: k < n ==> BlockOf(img.buf, start + k, img.blk) == BlockOf(s, k, img.blk)
    ensures OnlyChanged(old(img.buf), img.buf, start, start + n, img.numBlocks, img.blk)
  {
    var k := 0;
    while k < n
      invariant 0 <= k <= n
      invariant img.Shape() && |img.buf| == |old(img.buf)|
      invariant forall j: nat :: j < k ==> BlockOf(img.buf, start + j, img.blk) == BlockOf(s, j, img.blk)
      invariant OnlyChanged(old(img.buf), img.buf, start, start + k, img.numBlocks, img.blk)
    {
      BlockBounds(k, n, img.blk);
      img.PutBlock(start + k, BlockOf(s, k, img.blk));
      k := k + 1;
    }
  }

  /** One run of a file: `done` blocks were written before it. */
  method PutRun(img: Image, data: bytes, base: nat, done: nat, len: nat)
    requires img.Shape() && base + done + len <= img.numBlocks
    requires forall j: nat :: j < done ==> BlockOf(img.buf, base + j, img.blk) == FileBlock(data, j, img.blk)
    modifies img`buf
    ensures img.Shape() && |img.buf| == |old(img.buf)|
    ensures forall j: nat :: j < done + len ==> BlockOf(img.buf, base + j, img.blk) == FileBlock(data, j, img.blk)
    ensures OnlyChanged(old(img.buf), img.buf, base + done, base + done + len, img.numBlocks, img.blk)
  {
    hide FileBlock, BlockOf;
    var k: nat := 0;
    while k < len
      invariant 0 <= k <= len
      invariant img.Shape() && |img.buf| == |old(img.buf)|
      invariant forall j: nat :: j < done + k ==> BlockOf(img.buf, base + j, img.blk) == FileBlock(data, j, img.blk)
      invariant OnlyChanged(old(img.buf), img.buf, base + done, base + done + k, img.numBlocks, img.blk)
    {
      img.PutBlock(base + done + k, FileBlock(data, done + k, img.blk));
      k := k + 1;
    }
  }

  /** The data loop of `write_node`: run after run, block after block. */
  method WriteData(img: Image, r: Rec)
    requires img.Shape() && ValidBlk(img.blk) && r.FileRec? && Placed(r, img.blk) && r.block + RecBlocks(r, img.blk) <= img.numBlocks
    modifies img`buf
    ensures img.Shape() && |img.buf| == |old(img.buf)| && BodyStored(img.buf, r, img.blk)
    ensures OnlyChanged(old(img.buf), img.buf, r.block + 1, r.block + RecBlocks(r, img.blk), img.numBlocks, img.blk)
  {
    hide FileBlock, BlockOf, SplitRuns, Need, Image.Shape, Tiles;
    var base := r.block + 1;
    ghost var need := Need(r.data, img.blk);
    assert Tiles(r.runs, base, need) by { SplitRunsCorrect(base, need); }
    var done: nat, i: nat := 0, 0;
    assert r.runs[0..] == r.runs;
    while i < |r.runs|
      invariant 0 <= i <= |r.runs| && done <= need
      invariant Tiles(r.runs[i..], base + done, need - done)
      invariant img.Shape() && |img.buf| == |old(img.buf)|
      invariant forall j: nat :: j < done ==> BlockOf(img.buf, base + j, img.blk) == FileBlock(r.data, j, img.blk)
      invariant OnlyChanged(old(img.buf), img.buf, base, base + done, img.numBlocks, img.blk)
    {
      var run := r.runs[i];
      TilesFirst(r.runs[i..], base + done, need - done);
      assert r.runs[i..][0] == run && r.runs[i..][1..] == r.runs[i + 1..];
      PutRun(img, r.data, base, done, run.len);
      done := done + run.len;
      i := i + 1;
    }
    assert r.runs[i..] == [];
    TilesNothing(base + done, need - done);
  }

  lemma MetaRuns(r: Rec, m: Manifest, blk: nat)
    ensures NodeMeta(r, m, blk).attrs == NodeAttrs(r, m)
    ensures NodeMeta(r, m, blk).runs == if r.FileRec? then r.runs else SplitRuns(r.stream, r.nblk)
  {
  }

  /** `write_node`: the only way to fail is an inode with more than 12 runs. Nothing checks that the
      attributes fit behind byte 232; the image keeps its length exactly when they do, and then
      the subtree is stored and nothing else is touched. */
  method WriteNode(img: Image, r: Rec, m: Manifest) returns (res: Result<()>)
    requires img.Shape() && Placed(r, img.blk) && r.block + RecBlocks(r, img.blk) <= img.numBlocks
    modifies img`buf
    ensures res.Ok? <==> RunsFit(r, img.blk)
    ensures res.Err? ==> res.error == IndexError
    ensures res.Ok? ==> img.Shape() && |img.buf| >= |old(img.buf)|
    ensures res.Ok? ==> (|img.buf| == |old(img.buf)| <==> AttrsFitAll(r, m, img.blk))
    ensures res.Ok? && AttrsFitAll(r, m, img.blk) ==> Stored(img.buf, r, m, img.blk)
    ensures res.Ok? && AttrsFitAll(r, m, img.blk) ==> OnlyChanged(old(img.buf), img.buf, r.block, r.block + RecBlocks(r, img.blk), img.numBlocks, img.blk)
    decreases r, 1
  {
    hide InodeBytes, NodeMeta, BlockOf, Stream, SplitRuns, FileBlock, Need, SmallData, PageCount;
    var blk := img.blk;
    if r.DirRec? {
      var w := WriteStream(img, r);
    } else {
      WriteData(img, r);
    }
    MetaRuns(r, m, blk);
    var node := InodeBytes(NodeMeta(r, m, blk), blk);
    if node.Err? {
      return Err(IndexError);
    }
    ghost var body := img.buf;
    img.PutBlock(r.block, node.value);
    if |node.value| == blk {
      BodyFrame(body, img.buf, r, blk);
    }
    if r.DirRec? {
      ghost var parentBuf := img.buf;
      var kids := WriteChildren(img, r.children, r.block, r.stream + r.nblk, m);
      if kids.Err? {
        return Err(kids.error);
      }
      if AttrsFitAll(r, m, blk) {
        BodyFrame(parentBuf, img.buf, r, blk);
      }
    }
    return Ok(());
  }

  /** The inode and the body of a node survive changes elsewhere. */
  lemma BodyFrame(buf: bytes, buf': bytes, r: Rec, blk: nat)
    requires ValidBlk(blk) && Placed(r, blk) && BodyStored(buf, r, blk)
    requires r.FileRec? ==> SameBlocks(buf, buf', r.block + 1, r.block + RecBlocks(r, blk), blk)
    requires r.DirRec? ==> SameBlocks(buf, buf', r.stream, r.stream + r.nblk, blk)
    ensures BodyStored(buf', r, blk)
  {
    hide BlockOf, Stream, FileBlock, Need, PageCount, SplitRuns;
  }

  /** The children loop of `write_node`. */
  method WriteChildren(img: Image, rs: seq<Rec>, parent: nat, lo: nat, m: Manifest) returns (res: Result<()>)
    requires img.Shape() && PlacedAll(rs, parent, lo, img.blk) && lo + RecBlocksAll(rs, img.blk) <= img.numBlocks
    modifies img`buf
    ensures res.Ok? <==> RunsFitEach(rs, img.blk)
    ensures res.Err? ==> res.error == IndexError
    ensures res.Ok? ==> img.Shape() && |img.buf| >= |old(img.buf)|
    ensures res.Ok? ==> (|img.buf| == |old(img.buf)| <==> AttrsFitEach(rs, m, img.blk))
    ensures res.Ok? && AttrsFitEach(rs, m, img.blk) ==> StoredAll(img.buf, rs, m, img.blk)
    ensures res.Ok? && AttrsFitEach(rs, m, img.blk) ==> OnlyChanged(old(img.buf), img.buf, lo, lo + RecBlocksAll(rs, img.blk), img.numBlocks, img.blk)
    decreases rs, 0
  {
    hide Stored, Placed, RecBlocks, AttrsFitAll, RunsFit, BlockOf;
    if rs == [] {
      return Ok(());
    }
    var first := WriteNode(img, rs[0], m);
    if first.Err? {
      return Err(first.error);
    }
    ghost var mid := img.buf;
    var rest := WriteChildren(img, rs[1..], parent, lo + RecBlocks(rs[0], img.blk), m);
    if rest.Err? {
      return Err(rest.error);
    }
    if AttrsFitEach(rs, m, img.blk) {
      StoredFrame(mid, img.buf, rs[0], m, img.blk);
    }
    return Ok(());
  }
}
