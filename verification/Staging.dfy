/**
 The first pass of `build_stage`: a host tree is turned into records with block addresses.
 */
module Staging {
  import opened Bytes
  import opened BPlusTree
  import opened TreeSearch
  import opened BlockRuns
  import opened Images

  /** A host staging tree; children are in the order `sorted(os.listdir())` gives. */
  datatype Host = HostFile(data: bytes) | HostDir(children: seq<Child>)
  datatype Child = Child(name: bytes, node: Host)

  /** The record of one node after the first pass. */
  datatype Rec =
    | FileRec(name: bytes, vol: bytes, block: nat, parent: nat, data: bytes, runs: seq<Run>)
    | DirRec(name: bytes, vol: bytes, block: nat, parent: nat, nblk: nat, stream: nat, children: seq<Rec>)

  /** Blocks a file's data takes. */
  function Need(data: bytes, blk: nat): nat
    requires blk > 0
  {
    (|data| + blk - 1) / blk
  }

  function JoinPath(vol: bytes, name: bytes): bytes
  {
    if vol == [] then name else vol + [47] + name
  }

  /** The entry list that sizes a directory stream: the real keys with zero values. */
  function SizingEntries(cs: seq<Child>): seq<Entry>
  {
    [Entry(DOT, 0), Entry(DOT_DOT, 0)] + seq(|cs|, i requires 0 <= i < |cs| => Entry(cs[i].name, 0))
  }

  /** The entry list that the second pass stores. */
  function StoredEntries(self: nat, parent: nat, rs: seq<Rec>): (r: seq<Entry>)
    ensures |r| == 2 + |rs|
  {
    [Entry(DOT, self), Entry(DOT_DOT, parent)] + seq(|rs|, i requires 0 <= i < |rs| => Entry(rs[i].name, rs[i].block))
  }

  // ---------------------------------------------------------------------------
  // Layout
  // ---------------------------------------------------------------------------

  /** Every directory stream of the tree can be built. */
  predicate Buildable(h: Host, blk: nat)
    requires ValidBlk(blk)
    decreases h, 1
  {
    h.HostFile? || (Stream(BTREE_STRING, SizingEntries(h.children), blk).Ok? && AllBuildable(h.children, blk))
  }

  predicate AllBuildable(cs: seq<Child>, blk: nat)
    requires ValidBlk(blk)
    decreases cs, 0
  {
    cs == [] || (Buildable(cs[0].node, blk) && AllBuildable(cs[1..], blk))
  }

  /** Blocks a subtree takes: its inode, its data or stream, and its children. */
  function BlocksFor(h: Host, blk: nat): (n: nat)
    requires ValidBlk(blk)
    ensures n >= 1
    decreases h, 1
  {
    match h
    case HostFile(data) => 1 + Need(data, blk)
    case HostDir(cs) => 1 + PageCount(SizingEntries(cs), blk) + BlocksAll(cs, blk)
  }

  function BlocksAll(cs: seq<Child>, blk: nat): nat
    requires ValidBlk(blk)
    decreases cs, 0
  {
    if cs == [] then 0 else BlocksFor(cs[0].node, blk) + BlocksAll(cs[1..], blk)
  }

  /** Bump allocation from `next` in the order of the first pass. */
  function Place(h: Host, name: bytes, vol: bytes, parent: nat, next: nat, blk: nat): Rec
    requires ValidBlk(blk)
    decreases h, 1
  {
    match h
    case HostFile(data) => FileRec(name, vol, next, parent, data, SplitRuns(next + 1, Need(data, blk)))
    case HostDir(cs) =>
      var nblk := PageCount(SizingEntries(cs), blk);
      DirRec(name, vol, next, parent, nblk, next + 1, PlaceAll(cs, vol, next, next + 1 + nblk, blk))
  }

  function PlaceAll(cs: seq<Child>, vol: bytes, parent: nat, next: nat, blk: nat): (rs: seq<Rec>)
    requires ValidBlk(blk)
    ensures |rs| == |cs|
    decreases cs, 0
  {
    if cs == [] then []
    else
      [Place(cs[0].node, cs[0].name, JoinPath(vol, cs[0].name), parent, next, blk)]
        + PlaceAll(cs[1..], vol, parent, next + BlocksFor(cs[0].node, blk), blk)
  }

  /** The definitions one level deep. */
  lemma PlaceFile(data: bytes, name: bytes, vol: bytes, parent: nat, next: nat, blk: nat)
    requires ValidBlk(blk)
    ensures Buildable(HostFile(data), blk) && BlocksFor(HostFile(data), blk) == 1 + Need(data, blk)
    ensures Place(HostFile(data), name, vol, parent, next, blk)
         == FileRec(name, vol, next, parent, data, SplitRuns(next + 1, Need(data, blk)))
  {
  }

  lemma PlaceDir(cs: seq<Child>, name: bytes, vol: bytes, parent: nat, next: nat, blk: nat)
    requires ValidBlk(blk)
    ensures var nblk := PageCount(SizingEntries(cs), blk);
            && (Buildable(HostDir(cs), blk) <==> Stream(BTREE_STRING, SizingEntries(cs), blk).Ok? && AllBuildable(cs, blk))
            && BlocksFor(HostDir(cs), blk) == 1 + nblk + BlocksAll(cs, blk)
            && Place(HostDir(cs), name, vol, parent, next, blk)
            == DirRec(name, vol, next, parent, nblk, next + 1, PlaceAll(cs, vol, next, next + 1 + nblk, blk))
  {
    hide SplitRuns, Need, PlaceAll, BlocksAll, AllBuildable, Stream, PageCount, SizingEntries;
  }

  lemma PlaceNone(vol: bytes, parent: nat, next: nat, blk: nat)
    requires ValidBlk(blk)
    ensures AllBuildable([], blk) && BlocksAll([], blk) == 0 && PlaceAll([], vol, parent, next, blk) == []
  {
  }

  lemma PlaceMore(cs: seq<Child>, vol: bytes, parent: nat, next: nat, blk: nat)
    requires ValidBlk(blk) && cs != []
    ensures AllBuildable(cs, blk) <==> Buildable(cs[0].node, blk) && AllBuildable(cs[1..], blk)
    ensures BlocksAll(cs, blk) == BlocksFor(cs[0].node, blk) + BlocksAll(cs[1..], blk)
    ensures PlaceAll(cs, vol, parent, next, blk)
         == [Place(cs[0].node, cs[0].name, JoinPath(vol, cs[0].name), parent, next, blk)]
            + PlaceAll(cs[1..], vol, parent, next + BlocksFor(cs[0].node, blk), blk)
  {
  }

  // ---------------------------------------------------------------------------
  // The allocating pass
  // ---------------------------------------------------------------------------

  /** `alloc_node`: it succeeds exactly when every directory stream can be built and the
      subtree fits the image. */
  method AllocNode(img: Image, h: Host, name: bytes, vol: bytes, parent: nat) returns (r: Result<Rec>)
    requires img.Valid() && ValidBlk(img.blk)
    modifies img`nextFree, img`used, img`ledger
    ensures r.Ok? <==> Buildable(h, img.blk) && old(img.nextFree) + BlocksFor(h, img.blk) <= img.numBlocks
    ensures r.Ok? ==> img.Valid() && r.value == Place(h, name, vol, parent, old(img.nextFree), img.blk)
    ensures r.Ok? ==> img.nextFree == old(img.nextFree) + BlocksFor(h, img.blk) && img.used == old(img.used) + BlocksFor(h, img.blk)
    decreases h, 1
  {
    hide Image.Valid, Stream, Chunks, SizingEntries, PageCount, SplitRuns, Place, PlaceAll, BlocksFor, BlocksAll, Buildable, AllBuildable;
    var a := img.Alloc(1);
    if a.Err? {
      return Err(a.error);
    }
    var block := a.value;
    match h
    case HostFile(data) =>
      PlaceFile(data, name, vol, parent, block, img.blk);
      var runs := AllocData(img, (|data| + img.blk - 1) / img.blk);
      if runs.Err? {
        return Err(runs.error);
      }
      return Ok(FileRec(name, vol, block, parent, data, runs.value));
    case HostDir(cs) =>
      PlaceDir(cs, name, vol, parent, block, img.blk);
      var s := BtreeStream(BTREE_STRING, SizingEntries(cs), img.blk);
      if s.Err? {
        return Err(s.error);
      }
      StreamLength(BTREE_STRING, SizingEntries(cs), img.blk);
      var nblk := |s.value| / img.blk;
      assert nblk == PageCount(SizingEntries(cs), img.blk) by {
        QuotientOf(PageCount(SizingEntries(cs), img.blk), img.blk);
      }
      var st := img.Alloc(nblk);
      if st.Err? {
        return Err(st.error);
      }
      var kids := AllocChildren(img, cs, vol, block);
      if kids.Err? {
        return Err(kids.error);
      }
      return Ok(DirRec(name, vol, block, parent, nblk, st.value, kids.value));
  }

  /** The data blocks of a file; an empty file gets none. */
  method AllocData(img: Image, need: nat) returns (r: Result<seq<Run>>)
    requires img.Valid() && img.nextFree <= img.numBlocks
    modifies img`nextFree, img`used, img`ledger
    ensures r.Ok? <==> old(img.nextFree) + need <= img.numBlocks
    ensures r.Ok? ==> img.Valid() && r.value == SplitRuns(old(img.nextFree), need)
    ensures r.Ok? ==> img.nextFree == old(img.nextFree) + need && img.used == old(img.used) + need
  {
    hide Image.Valid;
    if need == 0 {
      return Ok([]);
    }
    var d := img.Alloc(need);
    if d.Err? {
      return Err(d.error);
    }
    var runs := SplitAtGroups(d.value, need);
    return Ok(runs);
  }

  /** The children loop of `alloc_node`. */
  method AllocChildren(img: Image, cs: seq<Child>, vol: bytes, parent: nat) returns (r: Result<seq<Rec>>)
    requires img.Valid() && ValidBlk(img.blk) && img.nextFree <= img.numBlocks
    modifies img`nextFree, img`used, img`ledger
    ensures r.Ok? <==> AllBuildable(cs, img.blk) && old(img.nextFree) + BlocksAll(cs, img.blk) <= img.numBlocks
    ensures r.Ok? ==> img.Valid() && r.value == PlaceAll(cs, vol, parent, old(img.nextFree), img.blk)
    ensures r.Ok? ==> img.nextFree == old(img.nextFree) + BlocksAll(cs, img.blk) && img.used == old(img.used) + BlocksAll(cs, img.blk)
    decreases cs, 0
  {
    hide Image.Valid, Place, Buildable, BlocksFor, PlaceAll, BlocksAll, AllBuildable;
    if cs == [] {
      PlaceNone(vol, parent, img.nextFree, img.blk);
      return Ok([]);
    }
    PlaceMore(cs, vol, parent, img.nextFree, img.blk);
    var c := cs[0];
    var first := AllocNode(img, c.node, c.name, JoinPath(vol, c.name), parent);
    if first.Err? {
      return Err(first.error);
    }
    var rest := AllocChildren(img, cs[1..], vol, parent);
    if rest.Err? {
      return Err(rest.error);
    }
    return Ok([first.value] + rest.value);
  }
}
