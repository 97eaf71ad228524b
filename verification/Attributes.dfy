/**
 What the inodes of a built image say: for every path of the host tree, the inode that the path leads
 to names its own block and its parent's, its kind, and carries the attributes that the manifest
 has for the path.
 */
module Attributes {
  import opened Bytes
  import opened BPlusTree
  import opened TreeSearch
  import opened BlockRuns
  import opened Inodes
  import opened Volume
  import opened Images
  import opened Staging
  import opened StageWriter
  import opened ReadBack
  import opened EndToEnd
  import opened Build

  // ---------------------------------------------------------------------------
  // The reference: names and attributes of a path
  // ---------------------------------------------------------------------------

  /** Names joined with `/`. */
  function Joined(names: seq<bytes>): bytes
  {
    if names == [] then [] else if |names| == 1 then names[0] else names[0] + [47] + Joined(names[1..])
  }

  /** The names from the root to the node a path leads to, once `.` and `..` are taken out; None when
      there is no such node. `hs` and `names` are the directories on the way and their names. */
  ghost function Trail(hs: seq<Host>, names: seq<bytes>, comps: seq<bytes>, i: nat): Option<seq<bytes>>
    requires |hs| == |names| + 1 && AllDirs(hs) && i <= |comps|
    decreases |comps| - i
  {
    var n := |names|;
    if i == |comps| then Some(names)
    else if comps[i] == DOT then Trail(hs, names, comps, i + 1)
    else if comps[i] == DOT_DOT then (if n > 0 then Trail(hs[..n], names[..n - 1], comps, i + 1) else Trail(hs, names, comps, i + 1))
    else
      match FindChild(hs[n].children, comps[i])
      case None => None
      case Some(k) =>
        var node := hs[n].children[k].node;
        if node.HostDir? then Trail(hs + [node], names + [comps[i]], comps, i + 1)
        else if i + 1 == |comps| then Some(names + [comps[i]])
        else None
  }

  ghost function HostTrail(cs: seq<Child>, comps: seq<bytes>): Option<seq<bytes>>
  {
    Trail([HostDir(cs)], [], comps, 0)
  }

  /** A node's name, or for the root the volume id "M93BEFS", followed by what the manifest has for the
      path. */
  function AttrsOf(names: seq<bytes>, m: Manifest): seq<Attr>
  {
    var path := Joined(names);
    [if names == [] then Attr(0x554C4C47, VOLUME_ID, Encode(0x4D39_3342_4546_53, 8))
     else Attr(0x43535452, [0x13], names[|names| - 1])]
      + if path in m then m[path] else []
  }

  /** The inode in block `b` says that it is this node. */
  ghost predicate InodeTells(v: Vol, b: int, parent: int, isDir: bool, attrs: seq<Attr>)
  {
    && GetInode(v, b).Ok?
    && var node := GetInode(v, b).value;
    && U32(node, 0) == Ok(0x3BBE0AD9)
    && ReadRun(node, 4, GROUPSIZE) == Ok(Run(b, 1)) && ReadRun(node, 44, GROUPSIZE) == Ok(Run(parent, 1))
    && U32(node, 20) == Ok(if isDir then 0x4000 + 0x100_0000 + 493 else 0x8000 + 420)
    && U32(node, 60) == Ok(0) && U32(node, 64) == Ok(v.blk)
    && AttrsFrom(node, v.blk, 232, []) == Ok(Named(attrs))
  }

  // ---------------------------------------------------------------------------
  // The volume path of a record
  // ---------------------------------------------------------------------------

  /** No record is below a nameless one. */
  predicate Nameable(names: seq<bytes>)
  {
    names != [] ==> names[0] != []
  }

  lemma {:induction false} JoinedSnoc(names: seq<bytes>, name: bytes)
    requires names != []
    ensures Joined(names + [name]) == Joined(names) + [47] + name
    decreases |names|
  {
    var all := names + [name];
    assert all[1..] == names[1..] + [name];
    if |names| > 1 {
      JoinedSnoc(names[1..], name);
      var rest := Joined(names[1..]);
      assert names[0] + [47] + (rest + [47] + name) == names[0] + [47] + rest + [47] + name;
    } else {
      assert all[1..] == [name];
    }
  }

  lemma JoinedStep(names: seq<bytes>, name: bytes)
    requires Nameable(names)
    ensures JoinPath(Joined(names), name) == Joined(names + [name])
  {
    if names == [] {
      assert names + [name] == [name];
    } else {
      JoinedSnoc(names, name);
      JoinedNotEmpty(names);
    }
  }

  lemma JoinedNotEmpty(names: seq<bytes>)
    requires names != [] && Nameable(names)
    ensures Joined(names) != []
  {
    hide Joined;
    FirstInJoined(names);
  }

  lemma FirstInJoined(names: seq<bytes>)
    requires names != []
    ensures names[0] <= Joined(names)
  {
  }

  /** Records carry their names, and their volume paths are the names joined. */
  ghost predicate Pathed(r: Rec, names: seq<bytes>)
    requires names != []
    decreases r, 1
  {
    && r.name == names[|names| - 1] && (Nameable(names) ==> r.vol == Joined(names))
    && (r.DirRec? ==> PathedAll(r.children, names))
  }

  ghost predicate PathedAll(rs: seq<Rec>, names: seq<bytes>)
    decreases rs, 0
  {
    rs == [] || (Pathed(rs[0], names + [rs[0].name]) && PathedAll(rs[1..], names))
  }

  lemma {:induction false} PlacePathed(h: Host, name: bytes, vol: bytes, parent: nat, next: nat, blk: nat, names: seq<bytes>)
    requires ValidBlk(blk) && names != [] && name == names[|names| - 1] && (Nameable(names) ==> vol == Joined(names))
    ensures Pathed(Place(h, name, vol, parent, next, blk), names)
    decreases h, 1
  {
    hide SplitRuns, Need, PageCount, SizingEntries, PlaceAll, PathedAll, Joined;
    if h.HostDir? {
      PlaceAllPathed(h.children, vol, next, next + 1 + PageCount(SizingEntries(h.children), blk), blk, names);
    }
  }

  lemma {:induction false} PlaceAllPathed(cs: seq<Child>, vol: bytes, parent: nat, next: nat, blk: nat, names: seq<bytes>)
    requires ValidBlk(blk) && (Nameable(names) ==> vol == Joined(names))
    ensures PathedAll(PlaceAll(cs, vol, parent, next, blk), names)
    decreases cs, 0
  {
    hide Place, Pathed, Joined, JoinPath, BlocksFor;
    if cs != [] {
      var c := cs[0];
      var below := names + [c.name];
      if Nameable(below) {
        assert Nameable(names);
        JoinedStep(names, c.name);
      }
      PlacePathed(c.node, c.name, JoinPath(vol, c.name), parent, next, blk, below);
      PlaceAllPathed(cs[1..], vol, parent, next + BlocksFor(c.node, blk), blk, names);
      var rs := PlaceAll(cs, vol, parent, next, blk);
      assert rs[1..] == PlaceAll(cs[1..], vol, parent, next + BlocksFor(c.node, blk), blk);
      assert rs[0].name == c.name by { PlaceAllNames(cs, vol, parent, next, blk); }
    }
  }

  // ---------------------------------------------------------------------------
  // Stored inodes tell what they are
  // ---------------------------------------------------------------------------

  /** Every inode of the subtree tells its place, its kind and its attributes. */
  ghost predicate Labelled(v: Vol, r: Rec, names: seq<bytes>, m: Manifest)
    decreases r, 1
  {
    && (Nameable(names) ==> InodeTells(v, r.block, r.parent, r.DirRec?, AttrsOf(names, m)))
    && (r.DirRec? ==> LabelledAll(v, r.children, names, m))
  }

  ghost predicate LabelledAll(v: Vol, rs: seq<Rec>, names: seq<bytes>, m: Manifest)
    decreases rs, 0
  {
    rs == [] || (Labelled(v, rs[0], names + [rs[0].name], m) && LabelledAll(v, rs[1..], names, m))
  }

  lemma {:induction false} LabelledAt(v: Vol, rs: seq<Rec>, names: seq<bytes>, m: Manifest, k: nat)
    requires LabelledAll(v, rs, names, m) && k < |rs|
    ensures Labelled(v, rs[k], names + [rs[k].name], m)
    decreases k
  {
    hide Labelled;
    if k > 0 {
      LabelledAt(v, rs[1..], names, m, k - 1);
    }
  }

  /** An inode block read back. */
  lemma MetaTells(v: Vol, meta: Meta, isDir: bool)
    requires ValidBlk(v.blk) && MetaOk(meta, v.blk) && InodeBytes(meta, v.blk) == Ok(BlockOf(v.data, meta.block, v.blk))
    requires meta.block < MAX_BLOCKS && meta.parent < MAX_BLOCKS && meta.typeCode == 0
    requires meta.mode == if isDir then 0x4000 + 0x100_0000 + 493 else 0x8000 + 420
    ensures InodeTells(v, meta.block, meta.parent, isDir, meta.attrs)
  {
    hide InodeBytes, BlockOf, AttrsFrom, RunsFrom, RunReader, ReadRun, U32, I64, RunsOk, AttrsFit;
    InodeReadsBack(meta, v.blk);
    InodeIdentifies(meta, v.blk);
    AttrsRoundTrip(meta, v.blk);
  }

  lemma NodeMetaIs(r: Rec, m: Manifest, names: seq<bytes>, blk: nat)
    requires names != [] && Nameable(names) && r.name == names[|names| - 1] && r.vol == Joined(names)
    ensures var meta := NodeMeta(r, m, blk);
            && meta.attrs == NodeAttrs(r, m) == AttrsOf(names, m) && meta.block == r.block && meta.parent == r.parent
            && meta.typeCode == 0 && meta.mode == if r.DirRec? then 0x4000 + 0x100_0000 + 493 else 0x8000 + 420
  {
    hide Joined, SplitRuns;
    JoinedNotEmpty(names);
  }

  lemma {:induction false} StoredLabelled(v: Vol, r: Rec, names: seq<bytes>, m: Manifest, limit: nat)
    requires ReadsImage(v, limit) && Placed(r, v.blk) && r.block + RecBlocks(r, v.blk) <= limit && r.parent < limit
    requires Stored(v.data, r, m, v.blk) && AttrsFitAll(r, m, v.blk) && names != [] && Pathed(r, names)
    ensures Labelled(v, r, names, m)
    decreases r, 1
  {
    hide InodeBytes, BlockOf, Stream, MetaOk, PageCount, NodeMeta, NodeAttrs, Need, FileBlock, SplitRuns, AttrsOf, InodeTells, Joined, AttrsFit, LabelledAll, Tiles, RecEntries;
    if Nameable(names) {
      NodeMetaIs(r, m, names, v.blk);
      RecMetaOk(r, m, v.blk, limit);
      MetaTells(v, NodeMeta(r, m, v.blk), r.DirRec?);
    }
    if r.DirRec? {
      StoredAllLabelled(v, r.children, r.block, r.stream + r.nblk, names, m, limit);
    }
  }

  lemma {:induction false} StoredAllLabelled(v: Vol, rs: seq<Rec>, parent: nat, lo: nat, names: seq<bytes>, m: Manifest, limit: nat)
    requires ReadsImage(v, limit) && PlacedAll(rs, parent, lo, v.blk) && lo + RecBlocksAll(rs, v.blk) <= limit
    requires parent < limit && StoredAll(v.data, rs, m, v.blk) && AttrsFitEach(rs, m, v.blk) && PathedAll(rs, names)
    ensures LabelledAll(v, rs, names, m)
    decreases rs, 0
  {
    hide Labelled, Placed, Stored, AttrsFitAll, Pathed;
    if rs != [] {
      StoredLabelled(v, rs[0], names + [rs[0].name], m, limit);
      StoredAllLabelled(v, rs[1..], parent, lo + RecBlocks(rs[0], v.blk), names, m, limit);
    }
  }

  // ---------------------------------------------------------------------------
  // Along a path
  // ---------------------------------------------------------------------------

  /** The directory that a list of names resolves to without its last one; the root above itself. */
  function Above(v: Vol, names: seq<bytes>): int
  {
    if names == [] then v.root
    else
      match ResolveFrom(NamespaceOf(v), v.root, names[..|names| - 1], 0)
      case Ok(FoundDir(b)) => b
      case _ => -1
  }

  /** A path leads to an inode that says: I am the node of these names. */
  ghost predicate TellsAt(v: Vol, found: Result<Found>, names: seq<bytes>, m: Manifest)
  {
    && found.Ok? && !found.value.Missing?
    && (Nameable(names) ==> InodeTells(v, found.value.block, Above(v, names), found.value.FoundDir?, AttrsOf(names, m)))
  }

  /** The directories on the way, their records and their names. */
  ghost predicate OnTrail(v: Vol, rs: seq<Rec>, hs: seq<Host>, names: seq<bytes>, m: Manifest)
  {
    && OnPath(NamespaceOf(v), FilesOf(v), rs, hs) && |rs| == |names| + 1
    && forall i :: 0 <= i < |rs| ==> Reached(v, rs[i], names[..i], m)
  }

  ghost predicate Reached(v: Vol, r: Rec, names: seq<bytes>, m: Manifest)
  {
    && r.DirRec? && LabelledAll(v, r.children, names, m)
    && ResolveFrom(NamespaceOf(v), v.root, names, 0) == Ok(FoundDir(r.block))
    && TellsAt(v, Ok(FoundDir(r.block)), names, m)
  }

  /** Resolving one name more. */
  lemma {:induction false} ResolveSnoc(ns: Namespace, b: int, front: seq<bytes>, last: bytes, i: nat)
    requires i <= |front| && ResolveFrom(ns, b, front, i).Ok? && ResolveFrom(ns, b, front, i).value.FoundDir?
    ensures ResolveFrom(ns, b, front + [last], i) == ResolveFrom(ns, ResolveFrom(ns, b, front, i).value.block, [last], 0)
    decreases |front| - i
  {
    var all := front + [last];
    if i == |front| {
      assert all[i] == last;
    } else {
      assert all[i] == front[i];
      var nb := Scan(ns.entries(b).value, front[i]).value;
      if i + 1 == |front| {
        assert all[i + 1] == last;
      } else {
        ResolveSnoc(ns, nb, front, last, i + 1);
      }
    }
  }

  lemma {:induction false} FoundName(cs: seq<Child>, name: bytes)
    ensures FindChild(cs, name).Some? ==> cs[FindChild(cs, name).value].name == name
  {
    if cs != [] && cs[0].name != name {
      FoundName(cs[1..], name);
    }
  }

  /** A named child of the directory reached. */
  lemma ChildTells(v: Vol, rs: seq<Rec>, hs: seq<Host>, names: seq<bytes>, m: Manifest, c: bytes)
    requires OnTrail(v, rs, hs, names, m) && FindChild(hs[|names|].children, c).Some? && c != DOT && c != DOT_DOT
    ensures var r, k := rs[|names|], FindChild(hs[|names|].children, c).value;
            && |r.children| == |hs[|names|].children|
            && var child, node := r.children[k], hs[|names|].children[k].node;
            && Readable(NamespaceOf(v), FilesOf(v), child) && Mirrors(child, node) && child.parent == r.block
            && child.DirRec? == node.HostDir? && Labelled(v, child, names + [c], m)
            && var found := Ok(if child.DirRec? then FoundDir(child.block) else FoundFile(child.block));
            ResolveFrom(NamespaceOf(v), v.root, names + [c], 0) == found && TellsAt(v, found, names + [c], m)
  {
    hide Readable, ReadableAll, Mirrors, MirrorsAll, LabelledAll, InodeTells, AttrsOf, RecEntries, NamespaceOf, FilesOf, FindChild;
    var n := |names|;
    var r, cs, ns := rs[n], hs[n].children, NamespaceOf(v);
    var k := FindChild(cs, c).value;
    assert names[..n] == names && (names + [c])[..n] == names;
    assert Reached(v, r, names, m);
    ChildFacts(ns, FilesOf(v), r, cs, k);
    MirrorsAt(r.children, cs, k);
    FoundName(cs, c);
    LabelledAt(v, r.children, names, m, k);
    ScanDirectory(r, cs, c);
    ResolveSnoc(ns, v.root, names, c, 0);
    assert [c][0] == c;
  }

  lemma EnterTrail(v: Vol, rs: seq<Rec>, hs: seq<Host>, names: seq<bytes>, m: Manifest, c: bytes)
    requires OnTrail(v, rs, hs, names, m) && FindChild(hs[|names|].children, c).Some? && c != DOT && c != DOT_DOT
    requires hs[|names|].children[FindChild(hs[|names|].children, c).value].node.HostDir?
    ensures var k := FindChild(hs[|names|].children, c).value;
            && |rs[|names|].children| == |hs[|names|].children|
            && OnTrail(v, rs + [rs[|names|].children[k]], hs + [hs[|names|].children[k].node], names + [c], m)
  {
    hide Readable, Mirrors, MirrorsAll, ReadableAll, LabelledAll, TellsAt, NamespaceOf, FilesOf, FindChild, OnPath, ResolveFrom;
    PathTop(v, rs, hs, names, m);
    var n := |names|;
    var k := FindChild(hs[n].children, c).value;
    ChildTells(v, rs, hs, names, m, c);
    var child, node := rs[n].children[k], hs[n].children[k].node;
    Enter(NamespaceOf(v), FilesOf(v), rs, hs, child, node);
    forall i | 0 <= i < n + 2
      ensures Reached(v, (rs + [child])[i], (names + [c])[..i], m)
    {
      if i <= n {
        assert (names + [c])[..i] == names[..i];
      } else {
        assert (names + [c])[..i] == names + [c];
      }
    }
  }

  lemma PathTop(v: Vol, rs: seq<Rec>, hs: seq<Host>, names: seq<bytes>, m: Manifest)
    requires OnTrail(v, rs, hs, names, m)
    ensures |hs| == |rs| == |names| + 1 && AllDirs(hs) && names[..|names|] == names && Reached(v, rs[|names|], names, m)
  {
    hide Reached, DirReadable, ReadableAll, MirrorsAll;
    assert names[..|names|] == names;
  }

  lemma LeaveTrail(v: Vol, rs: seq<Rec>, hs: seq<Host>, names: seq<bytes>, m: Manifest)
    requires OnTrail(v, rs, hs, names, m) && names != []
    ensures OnTrail(v, rs[..|names|], hs[..|names|], names[..|names| - 1], m)
  {
    hide Reached, OnPath, NamespaceOf, FilesOf;
    var n := |names|;
    PathTop(v, rs, hs, names, m);
    Leave(NamespaceOf(v), FilesOf(v), rs, hs);
    assert forall i :: 0 <= i < n ==> names[..n - 1][..i] == names[..i];
  }

  /** Wherever a path leads, the inode there tells the names of the way. */
  lemma {:induction false} TrailTells(v: Vol, rs: seq<Rec>, hs: seq<Host>, names: seq<bytes>, m: Manifest, comps: seq<bytes>, i: nat)
    requires OnTrail(v, rs, hs, names, m) && i <= |comps|
    ensures |hs| == |names| + 1 && AllDirs(hs)
    ensures var trail := Trail(hs, names, comps, i);
            trail.Some? ==> TellsAt(v, ResolveFrom(NamespaceOf(v), rs[|names|].block, comps, i), trail.value, m)
    decreases |comps| - i
  {
    hide OnTrail, TellsAt, NamespaceOf, FilesOf, FindChild, ResolveFrom;
    PathTop(v, rs, hs, names, m);
    var n := |names|;
    StepAlong(v, rs, hs, names, m, comps, i);
    if i < |comps| {
      if comps[i] == DOT {
        TrailTells(v, rs, hs, names, m, comps, i + 1);
      } else if comps[i] == DOT_DOT {
        if n > 0 {
          LeaveTrail(v, rs, hs, names, m);
          TrailTells(v, rs[..n], hs[..n], names[..n - 1], m, comps, i + 1);
        } else {
          TrailTells(v, rs, hs, names, m, comps, i + 1);
        }
      } else if FindChild(hs[n].children, comps[i]).Some? {
        var k := FindChild(hs[n].children, comps[i]).value;
        ChildTells(v, rs, hs, names, m, comps[i]);
        if hs[n].children[k].node.HostDir? {
          EnterTrail(v, rs, hs, names, m, comps[i]);
          TrailTells(v, rs + [rs[n].children[k]], hs + [hs[n].children[k].node], names + [comps[i]], m, comps, i + 1);
        }
      }
    }
  }

  /** One component of the resolution. */
  lemma StepAlong(v: Vol, rs: seq<Rec>, hs: seq<Host>, names: seq<bytes>, m: Manifest, comps: seq<bytes>, i: nat)
    requires OnTrail(v, rs, hs, names, m) && i <= |comps|
    ensures var n, ns := |names|, NamespaceOf(v);
            var found := ResolveFrom(ns, rs[n].block, comps, i);
            && |hs| == n + 1 && AllDirs(hs)
            && (i == |comps| ==> found == Ok(FoundDir(rs[n].block)) && TellsAt(v, found, names, m))
            && (i < |comps| && comps[i] == DOT ==> found == ResolveFrom(ns, rs[n].block, comps, i + 1))
            && (i < |comps| && comps[i] == DOT_DOT ==>
                  found == ResolveFrom(ns, (if n > 0 then rs[n - 1] else rs[n]).block, comps, i + 1))
            && (i < |comps| && comps[i] != DOT && comps[i] != DOT_DOT && FindChild(hs[n].children, comps[i]).Some? ==>
                  var k := FindChild(hs[n].children, comps[i]).value;
                  && |rs[n].children| == |hs[n].children|
                  && (hs[n].children[k].node.HostDir? ==> found == ResolveFrom(ns, rs[n].children[k].block, comps, i + 1))
                  && (hs[n].children[k].node.HostFile? && i + 1 == |comps| ==> found == Ok(FoundFile(rs[n].children[k].block))))
  {
    hide Readable, ReadableAll, Mirrors, MirrorsAll, RecEntries, TellsAt, LabelledAll, FindChild;
    PathTop(v, rs, hs, names, m);
    var n := |names|;
    if i < |comps| {
      ScanDirectory(rs[n], hs[n].children, comps[i]);
      if comps[i] != DOT && comps[i] != DOT_DOT && FindChild(hs[n].children, comps[i]).Some? {
        ResolveChild(NamespaceOf(v), FilesOf(v), rs, hs, comps, i);
      }
    }
  }

  // ---------------------------------------------------------------------------
  // The theorem
  // ---------------------------------------------------------------------------

  lemma RootMetaIs(r: Rec, m: Manifest, blk: nat)
    requires r.DirRec?
    ensures var meta := RootMeta(r, m, blk);
            && meta.attrs == RootAttrs(m) == AttrsOf([], m) && meta.block == meta.parent == r.block
            && meta.typeCode == 0 && meta.mode == 0x4000 + 0x100_0000 + 493
  {
  }

  lemma RootReached(v: Vol, r: Rec, m: Manifest, limit: nat)
    requires Staged(v, r, m, limit) && PathedAll(r.children, [])
    ensures Reached(v, r, [], m)
  {
    hide InodeBytes, BlockOf, MetaOk, RootMeta, RootAttrs, AttrsFit, Placed, StoredAll, AttrsFitEach, PathedAll, LabelledAll, InodeTells, AttrsOf, RecBlocks, BodyStored;
    RootMetaIs(r, m, v.blk);
    RootExtentFacts(v, r, m, limit);
    RootMetaOk(r, m, v.blk);
    MetaTells(v, RootMeta(r, m, v.blk), true);
    StoredAllLabelled(v, r.children, r.block, r.stream + r.nblk, [], m, limit);
  }

  lemma RootExtentFacts(v: Vol, r: Rec, m: Manifest, limit: nat)
    requires Staged(v, r, m, limit)
    ensures PlacedAll(r.children, r.block, r.stream + r.nblk, v.blk) && StoredAll(v.data, r.children, m, v.blk)
    ensures r.block < limit && r.stream < MAX_BLOCKS && r.stream + r.nblk + RecBlocksAll(r.children, v.blk) <= limit
  {
    hide PlacedAll, StoredAll, AttrsFitEach, Stream, PageCount, RootAttrs, InodeBytes, RecBlocksAll, BlockOf, RecEntries;
    StreamLength(BTREE_STRING, RecEntries(r), v.blk);
  }

  lemma StagedPathed(cs: seq<Child>, name: bytes, numBlocks: nat, blk: nat)
    requires ValidBlk(blk)
    ensures PathedAll(RootRec(cs, name, numBlocks, blk).children, [])
  {
    hide PlaceAll, PathedAll, PageCount, SizingEntries;
    var next := Reserved(numBlocks);
    PlaceDir(cs, name, [], 0, next, blk);
    PlaceAllPathed(cs, [], next, next + 1 + PageCount(SizingEntries(cs), blk), blk, []);
  }

  /** On a built image whose root fits one leaf, every path of the host tree leads to an inode that names
      its own block and, as its parent, the directory that the names without the last resolve to;
      that says whether it is a directory; and that carries its name followed by the attributes
      which the manifest has for the names joined with `/`. The root carries the volume id in place
      of a name. The attributes end at the first nameless one. */
  lemma EveryPathTells(buf: bytes, cs: seq<Child>, name: bytes, m: Manifest, numBlocks: nat, blk: nat, comps: seq<bytes>)
    requires ValidBlk(blk) && StagedImage(buf, cs, name, m, numBlocks, blk) && Fits(SizingEntries(cs), blk)
    requires forall c :: c in comps ==> c != []
    ensures Open(buf) == Ok(Vol(buf, blk, GROUPSIZE, Reserved(numBlocks)))
    ensures var v, trail := Vol(buf, blk, GROUPSIZE, Reserved(numBlocks)), HostTrail(cs, comps);
            && (trail.Some? <==> HostAnswer(cs, comps).IsFile? || HostAnswer(cs, comps).IsDirectory?)
            && (trail.Some? ==>
                  var found := ResolveFrom(NamespaceOf(v), v.root, comps, 0);
                  && found.Ok? && !found.value.Missing?
                  && InodeTells(v, found.value.block, Above(v, trail.value), found.value.FoundDir?, AttrsOf(trail.value, m)))
  {
    hide Staged, Open, MirrorsAll, Fits, NamespaceOf, FilesOf, SizingEntries, RootRec, InodeTells, AttrsOf, PathedAll, Find, Trail, Above, Reached;
    var v, r := Vol(buf, blk, GROUPSIZE, Reserved(numBlocks)), RootRec(cs, name, numBlocks, blk);
    RootFits(v, r, m, numBlocks, cs);
    StagedPathed(cs, name, numBlocks, blk);
    StagedOnTrail(v, r, m, numBlocks, cs);
    TrailAnswers([HostDir(cs)], [], comps, 0);
    TrailTells(v, [r], [HostDir(cs)], [], m, comps, 0);
    if HostTrail(cs, comps).Some? {
      TrailNameable([HostDir(cs)], [], comps, 0);
    }
  }

  lemma StagedOnTrail(v: Vol, r: Rec, m: Manifest, limit: nat, cs: seq<Child>)
    requires Staged(v, r, m, limit) && r.nblk == 2 && MirrorsAll(r.children, cs) && PathedAll(r.children, [])
    ensures OnTrail(v, [r], [HostDir(cs)], [], m)
  {
    hide ReadableAll, MirrorsAll, Placed, RootStored, RecEntries, NamespaceOf, FilesOf, AttrsFit, RootAttrs, AttrsFitEach, PathedAll, Reached, RecBlocks;
    RootReadable(v, r, m, limit);
    RootReached(v, r, m, limit);
    var none: seq<bytes> := [];
    assert none[..0] == none;
  }

  /** There is a trail exactly where the reference finds a file or a directory. */
  lemma {:induction false} TrailAnswers(hs: seq<Host>, names: seq<bytes>, comps: seq<bytes>, i: nat)
    requires |hs| == |names| + 1 && AllDirs(hs) && i <= |comps|
    ensures Trail(hs, names, comps, i).Some? <==> Find(hs, comps, i).IsFile? || Find(hs, comps, i).IsDirectory?
    decreases |comps| - i
  {
    hide FindChild;
    var n := |names|;
    if i < |comps| {
      if comps[i] == DOT {
        TrailAnswers(hs, names, comps, i + 1);
      } else if comps[i] == DOT_DOT {
        if n > 0 {
          TrailAnswers(hs[..n], names[..n - 1], comps, i + 1);
        } else {
          TrailAnswers(hs, names, comps, i + 1);
        }
      } else if FindChild(hs[n].children, comps[i]).Some? {
        var node := hs[n].children[FindChild(hs[n].children, comps[i]).value].node;
        if node.HostDir? {
          TrailAnswers(hs + [node], names + [comps[i]], comps, i + 1);
        }
      }
    }
  }

  lemma {:induction false} TrailNameable(hs: seq<Host>, names: seq<bytes>, comps: seq<bytes>, i: nat)
    requires |hs| == |names| + 1 && AllDirs(hs) && i <= |comps|
    requires Nameable(names) && forall c :: c in comps ==> c != []
    ensures Trail(hs, names, comps, i).Some? ==> Nameable(Trail(hs, names, comps, i).value)
    decreases |comps| - i
  {
    hide FindChild;
    var n := |names|;
    if i < |comps| {
      assert comps[i] in comps;
      if comps[i] == DOT {
        TrailNameable(hs, names, comps, i + 1);
      } else if comps[i] == DOT_DOT {
        if n > 0 {
          TrailNameable(hs[..n], names[..n - 1], comps, i + 1);
        } else {
          TrailNameable(hs, names, comps, i + 1);
        }
      } else if FindChild(hs[n].children, comps[i]).Some? {
        var node := hs[n].children[FindChild(hs[n].children, comps[i]).value].node;
        if node.HostDir? {
          TrailNameable(hs + [node], names + [comps[i]], comps, i + 1);
        }
      }
    }
  }
}
