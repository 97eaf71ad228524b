/**
 What the injection of `tools/befs_mkdirty.py` means for the paths that `tools/befs_get.py` resolves:
 paths of the host tree read as before; a path behind a file that parses as a tree may see the log.
 */
module JournalPaths {
  import opened Bytes
  import opened BPlusTree
  import opened TreeReaders
  import opened TreeSearch
  import opened BlockRuns
  import opened Inodes
  import opened Volume
  import opened Images
  import opened Staging
  import opened StageWriter
  import opened EndToEnd
  import opened DumpVolume
  import opened Build
  import opened Journal

  /** A built image without wrap, about to be injected. */
  ghost predicate Injectable(buf: bytes, cs: seq<Child>, name: bytes, m: Manifest, numBlocks: nat, blk: nat, b: Befs)
  {
    && ValidBlk(blk) && StagedImage(buf, cs, name, m, numBlocks, blk) && |buf| == numBlocks * blk
    && LogOf(b, numBlocks, blk) && CanInject(buf, b) && NoWrap(b)
  }

  ghost function VolOf(buf: bytes, numBlocks: nat, blk: nat): Vol
  {
    Vol(buf, blk, GROUPSIZE, Reserved(numBlocks))
  }

  /** The image after the tool, unchanged when it refuses. */
  ghost function After(buf: bytes, b: Befs): bytes
  {
    if CanInject(buf, b) then Injected(buf, b) else buf
  }

  ghost function PathIn(v: Vol, comps: seq<bytes>): Result<Found>
  {
    ResolveFrom(NamespaceOf(v), v.root, comps, 0)
  }

  /** The log block of the run array; the content follows it. */
  function LogAt(b: Befs): int
  {
    if b.log.len == 0 then b.log.start else b.log.start + b.logEnd % b.log.len
  }

  // ---------------------------------------------------------------------------
  // Paths of the host tree
  // ---------------------------------------------------------------------------

  lemma TreeOnPath(buf: bytes, cs: seq<Child>, name: bytes, m: Manifest, numBlocks: nat, blk: nat)
    requires ValidBlk(blk) && StagedImage(buf, cs, name, m, numBlocks, blk) && Fits(SizingEntries(cs), blk)
    ensures var v := VolOf(buf, numBlocks, blk);
            OnPath(NamespaceOf(v), FilesOf(v), [RootRec(cs, name, numBlocks, blk)], [HostDir(cs)])
  {
    hide Staged, Open, ReadableAll, MirrorsAll, RecEntries, NamespaceOf, FilesOf, Fits, SizingEntries;
    var v, r := VolOf(buf, numBlocks, blk), RootRec(cs, name, numBlocks, blk);
    RootFits(v, r, m, numBlocks, cs);
    RootReadable(v, r, m, numBlocks);
  }

  /** Before and after: every path that does not go on behind a file parsing as a tree gets the same
      answer, the same bytes behind a file and the same listing behind a directory. Behind such a
      file, each image answers by its own blocks. */
  lemma InjectionKeepsPaths(buf: bytes, cs: seq<Child>, name: bytes, m: Manifest, numBlocks: nat, blk: nat, b: Befs, comps: seq<bytes>)
    requires Injectable(buf, cs, name, m, numBlocks, blk, b)
    ensures var want := HostAnswer(cs, comps);
            var v, v' := VolOf(buf, numBlocks, blk), VolOf(After(buf, b), numBlocks, blk);
            var found, found' := PathIn(v, comps), PathIn(v', comps);
            && (!want.ThroughFile? || AsTree(want.data, blk).Err? ==>
                  found == found' && SameContents(NamespaceOf(v), NamespaceOf(v'), FilesOf(v), FilesOf(v'), found))
            && (want.ThroughFile? ==>
                  && want.rest != []
                  && found == Through(NamespaceOf(v), AsTree(want.data, blk), want.rest)
                  && found' == Through(NamespaceOf(v'), AsTree(want.data, blk), want.rest))
  {
    hide StagedImage, CanInject, Injected, NamespaceOf, RootRec, Find, Fits, SizingEntries, AsTree, OnPath, Reserved;
    var out, r, hs := After(buf, b), RootRec(cs, name, numBlocks, blk), [HostDir(cs)];
    var v, v' := VolOf(buf, numBlocks, blk), VolOf(out, numBlocks, blk);
    InjectableFits(buf, cs, name, m, numBlocks, blk, b);
    InjectionHarmless(buf, cs, name, m, numBlocks, blk, b);
    TreeOnPath(buf, cs, name, m, numBlocks, blk);
    TreeOnPath(out, cs, name, m, numBlocks, blk);
    assert [r][0] == r;
    ResolveSame(NamespaceOf(v), NamespaceOf(v'), FilesOf(v), FilesOf(v'), [r], hs, comps, 0);
    ResolveAgrees(NamespaceOf(v), FilesOf(v), [r], hs, comps, 0);
    ResolveAgrees(NamespaceOf(v'), FilesOf(v'), [r], hs, comps, 0);
  }

  lemma InjectableFits(buf: bytes, cs: seq<Child>, name: bytes, m: Manifest, numBlocks: nat, blk: nat, b: Befs)
    requires Injectable(buf, cs, name, m, numBlocks, blk, b)
    ensures Fits(SizingEntries(cs), blk)
  {
    hide StagedImage, FindTarget, Packs, WithLog, Fits, SizingEntries, RootRec, MirrorsAll;
    TargetIs(buf, cs, name, m, numBlocks, blk, b);
  }

  // ---------------------------------------------------------------------------
  // Which blocks a reader sees changed
  // ---------------------------------------------------------------------------

  /** The block that a block number reads: negative ones count from the end, except that -1 reads
      nothing. */
  function Alias(nb: int, n: nat): int
  {
    if nb < -1 then nb + n else nb
  }

  lemma BlockAlias(buf: bytes, n: nat, nb: int, blk: nat)
    requires |buf| == n * blk && blk > 0
    ensures BlockOf(buf, nb, blk) == if 0 <= Alias(nb, n) < n then BlockOf(buf, Alias(nb, n), blk) else []
  {
    if nb < -1 {
      NegativeBlock(n, nb, blk);
      var k := nb + n;
      if k >= 0 {
        BlockBounds(k, n, blk);
      }
    } else if nb == -1 {
      assert (nb + 1) * blk == 0;
    } else if nb >= n {
      MulLe(n, nb, blk);
      MulLe(n, nb + 1, blk);
    }
  }

  lemma NegativeBlock(n: nat, nb: int, blk: nat)
    requires nb < -1 && blk > 0
    ensures nb * blk < (nb + 1) * blk < 0
    ensures nb * blk + n * blk == (nb + n) * blk && (nb + 1) * blk + n * blk == (nb + n + 1) * blk
    ensures nb + n < 0 ==> (nb + n + 1) * blk <= 0
  {
    MulLe(1, -nb - 1, blk);
    assert (nb + 1) * blk == -((-nb - 1) * blk) && nb * blk == (nb + 1) * blk - blk;
    if nb + n < 0 {
      MulLe(0, -(nb + n) - 1, blk);
      assert (nb + n + 1) * blk == -((-(nb + n) - 1) * blk);
    }
  }

  /** The number reads one of the two log blocks. */
  predicate NamesLog(nb: int, at: int, n: nat)
  {
    Alias(nb, n) == at || Alias(nb, n) == at + 1
  }

  /** The block reads the same on both volumes. */
  ghost predicate Kept(v: Vol, v': Vol, nb: int)
  {
    BlockOf(v'.data, nb, v'.blk) == BlockOf(v.data, nb, v.blk)
  }

  /** The first half kilobyte of the block reads the same. */
  ghost predicate FrontKept(v: Vol, v': Vol, nb: int)
  {
    var a, a' := BlockOf(v.data, nb, v.blk), BlockOf(v'.data, nb, v'.blk);
    |a| == |a'| >= 512 && a'[..512] == a[..512]
  }

  /** Outside the log, only block 0 changes, and not at its front. */
  ghost predicate LogOnly(v: Vol, v': Vol, at: int, n: nat)
  {
    && v.blk == v'.blk && v.group == v'.group
    && (forall nb :: !NamesLog(nb, at, n) && Alias(nb, n) != 0 ==> Kept(v, v', nb))
    && (forall nb :: Alias(nb, n) == 0 ==> FrontKept(v, v', nb))
  }

  lemma InjectionLogOnly(buf: bytes, cs: seq<Child>, name: bytes, m: Manifest, numBlocks: nat, blk: nat, b: Befs)
    requires Injectable(buf, cs, name, m, numBlocks, blk, b)
    ensures LogOnly(VolOf(buf, numBlocks, blk), VolOf(After(buf, b), numBlocks, blk), LogAt(b), numBlocks)
  {
    hide BlockOf, StagedImage, CanInject, Injected, FindTarget, Open, NoWrap, Reserved;
    InjectedBlocks(buf, cs, name, m, numBlocks, blk, b);
    SuperFrontKept(buf, cs, name, m, numBlocks, blk, b);
    var out := After(buf, b);
    forall nb: int
      ensures BlockOf(buf, nb, blk) == if 0 <= Alias(nb, numBlocks) < numBlocks then BlockOf(buf, Alias(nb, numBlocks), blk) else []
      ensures BlockOf(out, nb, blk) == if 0 <= Alias(nb, numBlocks) < numBlocks then BlockOf(out, Alias(nb, numBlocks), blk) else []
    {
      BlockAlias(buf, numBlocks, nb, blk);
      BlockAlias(out, numBlocks, nb, blk);
    }
  }

  lemma SuperFrontKept(buf: bytes, cs: seq<Child>, name: bytes, m: Manifest, numBlocks: nat, blk: nat, b: Befs)
    requires Injectable(buf, cs, name, m, numBlocks, blk, b)
    ensures numBlocks > 0 && FrontKept(VolOf(buf, numBlocks, blk), VolOf(After(buf, b), numBlocks, blk), 0)
  {
    hide BlockOf, StagedImage, FindTarget, RunArray, Put, MarkDirty, Injected, WithLog, Packs;
    var t := FindTarget(buf, b).value;
    var arr, content, at := RunArray(t, b.group, blk), BlockOf(buf, t, blk), b.log.start + b.logEnd % b.log.len;
    RootInside(buf, cs, name, m, numBlocks, blk);
    InjectedBlocks(buf, cs, name, m, numBlocks, blk, b);
    InjectedIs(buf, b);
    var p := Put(buf, at, arr, blk);
    var q := Put(p, at + 1, content, blk);
    PutKeepsFront(buf, numBlocks, blk, at, arr);
    PutKeepsFront(p, numBlocks, blk, at + 1, content);
    MarkDirtyKeeps(q, b.logStart, b.logEnd, 0, 512);
    SamePart(q, buf, 0, 1024, 0, 512);
    FirstBlockFront(buf, numBlocks, blk);
    FirstBlockFront(Injected(buf, b), numBlocks, blk);
  }

  lemma FirstBlockFront(buf: bytes, n: nat, blk: nat)
    requires ValidBlk(blk) && |buf| == n * blk && n > 0
    ensures |BlockOf(buf, 0, blk)| == blk && |buf| >= 1024 && BlockOf(buf, 0, blk)[..512] == buf[0..512]
  {
    BlockBounds(0, n, blk);
    assert 0 * blk == 0 && 1 * blk == blk;
  }

  /** Whether a block is an inode, and of which kind, can change for the log blocks only. */
  lemma KindOutsideLog(v: Vol, v': Vol, at: int, n: nat, nb: int)
    requires LogOnly(v, v', at, n) && !NamesLog(nb, at, n)
    ensures IsDir(v', nb) == IsDir(v, nb)
  {
    hide BlockOf, NamesLog, Alias;
    if Alias(nb, n) == 0 {
      assert FrontKept(v, v', nb);
      var a, a' := BlockOf(v.data, nb, v.blk), BlockOf(v'.data, nb, v'.blk);
      assert a'[0..512] == a[0..512];
      SamePart(a', a, 0, 512, 0, 4);
      SamePart(a', a, 0, 512, 20, 24);
    } else {
      assert Kept(v, v', nb);
    }
  }

  /** One name behind a file that parses as a tree: the answer changes exactly when its entry names a
      log block and the injection changes what that block is. */
  lemma OneNameBehindIff(buf: bytes, cs: seq<Child>, name: bytes, m: Manifest, numBlocks: nat, blk: nat, b: Befs,
                         comps: seq<bytes>, data: bytes, key: bytes)
    requires Injectable(buf, cs, name, m, numBlocks, blk, b)
    requires HostAnswer(cs, comps) == ThroughFile(data, [key]) && AsTree(data, blk).Ok?
    ensures var v, v' := VolOf(buf, numBlocks, blk), VolOf(After(buf, b), numBlocks, blk);
            var nb := Scan(AsTree(data, blk).value, key);
            PathIn(v, comps) != PathIn(v', comps)
            <==> nb.Some? && NamesLog(nb.value, LogAt(b), numBlocks) && IsDir(v, nb.value) != IsDir(v', nb.value)
  {
    hide Injectable, After, AsTree, HostAnswer, ResolveFrom, IsDir, DirEntries, NamesLog, PathIn, LogOnly;
    InjectionKeepsPaths(buf, cs, name, m, numBlocks, blk, b, comps);
    InjectionLogOnly(buf, cs, name, m, numBlocks, blk, b);
    var v, v' := VolOf(buf, numBlocks, blk), VolOf(After(buf, b), numBlocks, blk);
    var nb := Scan(AsTree(data, blk).value, key);
    if nb.Some? && !NamesLog(nb.value, LogAt(b), numBlocks) {
      KindOutsideLog(v, v', LogAt(b), numBlocks, nb.value);
    }
  }

  // ---------------------------------------------------------------------------
  // Longer paths behind a file
  // ---------------------------------------------------------------------------

  /** The number reads a block that the injection leaves as it was. */
  predicate Untouched(nb: int, at: int, n: nat)
  {
    !NamesLog(nb, at, n) && Alias(nb, n) != 0
  }

  function RunBlock(run: Run, k: nat): int
  {
    run.start + k
  }

  ghost predicate QuietRuns(runs: seq<Run>, at: int, n: nat)
  {
    forall i, k: nat :: 0 <= i < |runs| && k < runs[i].len ==> Untouched(RunBlock(runs[i], k), at, n)
  }

  /** Reading this block as a directory touches nothing that changes. */
  ghost predicate QuietDir(v: Vol, nb: int, at: int, n: nat)
  {
    && Untouched(nb, at, n)
    && var runs := RunsFrom(RunReader(BlockOf(v.data, nb, v.blk), v.group), 0, []);
       runs.Ok? ==> QuietRuns(runs.value, at, n)
  }

  /** Nor does any directory on the way. */
  ghost predicate QuietWalk(v: Vol, nb: int, comps: seq<bytes>, i: nat, at: int, n: nat)
    requires i <= |comps|
    decreases |comps| - i
  {
    i < |comps| ==>
      && QuietDir(v, nb, at, n)
      && var es := DirEntries(v, nb);
         es.Ok? && Scan(es.value, comps[i]).Some? ==>
           var next := Scan(es.value, comps[i]).value;
           !NamesLog(next, at, n) && QuietWalk(v, next, comps, i + 1, at, n)
  }

  lemma {:induction false} RunBytesSame(v: Vol, v': Vol, runs: seq<Run>, at: int, n: nat)
    requires LogOnly(v, v', at, n) && QuietRuns(runs, at, n)
    ensures RunBytes(v'.data, runs, v'.blk) == RunBytes(v.data, runs, v.blk)
    decreases |runs|
  {
    hide BlockOf, Flatten, NamesLog, Alias;
    if runs != [] {
      var r, rest := runs[0], runs[1..];
      forall k | 0 <= k < r.len
        ensures BlocksOf(v'.data, r.start, r.len, v'.blk)[k] == BlocksOf(v.data, r.start, r.len, v.blk)[k]
      {
        assert Untouched(RunBlock(runs[0], k), at, n);
        assert Kept(v, v', RunBlock(r, k));
      }
      assert BlocksOf(v'.data, r.start, r.len, v'.blk) == BlocksOf(v.data, r.start, r.len, v.blk);
      assert QuietRuns(rest, at, n) by {
        forall i, k: nat | 0 <= i < |rest| && k < rest[i].len
          ensures Untouched(RunBlock(rest[i], k), at, n)
        {
          assert rest[i] == runs[i + 1];
          assert Untouched(RunBlock(runs[i + 1], k), at, n);
        }
      }
      RunBytesSame(v, v', rest, at, n);
    }
  }

  lemma DirSame(v: Vol, v': Vol, nb: int, at: int, n: nat)
    requires LogOnly(v, v', at, n) && QuietDir(v, nb, at, n)
    ensures DirEntries(v', nb) == DirEntries(v, nb)
  {
    hide BlockOf, RunsFrom, RunReader, NamesLog, Alias, GetEntries, RunBytes, QuietRuns;
    assert Kept(v, v', nb);
    var runs := RunsFrom(RunReader(BlockOf(v.data, nb, v.blk), v.group), 0, []);
    if runs.Ok? {
      RunBytesSame(v, v', runs.value, at, n);
    }
  }

  lemma {:induction false} WalkSame(v: Vol, v': Vol, nb: int, comps: seq<bytes>, i: nat, at: int, n: nat)
    requires LogOnly(v, v', at, n) && i <= |comps| && QuietWalk(v, nb, comps, i, at, n)
    ensures ResolveFrom(NamespaceOf(v'), nb, comps, i) == ResolveFrom(NamespaceOf(v), nb, comps, i)
    decreases |comps| - i
  {
    hide LogOnly, NamesLog, DirEntries, IsDir, QuietDir;
    if i < |comps| {
      DirSame(v, v', nb, at, n);
      var es := DirEntries(v, nb);
      if es.Ok? && Scan(es.value, comps[i]).Some? {
        var next := Scan(es.value, comps[i]).value;
        KindOutsideLog(v, v', at, n, next);
        WalkSame(v, v', next, comps, i + 1, at, n);
      }
    }
  }

  /** Behind a file, a path whose walk stays clear of the log and of block 0 reads as before. */
  lemma QuietPathsKept(buf: bytes, cs: seq<Child>, name: bytes, m: Manifest, numBlocks: nat, blk: nat, b: Befs,
                       comps: seq<bytes>, data: bytes, rest: seq<bytes>)
    requires Injectable(buf, cs, name, m, numBlocks, blk, b) && rest != []
    requires HostAnswer(cs, comps) == ThroughFile(data, rest) && AsTree(data, blk).Ok?
    requires var nb := Scan(AsTree(data, blk).value, rest[0]);
             nb.Some? ==>
               && !NamesLog(nb.value, LogAt(b), numBlocks)
               && QuietWalk(VolOf(buf, numBlocks, blk), nb.value, rest, 1, LogAt(b), numBlocks)
    ensures PathIn(VolOf(After(buf, b), numBlocks, blk), comps) == PathIn(VolOf(buf, numBlocks, blk), comps)
  {
    hide Injectable, After, AsTree, HostAnswer, ResolveFrom, IsDir, DirEntries, NamesLog, QuietWalk, PathIn, LogOnly;
    InjectionKeepsPaths(buf, cs, name, m, numBlocks, blk, b, comps);
    InjectionLogOnly(buf, cs, name, m, numBlocks, blk, b);
    var v, v' := VolOf(buf, numBlocks, blk), VolOf(After(buf, b), numBlocks, blk);
    var nb := Scan(AsTree(data, blk).value, rest[0]);
    if nb.Some? {
      KindOutsideLog(v, v', LogAt(b), numBlocks, nb.value);
      WalkSame(v, v', nb.value, rest, 1, LogAt(b), numBlocks);
    }
  }

  // ---------------------------------------------------------------------------
  // A path that the injection changes
  // ---------------------------------------------------------------------------

  /** A tree of one entry, for the second log block. */
  ghost function LogTree(key: bytes, b: Befs): seq<Entry>
  {
    [Entry(key, LogAt(b) + 1)]
  }

  /** On a fresh image, whose log is clear: a file that holds such a tree, and a README.TXT that starts
      with the inode magic. The entry's name is an error before the injection and is found after
      it. */
  lemma InjectionChangesPath(buf: bytes, cs: seq<Child>, name: bytes, m: Manifest, numBlocks: nat, blk: nat, b: Befs,
                             file: bytes, key: bytes, readme: bytes)
    requires Injectable(buf, cs, name, m, numBlocks, blk, b) && LogClear(buf, numBlocks, blk)
    requires file != DOT && file != DOT_DOT && FindChild(cs, file).Some? && Stream(BTREE_STRING, LogTree(key, b), blk).Ok?
    requires cs[FindChild(cs, file).value].node == HostFile(Stream(BTREE_STRING, LogTree(key, b), blk).value)
    requires FindChild(cs, README_TXT).Some? && cs[FindChild(cs, README_TXT).value].node == HostFile(readme)
    requires U32(readme, 0) == Ok(INODE_MAGIC1)
    ensures PathIn(VolOf(buf, numBlocks, blk), [file, key]).Err?
    ensures Resolves(PathIn(VolOf(After(buf, b), numBlocks, blk), [file, key]))
  {
    hide Injectable, After, AsTree, ResolveFrom, Stream, BlockOf, U32, FindTarget, LogClear, FindChild, PathIn, IsDir, LogAt;
    assert U32(BlockOf(buf, FindTarget(buf, b).value, blk), 0) == Ok(INODE_MAGIC1) by {
      ReadmeFirstWord(buf, cs, name, m, numBlocks, blk, b, readme);
    }
    LogBlockKinds(buf, cs, name, m, numBlocks, blk, b);
    var es, comps := LogTree(key, b), [file, key];
    var data := Stream(BTREE_STRING, es, blk).value;
    assert HostAnswer(cs, comps) == ThroughFile(data, [key]) by { OneFileName(cs, file, key); }
    InjectionKeepsPaths(buf, cs, name, m, numBlocks, blk, b, comps);
    TreeFileEntered(es, blk);
    assert Scan(es, key) == Some(LogAt(b) + 1);
  }

  lemma OneFileName(cs: seq<Child>, file: bytes, key: bytes)
    requires file != DOT && file != DOT_DOT && FindChild(cs, file).Some? && cs[FindChild(cs, file).value].node.HostFile?
    ensures HostAnswer(cs, [file, key]) == ThroughFile(cs[FindChild(cs, file).value].node.data, [key])
  {
    hide FindChild;
    var comps := [file, key];
    assert comps[1..] == [key];
  }

  /** The journaled block starts with what README.TXT starts with. */
  lemma ReadmeFirstWord(buf: bytes, cs: seq<Child>, name: bytes, m: Manifest, numBlocks: nat, blk: nat, b: Befs, readme: bytes)
    requires Injectable(buf, cs, name, m, numBlocks, blk, b)
    requires FindChild(cs, README_TXT).Some? && cs[FindChild(cs, README_TXT).value].node == HostFile(readme) && U32(readme, 0).Ok?
    ensures FindTarget(buf, b).Ok? && U32(BlockOf(buf, FindTarget(buf, b).value, blk), 0) == U32(readme, 0)
  {
    hide BlockOf, Open, FindTarget, Packs, WithLog, RootRec, Mirrors, MirrorsAll, Placed, Stored, StoredAll, Staged, FileBlock, U32, FindChild;
    TargetIs(buf, cs, name, m, numBlocks, blk, b);
    var v, r, k := VolOf(buf, numBlocks, blk), RootRec(cs, name, numBlocks, blk), FindChild(cs, README_TXT).value;
    RootParts(v, r, m, numBlocks);
    MirrorsLength(r.children, cs);
    MirrorsAt(r.children, cs, k);
    ChildAt(buf, r.children, r.block, r.stream + r.nblk, m, blk, k);
    FirstFileBlock(buf, r.children[k], m, blk, readme);
  }

  lemma FirstFileBlock(buf: bytes, c: Rec, m: Manifest, blk: nat, data: bytes)
    requires ValidBlk(blk) && Mirrors(c, HostFile(data)) && Stored(buf, c, m, blk) && U32(data, 0).Ok?
    ensures FirstBlock(c) == c.block + 1 && U32(BlockOf(buf, c.block + 1, blk), 0) == U32(data, 0)
  {
    hide BlockOf, FileBlock, Need, InodeBytes;
    assert data != [];
    SomeNeed(data, blk);
    assert Need(data, blk) >= 1;
    assert BlockOf(buf, c.block + 1 + 0, blk) == FileBlock(data, 0, blk);
    FileBlockFront(data, blk);
  }

  lemma FileBlockFront(data: bytes, blk: nat)
    requires ValidBlk(blk) && U32(data, 0).Ok?
    ensures U32(FileBlock(data, 0, blk), 0) == U32(data, 0)
  {
    assert 0 * blk == 0 && 1 * blk == blk;
    assert FileBlock(data, 0, blk)[0..4] == data[0..4];
  }

  /** The second log block before and after. */
  lemma LogBlockKinds(buf: bytes, cs: seq<Child>, name: bytes, m: Manifest, numBlocks: nat, blk: nat, b: Befs)
    requires Injectable(buf, cs, name, m, numBlocks, blk, b) && LogClear(buf, numBlocks, blk)
    requires U32(BlockOf(buf, FindTarget(buf, b).value, blk), 0) == Ok(INODE_MAGIC1)
    ensures ValidBlk(blk) && 0 <= LogAt(b) + 1 < MAX_I64
    ensures IsDir(VolOf(buf, numBlocks, blk), LogAt(b) + 1).Err?
    ensures IsDir(VolOf(After(buf, b), numBlocks, blk), LogAt(b) + 1).Ok?
  {
    hide BlockOf, StagedImage, Injected, FindTarget, U32, Open, IsDir, Packs, WithLog, Reserved, LogClear;
    InjectedBlocks(buf, cs, name, m, numBlocks, blk, b);
    LimitSmall(buf, cs, name, m, numBlocks, blk);
    LogInside(numBlocks, blk, b);
    ClearAt(buf, numBlocks, blk, LogAt(b) + 1);
    KindOf(VolOf(buf, numBlocks, blk), LogAt(b) + 1);
    KindOf(VolOf(After(buf, b), numBlocks, blk), LogAt(b) + 1);
  }

  lemma LogInside(numBlocks: nat, blk: nat, b: Befs)
    requires LogOf(b, numBlocks, blk) && NoWrap(b)
    ensures Reserved(numBlocks) - LOG_LEN <= LogAt(b) < LogAt(b) + 1 < Reserved(numBlocks) && LogAt(b) > 0
  {
  }

  lemma ClearAt(buf: bytes, numBlocks: nat, blk: nat, n: nat)
    requires LogClear(buf, numBlocks, blk) && Reserved(numBlocks) - LOG_LEN <= n < Reserved(numBlocks) && blk >= 4
    ensures U32(BlockOf(buf, n, blk), 0) == Ok(0)
  {
    hide U32, Reserved, BlockOf;
    ZeroWord(blk);
  }

  /** Whether a block is an inode is decided by its first word. */
  lemma KindOf(v: Vol, nb: int)
    ensures U32(BlockOf(v.data, nb, v.blk), 0) != Ok(INODE_MAGIC1) ==> IsDir(v, nb).Err?
    ensures U32(BlockOf(v.data, nb, v.blk), 0) == Ok(INODE_MAGIC1) && |BlockOf(v.data, nb, v.blk)| >= 24 ==> IsDir(v, nb).Ok?
  {
    hide BlockOf;
  }

  lemma LimitSmall(buf: bytes, cs: seq<Child>, name: bytes, m: Manifest, numBlocks: nat, blk: nat)
    requires ValidBlk(blk) && StagedImage(buf, cs, name, m, numBlocks, blk)
    ensures numBlocks <= MAX_BLOCKS
  {
    hide Open, MirrorsAll, RootStored, Placed, AttrsFitEach, RootAttrs, RecBlocks, RootRec;
  }

  lemma ZeroWord(n: nat)
    requires n >= 4
    ensures U32(Zeros(n), 0) == Ok(0)
  {
    assert Zeros(n)[0..4] == Zeros(4);
    EncodeZero(4);
    Unsigned32(0);
  }
}
